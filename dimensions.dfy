// The size the img element takes before conversion: updateImageDimensions picks a
// width and a height from the original image size and the selected size mode.

module Dimensions {

  /** A number read from a text field: parseInt or parseFloat gives NaN or a value. */
  datatype Option<T> = None | Some(value: T)

  /** The selected size radio button, with what its inputs parse to. Any other value
      of the radio group keeps the original size. */
  datatype SizeMode =
    | Custom(width: Option<int>, height: Option<int>)
    | Scale(factor: Option<real>)
    | FullWidth
    | FullHeight
    | Original

  datatype Size = Size(width: int, height: int)

  /** The MakeCode Arcade screen. */
  const ScreenWidth := 160
  const ScreenHeight := 120

  /** Math.round: the nearest integer, a half rounding up. */
  function Round(x: real): (n: int)
    ensures n as real - 0.5 <= x < n as real + 0.5
  {
    (x + 0.5).Floor
  }

  /** Math.max(1, n). */
  function AtLeastOne(n: int): (m: int)
    ensures m >= 1 && m >= n && (n >= 1 ==> m == n)
  {
    if n >= 1 then n else 1
  }

  /** The other side of an image whose side `from` becomes `to`, scaled by the same
      factor and rounded: Math.round(other * (to / from)). */
  function ScaledSide(other: nat, from: nat, to: int): int
    requires from >= 1
  {
    Round(other as real * (to as real / from as real))
  }

  /** imageWidth and imageHeight as the branches of updateImageDimensions leave them,
      for an original image of ow x oh. */
  function Requested(ow: nat, oh: nat, mode: SizeMode): (r: (real, real))
    requires ow >= 1 && oh >= 1
  {
    match mode
    case Custom(Some(cw), Some(ch)) => (cw as real, ch as real)
    case Custom(Some(cw), None) => (cw as real, ScaledSide(oh, ow, cw) as real)
    case Custom(None, Some(ch)) => (ScaledSide(ow, oh, ch) as real, ch as real)
    case Custom(None, None) => (ow as real, oh as real)
    case Scale(Some(f)) => (Round(ow as real * f) as real, Round(oh as real * f) as real)
    case Scale(None) => (ow as real, oh as real)
    case FullWidth => (ScreenWidth as real, ScaledSide(oh, ow, ScreenWidth) as real)
    case FullHeight => (ScaledSide(ow, oh, ScreenHeight) as real, ScreenHeight as real)
    case Original => (ow as real, oh as real)
  }

  /** The img element's width and height: the requested size rounded, and at least 1. */
  function UpdateImageDimensions(ow: nat, oh: nat, mode: SizeMode): (s: Size)
    requires ow >= 1 && oh >= 1
    ensures s.width >= 1 && s.height >= 1
  {
    var (iw, ih) := Requested(ow, oh, mode);
    Size(AtLeastOne(Round(iw)), AtLeastOne(Round(ih)))
  }

  /** Rounding a whole number gives it back. */
  lemma RoundWhole(n: int)
    ensures Round(n as real) == n
  {
    assert (n as real + 0.5).Floor == n;
  }

  /** Every mode that has nothing to apply keeps the original size, and so does a scale
      factor of 1. */
  lemma OriginalSizeKept(ow: nat, oh: nat, mode: SizeMode)
    requires ow >= 1 && oh >= 1
    requires mode == Original || mode == Scale(None) || mode == Scale(Some(1.0)) || mode == Custom(None, None)
    ensures UpdateImageDimensions(ow, oh, mode) == Size(ow, oh)
  {
    RoundWhole(ow);
    RoundWhole(oh);
  }

  /** Both custom fields given: they are used as they are, raised to 1. */
  lemma CustomBoth(ow: nat, oh: nat, cw: int, ch: int)
    requires ow >= 1 && oh >= 1
    ensures UpdateImageDimensions(ow, oh, Custom(Some(cw), Some(ch))) == Size(AtLeastOne(cw), AtLeastOne(ch))
  {
    RoundWhole(cw);
    RoundWhole(ch);
  }

  /** Full width fills the 160-pixel screen width, and the height is the original
      height scaled by the same factor, to the nearest pixel; a height that rounds to 0
      becomes 1. */
  lemma FullWidthKeepsAspect(ow: nat, oh: nat)
    requires ow >= 1 && oh >= 1
    ensures var s := UpdateImageDimensions(ow, oh, FullWidth);
      && s.width == ScreenWidth
      && (oh as real * ScreenWidth as real < 0.5 * ow as real ==> s.height == 1)
      && (0.5 * ow as real <= oh as real * ScreenWidth as real ==>
            (s.height as real - 0.5) * ow as real <= oh as real * ScreenWidth as real < (s.height as real + 0.5) * ow as real)
  {
    var n := ScaledSide(oh, ow, ScreenWidth);
    RoundWhole(n);
    RoundWhole(ScreenWidth);
    assert UpdateImageDimensions(ow, oh, FullWidth) == Size(ScreenWidth, AtLeastOne(n));
    ScaledSideBounds(oh, ow, ScreenWidth);
  }

  /** Full height fills the 120-pixel screen height, and the width is the original
      width scaled by the same factor, to the nearest pixel; a width that rounds to 0
      becomes 1. */
  lemma FullHeightKeepsAspect(ow: nat, oh: nat)
    requires ow >= 1 && oh >= 1
    ensures var s := UpdateImageDimensions(ow, oh, FullHeight);
      && s.height == ScreenHeight
      && (ow as real * ScreenHeight as real < 0.5 * oh as real ==> s.width == 1)
      && (0.5 * oh as real <= ow as real * ScreenHeight as real ==>
            (s.width as real - 0.5) * oh as real <= ow as real * ScreenHeight as real < (s.width as real + 0.5) * oh as real)
  {
    var n := ScaledSide(ow, oh, ScreenHeight);
    RoundWhole(n);
    RoundWhole(ScreenHeight);
    assert UpdateImageDimensions(ow, oh, FullHeight) == Size(AtLeastOne(n), ScreenHeight);
    ScaledSideBounds(ow, oh, ScreenHeight);
  }

  /** Full width is the custom mode with only the width, 160, filled in; full height the
      custom mode with only the height, 120. */
  lemma ScreenModesAreCustom(ow: nat, oh: nat)
    requires ow >= 1 && oh >= 1
    ensures UpdateImageDimensions(ow, oh, FullWidth) == UpdateImageDimensions(ow, oh, Custom(Some(ScreenWidth), None))
    ensures UpdateImageDimensions(ow, oh, FullHeight) == UpdateImageDimensions(ow, oh, Custom(None, Some(ScreenHeight)))
  {
  }

  /** The scaled side n is the nearest whole number to other * to / from: multiplied
      out, n - 1/2 <= other * to / from < n + 1/2. */
  lemma ScaledSideBounds(other: nat, from: nat, to: int)
    requires from >= 1
    ensures var n := ScaledSide(other, from, to) as real;
      (n - 0.5) * from as real <= other as real * to as real < (n + 0.5) * from as real
  {
    ScaledBounds(other as real, to as real, from as real, ScaledSide(other, from, to));
  }

  /** n rounds a * (b / d): multiplied out, n - 1/2 <= a * b / d < n + 1/2. */
  lemma ScaledBounds(a: real, b: real, d: real, n: int)
    requires d > 0.0 && n == Round(a * (b / d))
    ensures (n as real - 0.5) * d <= a * b < (n as real + 0.5) * d
  {
    var x := a * (b / d);
    assert x * d == a * b;
    var lo, hi := n as real - 0.5, n as real + 0.5;
    assert lo <= x < hi;
    assert (x - lo) * d >= 0.0;
    assert (hi - x) * d > 0.0 by {
      assert hi - x > 0.0;
    }
    assert x * d - lo * d == (x - lo) * d && hi * d - x * d == (hi - x) * d;
  }
}
