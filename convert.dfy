/** The pixel-processing body of convert: arcadeColors built from the colour pickers, a
    zero-filled output raster, the solid or dot-matrix pass that draws into it, and the
    encoder that turns it into a MakeCode image literal. */
module Convert {
  import opened Colour
  import opened Grid
  import opened Palette
  import opened Raster
  import opened Resample
  import opened Solid
  import opened Dither
  import opened Encode

  /** currentMode: "solid", or "dotMatrix" (whose two types, pattern and solidApprox,
      differ only in a counter that nothing reads, so both dither). */
  datatype Mode = SolidColour | DotMatrix

  /** The output raster convert draws, pixel by pixel. */
  ghost function Quantized(samples: seq<seq<Rgba>>, w: nat, h: nat, pal0: seq<Entry>, mode: Mode): (g: seq<seq<Rgba>>)
    requires IsGrid(samples, w, h) && |pal0| > 0
    ensures IsGrid(g, w, h)
  {
    seq(h, y requires 0 <= y < h =>
      seq(w, x requires 0 <= x < w =>
        if mode == SolidColour then SolidAt(samples, w, h, pal0, x, y) else DitherAt(samples, w, h, pal0, x, y)))
  }

  /** The order of arcadeColors when the encoder starts: the solid pass sorts the array
      itself, the dot-matrix pass only sorts mapped copies of it. */
  ghost function EncoderPalette(samples: seq<seq<Rgba>>, w: nat, h: nat, pal0: seq<Entry>, mode: Mode): (p: seq<Entry>)
    requires IsGrid(samples, w, h)
    ensures |p| == |pal0|
  {
    if mode == SolidColour then
      Solid.PaletteAfterRowsReordered(samples, w, h, pal0, h);
      Solid.PaletteAfterRows(samples, w, h, pal0, h)
    else
      pal0
  }

  /** Either way the encoder sees the same entries, with equal colours in slot order. */
  lemma EncoderPaletteReordered(samples: seq<seq<Rgba>>, w: nat, h: nat, pal0: seq<Entry>, mode: Mode)
    requires IsGrid(samples, w, h)
    ensures Reordered(pal0, EncoderPalette(samples, w, h, pal0, mode))
  {
    if mode == SolidColour {
      Solid.PaletteAfterRowsReordered(samples, w, h, pal0, h);
    } else {
      ReorderedSelf(pal0);
    }
  }

  /** The spriteCode convert returns for the resampled source pixels. */
  ghost function SpriteOf(samples: seq<seq<Rgba>>, w: nat, h: nat, pal0: seq<Entry>, mode: Mode): string
    requires IsGrid(samples, w, h) && |pal0| > 0
  {
    Sprite(Quantized(samples, w, h, pal0, mode), w, h, EncoderPalette(samples, w, h, pal0, mode))
  }

  // ---------------------------------------------------------------------------
  // Properties

  /** Every opaque output pixel has the colour of one of the palette entries, at full
      alpha; exactly the transparent source pixels stay transparent. */
  lemma QuantizedColoured(samples: seq<seq<Rgba>>, w: nat, h: nat, pal0: seq<Entry>, mode: Mode, x: nat, y: nat)
    requires IsGrid(samples, w, h) && |pal0| > 0 && x < w && y < h
    ensures var px := Quantized(samples, w, h, pal0, mode)[y][x];
      && (px.a == 0 <==> samples[y][x].a == 0)
      && (px.a == 0 ==> px == Clear)
      && (px.a != 0 ==> px.a == 255 && exists e :: e in pal0 && e.color == Rgb(px.r, px.g, px.b))
  {
    var px := Quantized(samples, w, h, pal0, mode)[y][x];
    if samples[y][x].a != 0 {
      if mode == SolidColour {
        ChoiceNearest(samples, w, h, pal0, x, y);
        assert Choice(samples, w, h, pal0, x, y) in pal0;
      } else {
        var c := BufferBefore(samples, w, h, pal0, x, y)[y][x];
        NearestIsFirstMinimum(pal0, c);
        assert Nearest(pal0, c) in pal0;
      }
    }
  }

  lemma QuantizedIsPaletteColoured(samples: seq<seq<Rgba>>, w: nat, h: nat, pal0: seq<Entry>, mode: Mode, p: seq<Entry>)
    requires IsGrid(samples, w, h) && |pal0| > 0 && Reordered(pal0, p)
    ensures PaletteColoured(Quantized(samples, w, h, pal0, mode), w, h, p)
  {
    var g: seq<seq<Rgba>> := Quantized(samples, w, h, pal0, mode);
    forall y: int, x: int | 0 <= y < h && 0 <= x < w && g[y][x].a > 0
      ensures exists e :: e in p && Rgb(g[y][x].r, g[y][x].g, g[y][x].b) == e.color
    {
      QuantizedColoured(samples, w, h, pal0, mode, x, y);
      var e :| e in pal0 && e.color == Rgb(g[y][x].r, g[y][x].g, g[y][x].b);
      assert e in multiset(p);
    }
  }

  /** On convert's own raster the encoder's lookup never misses, so the encoder never
      sorts arcadeColors: the order it starts from is the order it leaves. */
  lemma EncoderNeverSorts(samples: seq<seq<Rgba>>, w: nat, h: nat, pal0: seq<Entry>, mode: Mode)
    requires IsGrid(samples, w, h) && |pal0| > 0
    ensures var g := Quantized(samples, w, h, pal0, mode);
      var p := EncoderPalette(samples, w, h, pal0, mode);
      Encode.PaletteAfterRows(BuildLookup(p), g, w, h, p, h) == p
  {
    var p := EncoderPalette(samples, w, h, pal0, mode);
    EncoderPaletteReordered(samples, w, h, pal0, mode);
    QuantizedIsPaletteColoured(samples, w, h, pal0, mode, p);
    NoFallback(Quantized(samples, w, h, pal0, mode), w, h, p, h);
  }

  /** The last slot of a colour that occurs at slot k. */
  lemma {:induction false} LastSlotOf(a: seq<Entry>, c: Rgb, k: nat) returns (i: nat)
    requires k < |a| && a[k].color == c
    ensures k <= i < |a| && a[i].color == c
    ensures forall j :: i < j < |a| ==> a[j].color != c
    decreases |a| - k
  {
    if j :| k < j < |a| && a[j].color == c {
      i := LastSlotOf(a, c, j);
    } else {
      i := k;
    }
  }

  lemma ArcadeDigits(slots: seq<string>, p: seq<Entry>)
    requires ValidSlots(slots) && Reordered(ArcadeColors(slots), p)
    ensures DigitIndices(p)
  {
    var a := ArcadeColors(slots);
    ArcadeColorsSlots(slots);
    forall i | 0 <= i < |p|
      ensures IsLowerHexDigit(p[i].index)
    {
      assert p[i] in multiset(a);
      var j :| 0 <= j < |a| && a[j] == p[i];
    }
  }

  lemma ReorderedSelf(p: seq<Entry>)
    ensures Reordered(p, p)
  {
    assert forall c: Rgb :: SameColour(p, c) == SameColour(p, c);
  }

  /** The encoder's digit for a pixel whose colour, if opaque, is in arcadeColors. */
  lemma PixelDigit(slots: seq<string>, p: seq<Entry>, q: seq<Entry>, px: Rgba)
    requires ValidSlots(slots) && Reordered(ArcadeColors(slots), p) && Reordered(p, q) && |p| > 0
    requires px.a != 0 ==> exists e :: e in ArcadeColors(slots) && e.color == Rgb(px.r, px.g, px.b)
    ensures var a := ArcadeColors(slots);
      var c := Rgb(px.r, px.g, px.b);
      var ch := EncodeChar(BuildLookup(p), q, px);
      && IsLowerHexDigit(ch) && ch != '0'
      && (px.a == 0 || c == Rgb(0, 0, 0) ==> ch == 'f')
      && (px.a != 0 && c != Rgb(0, 0, 0) ==>
            a[HexValue(ch)].color == c && forall j :: HexValue(ch) < j < 16 ==> a[j].color != c)
  {
    var a := ArcadeColors(slots);
    var c := Rgb(px.r, px.g, px.b);
    ArcadeDigits(slots, p);
    EncodeCharDigit(p, q, px);
    if px.a != 0 && c != Rgb(0, 0, 0) {
      var e :| e in a && e.color == c;
      var k :| 0 <= k < |a| && a[k] == e;
      var i := LastSlotOf(a, c, k);
      HighestSlotWins(slots, p, q, px, i);
      HexDigitInjective(HexValue(EncodeChar(BuildLookup(p), q, px)), i);
    }
  }

  /** Where the digit of pixel (x, y) sits in a w-wide sprite literal: after "img`\n"
      and y lines of w digits and a newline. */
  function PixelOffset(w: nat, x: nat, y: nat): nat {
    5 + y * (w + 1) + x
  }

  /** Character x of row y of spriteCode: 'f' for a transparent or black output pixel,
      and otherwise the digit of the highest slot of arcadeColors holding that pixel's
      colour (such a slot always exists). */
  lemma ConvertedDigit(samples: seq<seq<Rgba>>, w: nat, h: nat, slots: seq<string>, mode: Mode, x: nat, y: nat)
    requires IsGrid(samples, w, h) && ValidSlots(slots) && x < w && y < h
    ensures var a := ArcadeColors(slots);
      var s := SpriteOf(samples, w, h, a, mode);
      var px := Quantized(samples, w, h, a, mode)[y][x];
      var c := Rgb(px.r, px.g, px.b);
      && PixelOffset(w, x, y) < |s|
      && var ch := s[PixelOffset(w, x, y)];
      && IsLowerHexDigit(ch) && ch != '0'
      && (px.a == 0 || c == Rgb(0, 0, 0) ==> ch == 'f')
      && (px.a != 0 && c != Rgb(0, 0, 0) ==>
            a[HexValue(ch)].color == c && forall j :: HexValue(ch) < j < 16 ==> a[j].color != c)
  {
    var a := ArcadeColors(slots);
    var g: seq<seq<Rgba>> := Quantized(samples, w, h, a, mode);
    var p := EncoderPalette(samples, w, h, a, mode);
    EncoderPaletteReordered(samples, w, h, a, mode);
    var m := BuildLookup(p);
    SpriteShape(g, w, h, p, x, y);
    QuantizedIsPaletteColoured(samples, w, h, a, mode, p);
    NoFallback(g, w, h, p, y);
    NoFallbackRow(g, w, h, p, p, y, x);
    ReorderedSelf(p);
    QuantizedColoured(samples, w, h, a, mode, x, y);
    PixelDigit(slots, p, p, g[y][x]);
  }

  // ---------------------------------------------------------------------------
  // convert

  /** A zero-filled ImageData is transparent black everywhere. */
  lemma BlankIsClear(out: Image)
    requires out.Valid() && forall i :: 0 <= i < out.data.Length ==> out.data[i] == 0
    ensures forall x: nat, y: nat :: x < out.width && y < out.height ==> out.GetPixelColor(x, y) == Clear
  {
    forall x: nat, y: nat | x < out.width && y < out.height
      ensures out.GetPixelColor(x, y) == Clear
    {
      PixelIndexInRange(out.width, out.height, x, y);
    }
  }

  /** convert(img, frame): w and h are the img element's adjusted size, slots the values
      of the fifteen colour pickers. */
  method Convert(src: Image, w: nat, h: nat, slots: seq<string>, mode: Mode) returns (spriteCode: string)
    requires src.Valid() && src.width >= 1 && src.height >= 1 && ValidSlots(slots)
    ensures spriteCode == SpriteOf(Resampled(src, w, h), w, h, ArcadeColors(slots), mode)
  {
    ghost var samples := Resampled(src, w, h);
    ghost var a := ArcadeColors(slots);
    var palette := new Entry[16](i requires 0 <= i < 16 => ArcadeColors(slots)[i]);
    assert palette[..] == a;
    var out := new Image(w, h);
    BlankIsClear(out);
    if mode == SolidColour {
      QuantizeSolid(src, out, palette);
    } else {
      var _ := DitherImage(src, out, palette);
    }
    assert Pixels(out) == Quantized(samples, w, h, a, mode) by {
      forall y | 0 <= y < h
        ensures Pixels(out)[y] == Quantized(samples, w, h, a, mode)[y]
      {
        forall x | 0 <= x < w
          ensures Pixels(out)[y][x] == Quantized(samples, w, h, a, mode)[y][x]
        {
          assert Pixels(out)[y][x] == out.GetPixelColor(x, y);
        }
      }
    }
    spriteCode := EncodeSprite(out, palette);
  }
}
