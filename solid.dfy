/** Solid mode of convert: every opaque pixel sorts arcadeColors in place by distance to
    the sampled source colour and takes the head; transparent pixels are skipped and stay
    (0, 0, 0, 0) in the freshly created output buffer. */
module Solid {
  import opened Colour
  import opened Grid
  import opened Palette
  import opened Raster
  import opened Resample

  /** The colour of a pixel that convert never writes. */
  const Clear := Rgba(0, 0, 0, 0)

  /** setPixelColor(..., c.r, c.g, c.b, 255) */
  function Opaque(c: Rgb): (p: Rgba)
    ensures p.a == 255 && Rgb(p.r, p.g, p.b) == c
  {
    Rgba(c.r, c.g, c.b, 255)
  }

  /** What one pixel does to arcadeColors: an opaque pixel sorts it in place by distance
      to its colour, a transparent one leaves it alone. */
  function Reorder(p: seq<Entry>, px: Rgba): seq<Entry>
  {
    if px.a == 0 then p else StableSort(p, PixelToReal(px))
  }

  lemma ReorderIsReordered(p: seq<Entry>, px: Rgba)
    ensures Reordered(p, Reorder(p, px))
  {
    if px.a != 0 {
      StableSortReordered(p, PixelToReal(px));
    }
  }

  /** The order of arcadeColors after the first x pixels of row y, from start. */
  function RowPalette(samples: seq<seq<Rgba>>, w: nat, h: nat, y: nat, x: nat, start: seq<Entry>): seq<Entry>
    requires IsGrid(samples, w, h) && y < h && x <= w
  {
    if x == 0 then start else Reorder(RowPalette(samples, w, h, y, x - 1, start), samples[y][x - 1])
  }

  /** The order of arcadeColors after the first y rows. */
  function PaletteAfterRows(samples: seq<seq<Rgba>>, w: nat, h: nat, pal0: seq<Entry>, y: nat): seq<Entry>
    requires IsGrid(samples, w, h) && y <= h
  {
    if y == 0 then pal0 else RowPalette(samples, w, h, y - 1, w, PaletteAfterRows(samples, w, h, pal0, y - 1))
  }

  /** The order of arcadeColors when the scan reaches pixel (x, y). */
  function PaletteBefore(samples: seq<seq<Rgba>>, w: nat, h: nat, pal0: seq<Entry>, x: nat, y: nat): seq<Entry>
    requires IsGrid(samples, w, h) && x <= w && y < h
  {
    RowPalette(samples, w, h, y, x, PaletteAfterRows(samples, w, h, pal0, y))
  }

  lemma {:induction false} RowPaletteReordered(samples: seq<seq<Rgba>>, w: nat, h: nat, y: nat, x: nat, start: seq<Entry>)
    requires IsGrid(samples, w, h) && y < h && x <= w
    ensures Reordered(start, RowPalette(samples, w, h, y, x, start))
  {
    if x > 0 {
      RowPaletteReordered(samples, w, h, y, x - 1, start);
      ReorderIsReordered(RowPalette(samples, w, h, y, x - 1, start), samples[y][x - 1]);
    }
  }

  /** However many rows have been scanned, arcadeColors is a permutation of its sixteen
      starting entries, and entries of one colour are in their starting relative order. */
  lemma {:induction false} PaletteAfterRowsReordered(samples: seq<seq<Rgba>>, w: nat, h: nat, pal0: seq<Entry>, y: nat)
    requires IsGrid(samples, w, h) && y <= h
    ensures Reordered(pal0, PaletteAfterRows(samples, w, h, pal0, y))
  {
    if y > 0 {
      PaletteAfterRowsReordered(samples, w, h, pal0, y - 1);
      RowPaletteReordered(samples, w, h, y - 1, w, PaletteAfterRows(samples, w, h, pal0, y - 1));
    }
  }

  /** The same, in the middle of a row. */
  lemma PaletteBeforeReordered(samples: seq<seq<Rgba>>, w: nat, h: nat, pal0: seq<Entry>, x: nat, y: nat)
    requires IsGrid(samples, w, h) && x <= w && y < h
    ensures Reordered(pal0, PaletteBefore(samples, w, h, pal0, x, y))
  {
    PaletteAfterRowsReordered(samples, w, h, pal0, y);
    RowPaletteReordered(samples, w, h, y, x, PaletteAfterRows(samples, w, h, pal0, y));
  }

  /** The entry an opaque pixel (x, y) takes: the head of the palette once sorted by
      distance to the pixel's colour. */
  function Choice(samples: seq<seq<Rgba>>, w: nat, h: nat, pal0: seq<Entry>, x: nat, y: nat): Entry
    requires IsGrid(samples, w, h) && x < w && y < h && |pal0| > 0
  {
    var p := PaletteBefore(samples, w, h, pal0, x, y);
    PaletteBeforeReordered(samples, w, h, pal0, x, y);
    StableSortPermutes(p, PixelToReal(samples[y][x]));
    StableSort(p, PixelToReal(samples[y][x]))[0]
  }

  /** The output pixel at (x, y). */
  function SolidAt(samples: seq<seq<Rgba>>, w: nat, h: nat, pal0: seq<Entry>, x: nat, y: nat): Rgba
    requires IsGrid(samples, w, h) && x < w && y < h && |pal0| > 0
  {
    if samples[y][x].a == 0 then Clear else Opaque(Choice(samples, w, h, pal0, x, y).color)
  }

  /** The entry chosen for an opaque pixel is one of the palette's sixteen entries and no
      entry is nearer to the pixel's colour. */
  lemma ChoiceNearest(samples: seq<seq<Rgba>>, w: nat, h: nat, pal0: seq<Entry>, x: nat, y: nat)
    requires IsGrid(samples, w, h) && x < w && y < h && |pal0| > 0
    ensures Choice(samples, w, h, pal0, x, y) in pal0
    ensures forall e :: e in pal0 ==>
      Key(PixelToReal(samples[y][x]), Choice(samples, w, h, pal0, x, y)) <= Key(PixelToReal(samples[y][x]), e)
  {
    var p := PaletteBefore(samples, w, h, pal0, x, y);
    var t := PixelToReal(samples[y][x]);
    PaletteBeforeReordered(samples, w, h, pal0, x, y);
    StableSortHead(p, t);
    var j := FirstNearestIndex(p, t);
    assert p[j] in multiset(p);
    forall e | e in pal0
      ensures Key(t, p[j]) <= Key(t, e)
    {
      assert e in multiset(pal0);
      var i :| 0 <= i < |p| && p[i] == e;
    }
  }

  /** Ties go to the entry that comes first in the order left by the previous sorts. */
  lemma ChoiceFirstInCurrentOrder(samples: seq<seq<Rgba>>, w: nat, h: nat, pal0: seq<Entry>, x: nat, y: nat)
    requires IsGrid(samples, w, h) && x < w && y < h && |pal0| > 0
    ensures
      var p := PaletteBefore(samples, w, h, pal0, x, y);
      && |p| == |pal0|
      && Choice(samples, w, h, pal0, x, y) == p[FirstNearestIndex(p, PixelToReal(samples[y][x]))]
  {
    PaletteBeforeReordered(samples, w, h, pal0, x, y);
    StableSortHead(PaletteBefore(samples, w, h, pal0, x, y), PixelToReal(samples[y][x]));
  }

  /** An opaque pixel: sort arcadeColors by distance to its colour and write the head. */
  method QuantizeOpaque(out: Image, palette: array<Entry>, x: nat, y: nat, t: RColor, ghost p: seq<Entry>)
    requires out.Valid() && x < out.width && y < out.height
    requires palette[..] == p && |p| > 0
    modifies out.data, palette
    ensures palette[..] == StableSort(p, t)
    ensures |StableSort(p, t)| > 0 && out.GetPixelColor(x, y) == Opaque(StableSort(p, t)[0].color)
    ensures forall x': nat, y': nat :: (x' < out.width && y' < out.height && (x' != x || y' != y)
      ==> out.GetPixelColor(x', y') == old(out.GetPixelColor(x', y')))
  {
    SortByDistance(palette, t);
    StableSortPermutes(p, t);
    var nearest := palette[0];
    out.SetPixelColor(x, y, nearest.color.r, nearest.color.g, nearest.color.b, 255);
  }

  /** One opaque-or-transparent pixel of the solid branch: sort, take the head, write it. */
  method QuantizePixel(src: Image, out: Image, palette: array<Entry>, x: nat, y: nat,
                       ghost samples: seq<seq<Rgba>>, ghost pal0: seq<Entry>)
    requires src.Valid() && out.Valid() && src.width >= 1 && src.height >= 1
    requires out.data != src.data && |pal0| > 0
    requires samples == Resampled(src, out.width, out.height) && x < out.width && y < out.height
    requires palette[..] == PaletteBefore(samples, out.width, out.height, pal0, x, y)
    requires out.GetPixelColor(x, y) == Clear
    modifies out.data, palette
    ensures palette[..] == PaletteBefore(samples, out.width, out.height, pal0, x + 1, y)
    ensures out.GetPixelColor(x, y) == SolidAt(samples, out.width, out.height, pal0, x, y)
    ensures forall x': nat, y': nat :: (x' < out.width && y' < out.height && (x' != x || y' != y)
      ==> out.GetPixelColor(x', y') == old(out.GetPixelColor(x', y')))
  {
    var w, h := out.width, out.height;
    ghost var p := palette[..];
    PaletteBeforeReordered(samples, w, h, pal0, x, y);
    var px := src.GetPixelColor(SourceCoord(x, src.width, w), SourceCoord(y, src.height, h));
    ResampledAt(src, w, h, x, y);
    if px.a != 0 {
      QuantizeOpaque(out, palette, x, y, PixelToReal(px), p);
    }
  }

  /** Row y of the solid branch. */
  method QuantizeRow(src: Image, out: Image, palette: array<Entry>, y: nat,
                     ghost samples: seq<seq<Rgba>>, ghost pal0: seq<Entry>)
    requires src.Valid() && out.Valid() && src.width >= 1 && src.height >= 1
    requires out.data != src.data && |pal0| > 0
    requires samples == Resampled(src, out.width, out.height) && y < out.height
    requires palette[..] == PaletteAfterRows(samples, out.width, out.height, pal0, y)
    requires forall x': nat, y': nat :: x' < out.width && y' < out.height ==>
      out.GetPixelColor(x', y') == if y' < y then SolidAt(samples, out.width, out.height, pal0, x', y') else Clear
    modifies out.data, palette
    ensures palette[..] == PaletteAfterRows(samples, out.width, out.height, pal0, y + 1)
    ensures forall x': nat, y': nat :: x' < out.width && y' < out.height ==>
      out.GetPixelColor(x', y') == if y' <= y then SolidAt(samples, out.width, out.height, pal0, x', y') else Clear
  {
    var w, h := out.width, out.height;
    var x := 0;
    while x < w
      invariant 0 <= x <= w
      invariant palette[..] == PaletteBefore(samples, w, h, pal0, x, y)
      invariant forall x': nat, y': nat :: x' < w && y' < h && y' != y ==>
        out.GetPixelColor(x', y') == old(out.GetPixelColor(x', y'))
      invariant forall x': nat :: x' < w ==>
        out.GetPixelColor(x', y) == if x' < x then SolidAt(samples, w, h, pal0, x', y) else Clear
    {
      QuantizePixel(src, out, palette, x, y, samples, pal0);
      x := x + 1;
    }
  }

  /** The solid branch of convert's pixel loop. */
  method QuantizeSolid(src: Image, out: Image, palette: array<Entry>)
    requires src.Valid() && out.Valid() && src.width >= 1 && src.height >= 1
    requires out.data != src.data && palette.Length > 0
    requires forall x: nat, y: nat :: x < out.width && y < out.height ==> out.GetPixelColor(x, y) == Clear
    modifies out.data, palette
    ensures palette[..] == PaletteAfterRows(Resampled(src, out.width, out.height), out.width, out.height,
                                            old(palette[..]), out.height)
    ensures forall x: nat, y: nat :: x < out.width && y < out.height ==>
      out.GetPixelColor(x, y) == SolidAt(Resampled(src, out.width, out.height), out.width, out.height, old(palette[..]), x, y)
  {
    var w, h := out.width, out.height;
    ghost var samples := Resampled(src, w, h);
    ghost var pal0 := palette[..];
    var y := 0;
    while y < h
      invariant 0 <= y <= h
      invariant samples == Resampled(src, w, h)
      invariant palette[..] == PaletteAfterRows(samples, w, h, pal0, y)
      invariant forall x': nat, y': nat :: x' < w && y' < h ==>
        out.GetPixelColor(x', y') == if y' < y then SolidAt(samples, w, h, pal0, x', y') else Clear
    {
      QuantizeRow(src, out, palette, y, samples, pal0);
      y := y + 1;
    }
  }
}
