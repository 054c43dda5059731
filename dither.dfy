/** Dot-matrix mode of convert: Floyd-Steinberg dithering over a buffer seeded with the
    resampled source. Each opaque pixel takes the palette entry nearest to its buffer
    cell and spreads the difference to four later neighbours with weights 7/16, 3/16,
    5/16 and 1/16, clamping every channel into [0, 255]. */
module Dither {
  import opened Colour
  import opened Grid
  import opened Palette
  import opened Raster
  import opened Resample
  import opened Solid

  /** Math.max(0, Math.min(255, v)) */
  function Clamp255(v: real): (c: real)
    ensures 0.0 <= c <= 255.0
    ensures 0.0 <= v <= 255.0 ==> c == v
    ensures v < 0.0 ==> c == 0.0
    ensures v > 255.0 ==> c == 255.0
  {
    if v < 0.0 then 0.0 else if v > 255.0 then 255.0 else v
  }

  /** The three channel updates of distributeError on one cell. */
  function Spread(cell: RColor, err: RColor, factor: real): RColor {
    RColor(Clamp255(cell.r + err.r * factor), Clamp255(cell.g + err.g * factor), Clamp255(cell.b + err.b * factor))
  }

  ghost predicate InRange(c: RColor) {
    0.0 <= c.r <= 255.0 && 0.0 <= c.g <= 255.0 && 0.0 <= c.b <= 255.0
  }

  ghost predicate GridInRange(g: seq<seq<RColor>>, w: nat, h: nat) {
    IsGrid(g, w, h) && forall y, x :: 0 <= y < h && 0 <= x < w ==> InRange(g[y][x])
  }

  /** distributeError(dx, dy, factor) at target cell (nx, ny): skipped when it lies
      outside the buffer. */
  function Distribute(g: seq<seq<RColor>>, w: nat, h: nat, nx: int, ny: int, err: RColor, factor: real): (g': seq<seq<RColor>>)
    requires IsGrid(g, w, h)
    ensures IsGrid(g', w, h)
  {
    if 0 <= nx < w && 0 <= ny < h then g[ny := g[ny][nx := Spread(g[ny][nx], err, factor)]] else g
  }

  /** The four calls of distributeError for the pixel at (x, y). */
  function Diffuse(g: seq<seq<RColor>>, w: nat, h: nat, x: nat, y: nat, err: RColor): (g': seq<seq<RColor>>)
    requires IsGrid(g, w, h)
    ensures IsGrid(g', w, h)
  {
    var g1 := Distribute(g, w, h, x + 1, y, err, 7.0 / 16.0);
    var g2 := Distribute(g1, w, h, x - 1, y + 1, err, 3.0 / 16.0);
    var g3 := Distribute(g2, w, h, x, y + 1, err, 5.0 / 16.0);
    Distribute(g3, w, h, x + 1, y + 1, err, 1.0 / 16.0)
  }

  /** window.ditherBuffer as seeded: a copy of each resampled source pixel. */
  function Seed(samples: seq<seq<Rgba>>, w: nat, h: nat): (g: seq<seq<RColor>>)
    requires IsGrid(samples, w, h)
    ensures IsGrid(g, w, h)
  {
    seq(h, y requires 0 <= y < h => seq(w, x requires 0 <= x < w => PixelToReal(samples[y][x])))
  }

  /** The head of the distance-sorted mapped copy of the palette. */
  function Nearest(pal: seq<Entry>, c: RColor): Entry
    requires |pal| > 0
  {
    StableSortPermutes(pal, c);
    StableSort(pal, c)[0]
  }

  /** bufColor - nearest.color, channel by channel. */
  function ErrorOf(c: RColor, e: Entry): RColor {
    RColor(c.r - e.color.r as real, c.g - e.color.g as real, c.b - e.color.b as real)
  }

  /** The buffer after pixel (x, y) is processed from buffer g: a transparent source
      pixel leaves it alone. */
  function PixelStep(samples: seq<seq<Rgba>>, w: nat, h: nat, pal: seq<Entry>, g: seq<seq<RColor>>, x: nat, y: nat): (g': seq<seq<RColor>>)
    requires IsGrid(samples, w, h) && IsGrid(g, w, h) && x < w && y < h && |pal| > 0
    ensures IsGrid(g', w, h)
  {
    if samples[y][x].a == 0 then g
    else Diffuse(g, w, h, x, y, ErrorOf(g[y][x], Nearest(pal, g[y][x])))
  }

  /** The buffer after the first x pixels of row y, from start. */
  function RowBuffer(samples: seq<seq<Rgba>>, w: nat, h: nat, pal: seq<Entry>, y: nat, x: nat, start: seq<seq<RColor>>): (g: seq<seq<RColor>>)
    requires IsGrid(samples, w, h) && IsGrid(start, w, h) && x <= w && y < h && |pal| > 0
    ensures IsGrid(g, w, h)
  {
    if x == 0 then start
    else PixelStep(samples, w, h, pal, RowBuffer(samples, w, h, pal, y, x - 1, start), x - 1, y)
  }

  /** The buffer after the first y rows. */
  function BufferAfterRows(samples: seq<seq<Rgba>>, w: nat, h: nat, pal: seq<Entry>, y: nat): (g: seq<seq<RColor>>)
    requires IsGrid(samples, w, h) && y <= h && |pal| > 0
    ensures IsGrid(g, w, h)
  {
    if y == 0 then Seed(samples, w, h)
    else RowBuffer(samples, w, h, pal, y - 1, w, BufferAfterRows(samples, w, h, pal, y - 1))
  }

  /** The buffer as the scan reaches pixel (x, y). */
  function BufferBefore(samples: seq<seq<Rgba>>, w: nat, h: nat, pal: seq<Entry>, x: nat, y: nat): (g: seq<seq<RColor>>)
    requires IsGrid(samples, w, h) && x <= w && y < h && |pal| > 0
    ensures IsGrid(g, w, h)
  {
    RowBuffer(samples, w, h, pal, y, x, BufferAfterRows(samples, w, h, pal, y))
  }

  /** The output pixel at (x, y): the colour nearest to the buffer cell as the scan
      reaches it, at full alpha; transparent source pixels stay clear. */
  function DitherAt(samples: seq<seq<Rgba>>, w: nat, h: nat, pal: seq<Entry>, x: nat, y: nat): Rgba
    requires IsGrid(samples, w, h) && x < w && y < h && |pal| > 0
  {
    if samples[y][x].a == 0 then Clear
    else Opaque(Nearest(pal, BufferBefore(samples, w, h, pal, x, y)[y][x]).color)
  }

  // ---------------------------------------------------------------------------
  // Properties

  /** The nearest entry is the first entry, in slot order, at minimal distance. */
  lemma NearestIsFirstMinimum(pal: seq<Entry>, c: RColor)
    requires |pal| > 0
    ensures Nearest(pal, c) == pal[FirstNearestIndex(pal, c)]
    ensures Nearest(pal, c) in pal
    ensures forall e :: e in pal ==> Key(c, Nearest(pal, c)) <= Key(c, e)
  {
    StableSortHead(pal, c);
  }

  /** Clamping keeps every cell inside [0, 255]. */
  lemma DiffuseKeepsRange(g: seq<seq<RColor>>, w: nat, h: nat, x: nat, y: nat, err: RColor)
    requires GridInRange(g, w, h)
    ensures GridInRange(Diffuse(g, w, h, x, y, err), w, h)
  {
  }

  /** Every channel of the buffer stays in [0, 255] along a row... */
  lemma {:induction false} RowBufferInRange(samples: seq<seq<Rgba>>, w: nat, h: nat, pal: seq<Entry>, y: nat, x: nat, start: seq<seq<RColor>>)
    requires IsGrid(samples, w, h) && GridInRange(start, w, h) && x <= w && y < h && |pal| > 0
    ensures GridInRange(RowBuffer(samples, w, h, pal, y, x, start), w, h)
  {
    if x > 0 {
      RowBufferInRange(samples, w, h, pal, y, x - 1, start);
      var g := RowBuffer(samples, w, h, pal, y, x - 1, start);
      DiffuseKeepsRange(g, w, h, x - 1, y, ErrorOf(g[y][x - 1], Nearest(pal, g[y][x - 1])));
    }
  }

  /** ... and after every row, the seed included. */
  lemma {:induction false} BufferInRange(samples: seq<seq<Rgba>>, w: nat, h: nat, pal: seq<Entry>, y: nat)
    requires IsGrid(samples, w, h) && y <= h && |pal| > 0
    ensures GridInRange(BufferAfterRows(samples, w, h, pal, y), w, h)
  {
    if y > 0 {
      BufferInRange(samples, w, h, pal, y - 1);
      RowBufferInRange(samples, w, h, pal, y - 1, w, BufferAfterRows(samples, w, h, pal, y - 1));
    }
  }

  /** Processing (x, y) changes no cell other than (x+1, y), (x-1, y+1), (x, y+1) and
      (x+1, y+1). */
  lemma DiffuseTouchesOnlyNeighbours(g: seq<seq<RColor>>, w: nat, h: nat, x: nat, y: nat, err: RColor, i: nat, j: nat)
    requires IsGrid(g, w, h) && i < w && j < h
    requires !(i == x + 1 && j == y) && !(i == x - 1 && j == y + 1)
    requires !(i == x && j == y + 1) && !(i == x + 1 && j == y + 1)
    ensures Diffuse(g, w, h, x, y, err)[j][i] == g[j][i]
  {
  }

  /** Processing (x, y) leaves every cell up to and including (x, y) in scan order alone. */
  lemma PixelStepKeepsEarlier(samples: seq<seq<Rgba>>, w: nat, h: nat, pal: seq<Entry>, g: seq<seq<RColor>>, x: nat, y: nat, i: nat, j: nat)
    requires IsGrid(samples, w, h) && IsGrid(g, w, h) && x < w && y < h && |pal| > 0
    requires i < w && (j < y || (j == y && i <= x))
    ensures PixelStep(samples, w, h, pal, g, x, y)[j][i] == g[j][i]
  {
    if samples[y][x].a != 0 {
      DiffuseTouchesOnlyNeighbours(g, w, h, x, y, ErrorOf(g[y][x], Nearest(pal, g[y][x])), i, j);
    }
  }

  /** Scanning row y leaves the rows above it alone. */
  lemma {:induction false} RowBufferKeepsRowsAbove(samples: seq<seq<Rgba>>, w: nat, h: nat, pal: seq<Entry>, y: nat, x: nat, start: seq<seq<RColor>>, i: nat, j: nat)
    requires IsGrid(samples, w, h) && IsGrid(start, w, h) && x <= w && y < h && |pal| > 0
    requires i < w && j < y
    ensures RowBuffer(samples, w, h, pal, y, x, start)[j][i] == start[j][i]
  {
    if x > 0 {
      RowBufferKeepsRowsAbove(samples, w, h, pal, y, x - 1, start, i, j);
      PixelStepKeepsEarlier(samples, w, h, pal, RowBuffer(samples, w, h, pal, y, x - 1, start), x - 1, y, i, j);
    }
  }

  /** Within row y, cell i keeps the value it had when the scan reached it. */
  lemma {:induction false} RowBufferFreezesCell(samples: seq<seq<Rgba>>, w: nat, h: nat, pal: seq<Entry>, y: nat, x: nat, start: seq<seq<RColor>>, i: nat)
    requires IsGrid(samples, w, h) && IsGrid(start, w, h) && i <= x <= w && i < w && y < h && |pal| > 0
    ensures RowBuffer(samples, w, h, pal, y, x, start)[y][i] == RowBuffer(samples, w, h, pal, y, i, start)[y][i]
  {
    if x > i {
      RowBufferFreezesCell(samples, w, h, pal, y, x - 1, start, i);
      PixelStepKeepsEarlier(samples, w, h, pal, RowBuffer(samples, w, h, pal, y, x - 1, start), x - 1, y, i, y);
    }
  }

  /** Rows below j leave row j as it was when row j was finished. */
  lemma {:induction false} RowFrozen(samples: seq<seq<Rgba>>, w: nat, h: nat, pal: seq<Entry>, i: nat, j: nat, y: nat)
    requires IsGrid(samples, w, h) && |pal| > 0 && i < w && j < y <= h
    ensures BufferAfterRows(samples, w, h, pal, y)[j][i] == BufferAfterRows(samples, w, h, pal, j + 1)[j][i]
  {
    if y > j + 1 {
      RowFrozen(samples, w, h, pal, i, j, y - 1);
      RowBufferKeepsRowsAbove(samples, w, h, pal, y - 1, w, BufferAfterRows(samples, w, h, pal, y - 1), i, j);
    }
  }

  /** A cell never changes once the scan has reached it: its value when processed is its
      value in the final buffer. */
  lemma CellFrozen(samples: seq<seq<Rgba>>, w: nat, h: nat, pal: seq<Entry>, i: nat, j: nat)
    requires IsGrid(samples, w, h) && |pal| > 0 && i < w && j < h
    ensures BufferAfterRows(samples, w, h, pal, h)[j][i] == BufferBefore(samples, w, h, pal, i, j)[j][i]
  {
    RowFrozen(samples, w, h, pal, i, j, h);
    RowBufferFreezesCell(samples, w, h, pal, j, w, BufferAfterRows(samples, w, h, pal, j), i);
  }

  /** The output pixel is the entry nearest to the final buffer cell, at alpha 255. */
  lemma DitherAtFinalBuffer(samples: seq<seq<Rgba>>, w: nat, h: nat, pal: seq<Entry>, x: nat, y: nat)
    requires IsGrid(samples, w, h) && x < w && y < h && |pal| > 0
    requires samples[y][x].a != 0
    ensures DitherAt(samples, w, h, pal, x, y) == Opaque(Nearest(pal, BufferAfterRows(samples, w, h, pal, h)[y][x]).color)
    ensures DitherAt(samples, w, h, pal, x, y).a == 255
  {
    CellFrozen(samples, w, h, pal, x, y);
  }

  // ---------------------------------------------------------------------------
  // The buffer and the loop

  /** The array2 buffer holds the grid g, row index first. */
  ghost predicate Holds(buf: array2<RColor>, g: seq<seq<RColor>>)
    reads buf
  {
    IsGrid(g, buf.Length1, buf.Length0) &&
    forall y, x :: 0 <= y < buf.Length0 && 0 <= x < buf.Length1 ==> buf[y, x] == g[y][x]
  }

  /** The seeding loops of window.ditherBuffer. */
  method SeedBuffer(src: Image, w: nat, h: nat) returns (buf: array2<RColor>)
    requires src.Valid() && src.width >= 1 && src.height >= 1
    ensures fresh(buf) && buf.Length0 == h && buf.Length1 == w
    ensures Holds(buf, Seed(Resampled(src, w, h), w, h))
  {
    ghost var samples := Resampled(src, w, h);
    buf := new RColor[h, w];
    var row := 0;
    while row < h
      invariant 0 <= row <= h
      invariant forall y, x :: 0 <= y < row && 0 <= x < w ==> buf[y, x] == PixelToReal(samples[y][x])
    {
      var col := 0;
      while col < w
        invariant 0 <= col <= w
        invariant forall y, x :: 0 <= y < row && 0 <= x < w ==> buf[y, x] == PixelToReal(samples[y][x])
        invariant forall x :: 0 <= x < col ==> buf[row, x] == PixelToReal(samples[row][x])
      {
        var orig := src.GetPixelColor(SourceCoord(col, src.width, w), SourceCoord(row, src.height, h));
        buf[row, col] := PixelToReal(orig);
        col := col + 1;
      }
      row := row + 1;
    }
  }

  /** distributeError(dx, dy, factor) on the buffer. */
  method DistributeError(buf: array2<RColor>, x: nat, y: nat, dx: int, dy: int, err: RColor, factor: real,
                         ghost g: seq<seq<RColor>>)
    requires Holds(buf, g)
    modifies buf
    ensures Holds(buf, Distribute(g, buf.Length1, buf.Length0, x + dx, y + dy, err, factor))
  {
    var nx, ny := x + dx, y + dy;
    if nx >= 0 && nx < buf.Length1 && ny >= 0 && ny < buf.Length0 {
      var nbuf := buf[ny, nx];
      buf[ny, nx] := Spread(nbuf, err, factor);
      ghost var g' := Distribute(g, buf.Length1, buf.Length0, nx, ny, err, factor);
      assert nbuf == g[ny][nx];
      assert g'[ny][nx] == buf[ny, nx];
      forall y', x' | 0 <= y' < buf.Length0 && 0 <= x' < buf.Length1
        ensures buf[y', x'] == g'[y'][x']
      {
        if y' != ny || x' != nx {
          assert buf[y', x'] == old(buf[y', x']);
        }
      }
    }
  }

  /** The four distributeError calls of one pixel, in the source's order. */
  method DiffuseError(buf: array2<RColor>, x: nat, y: nat, err: RColor, ghost g: seq<seq<RColor>>)
    requires Holds(buf, g)
    modifies buf
    ensures Holds(buf, Diffuse(g, buf.Length1, buf.Length0, x, y, err))
  {
    ghost var w, h := buf.Length1, buf.Length0;
    ghost var g1 := Distribute(g, w, h, x + 1, y, err, 7.0 / 16.0);
    ghost var g2 := Distribute(g1, w, h, x - 1, y + 1, err, 3.0 / 16.0);
    ghost var g3 := Distribute(g2, w, h, x, y + 1, err, 5.0 / 16.0);
    DistributeError(buf, x, y, 1, 0, err, 7.0 / 16.0, g);
    DistributeError(buf, x, y, -1, 1, err, 3.0 / 16.0, g1);
    DistributeError(buf, x, y, 0, 1, err, 5.0 / 16.0, g2);
    DistributeError(buf, x, y, 1, 1, err, 1.0 / 16.0, g3);
  }

  /** arcadeColors.map(...).sort(...)[0]: sorts a copy, so the palette keeps its order. */
  method NearestOf(palette: array<Entry>, c: RColor) returns (e: Entry)
    requires palette.Length > 0
    ensures e == Nearest(palette[..], c)
  {
    var copy := new Entry[palette.Length](i reads palette => if 0 <= i < palette.Length then palette[i] else palette[0]);
    assert copy[..] == palette[..];
    SortByDistance(copy, c);
    StableSortPermutes(palette[..], c);
    e := copy[0];
  }

  /** The opaque case of one pixel: pick the nearest colour for the buffer cell, write
      it, and spread the error. */
  method DitherOpaque(out: Image, palette: array<Entry>, buf: array2<RColor>, x: nat, y: nat,
                      ghost g: seq<seq<RColor>>, ghost pal: seq<Entry>)
    requires out.Valid() && palette.Length > 0
    requires buf.Length0 == out.height && buf.Length1 == out.width && x < out.width && y < out.height
    requires Holds(buf, g) && palette[..] == pal
    modifies out.data, buf
    ensures Holds(buf, Diffuse(g, out.width, out.height, x, y, ErrorOf(g[y][x], Nearest(pal, g[y][x]))))
    ensures out.GetPixelColor(x, y) == Opaque(Nearest(pal, g[y][x]).color)
    ensures forall x': nat, y': nat :: (x' < out.width && y' < out.height && (x' != x || y' != y)
      ==> out.GetPixelColor(x', y') == old(out.GetPixelColor(x', y')))
  {
    var bufColor := buf[y, x];
    var nearest := NearestOf(palette, bufColor);
    out.SetPixelColor(x, y, nearest.color.r, nearest.color.g, nearest.color.b, 255);
    var err := RColor(bufColor.r - nearest.color.r as real, bufColor.g - nearest.color.g as real,
                      bufColor.b - nearest.color.b as real);
    assert err == ErrorOf(g[y][x], Nearest(pal, g[y][x]));
    DiffuseError(buf, x, y, err, g);
  }

  /** One pixel of the dot-matrix branch. */
  method DitherPixel(src: Image, out: Image, palette: array<Entry>, buf: array2<RColor>, x: nat, y: nat,
                     ghost samples: seq<seq<Rgba>>, ghost pal: seq<Entry>)
    requires src.Valid() && out.Valid() && src.width >= 1 && src.height >= 1 && palette.Length > 0
    requires out.data != src.data && palette[..] == pal
    requires samples == Resampled(src, out.width, out.height)
    requires buf.Length0 == out.height && buf.Length1 == out.width
    requires x < out.width && y < out.height
    requires Holds(buf, BufferBefore(samples, out.width, out.height, pal, x, y))
    requires out.GetPixelColor(x, y) == Clear
    modifies out.data, buf
    ensures Holds(buf, BufferBefore(samples, out.width, out.height, pal, x + 1, y))
    ensures out.GetPixelColor(x, y) == DitherAt(samples, out.width, out.height, pal, x, y)
    ensures forall x': nat, y': nat :: (x' < out.width && y' < out.height && (x' != x || y' != y)
      ==> out.GetPixelColor(x', y') == old(out.GetPixelColor(x', y')))
  {
    var w, h := out.width, out.height;
    ghost var g := BufferBefore(samples, w, h, pal, x, y);
    var px := src.GetPixelColor(SourceCoord(x, src.width, w), SourceCoord(y, src.height, h));
    ResampledAt(src, w, h, x, y);
    if px.a != 0 {
      DitherOpaque(out, palette, buf, x, y, g, pal);
    }
  }

  /** Row y of the dot-matrix branch. */
  method DitherRow(src: Image, out: Image, palette: array<Entry>, buf: array2<RColor>, y: nat,
                   ghost samples: seq<seq<Rgba>>, ghost pal: seq<Entry>)
    requires src.Valid() && out.Valid() && src.width >= 1 && src.height >= 1 && palette.Length > 0
    requires out.data != src.data && palette[..] == pal
    requires samples == Resampled(src, out.width, out.height)
    requires buf.Length0 == out.height && buf.Length1 == out.width
    requires y < out.height
    requires Holds(buf, BufferAfterRows(samples, out.width, out.height, pal, y))
    requires forall x': nat, y': nat :: x' < out.width && y' < out.height ==>
      out.GetPixelColor(x', y') == if y' < y then DitherAt(samples, out.width, out.height, pal, x', y') else Clear
    modifies out.data, buf
    ensures Holds(buf, BufferAfterRows(samples, out.width, out.height, pal, y + 1))
    ensures forall x': nat, y': nat :: x' < out.width && y' < out.height ==>
      out.GetPixelColor(x', y') == if y' <= y then DitherAt(samples, out.width, out.height, pal, x', y') else Clear
  {
    var w, h := out.width, out.height;
    var x := 0;
    while x < w
      invariant 0 <= x <= w
      invariant Holds(buf, BufferBefore(samples, w, h, pal, x, y))
      invariant forall x': nat, y': nat :: x' < w && y' < h && y' != y ==>
        out.GetPixelColor(x', y') == old(out.GetPixelColor(x', y'))
      invariant forall x': nat :: x' < w ==>
        out.GetPixelColor(x', y) == if x' < x then DitherAt(samples, w, h, pal, x', y) else Clear
    {
      DitherPixel(src, out, palette, buf, x, y, samples, pal);
      x := x + 1;
    }
  }

  /** The row loop of the dot-matrix branch, over a freshly seeded buffer. */
  method DitherRows(src: Image, out: Image, palette: array<Entry>, buf: array2<RColor>,
                    ghost samples: seq<seq<Rgba>>, ghost pal: seq<Entry>)
    requires src.Valid() && out.Valid() && src.width >= 1 && src.height >= 1 && palette.Length > 0
    requires out.data != src.data && palette[..] == pal
    requires samples == Resampled(src, out.width, out.height)
    requires buf.Length0 == out.height && buf.Length1 == out.width
    requires Holds(buf, BufferAfterRows(samples, out.width, out.height, pal, 0))
    requires forall x: nat, y: nat :: x < out.width && y < out.height ==> out.GetPixelColor(x, y) == Clear
    modifies out.data, buf
    ensures Holds(buf, BufferAfterRows(samples, out.width, out.height, pal, out.height))
    ensures forall x: nat, y: nat :: x < out.width && y < out.height ==>
      out.GetPixelColor(x, y) == DitherAt(samples, out.width, out.height, pal, x, y)
  {
    var w, h := out.width, out.height;
    var y := 0;
    while y < h
      invariant 0 <= y <= h
      invariant Holds(buf, BufferAfterRows(samples, w, h, pal, y))
      invariant forall x': nat, y': nat :: x' < w && y' < h ==>
        out.GetPixelColor(x', y') == if y' < y then DitherAt(samples, w, h, pal, x', y') else Clear
    {
      DitherRow(src, out, palette, buf, y, samples, pal);
      y := y + 1;
    }
  }

  /** The dot-matrix branch of convert: seeds the buffer, then dithers row by row. The
      buffer is returned, as window.ditherBuffer keeps it. */
  method DitherImage(src: Image, out: Image, palette: array<Entry>) returns (buf: array2<RColor>)
    requires src.Valid() && out.Valid() && src.width >= 1 && src.height >= 1 && palette.Length > 0
    requires out.data != src.data
    requires forall x: nat, y: nat :: x < out.width && y < out.height ==> out.GetPixelColor(x, y) == Clear
    modifies out.data
    ensures fresh(buf)
    ensures Holds(buf, BufferAfterRows(Resampled(src, out.width, out.height), out.width, out.height, palette[..],
                                       out.height))
    ensures forall x: nat, y: nat :: x < out.width && y < out.height ==>
      out.GetPixelColor(x, y) == DitherAt(Resampled(src, out.width, out.height), out.width, out.height, palette[..], x, y)
  {
    buf := SeedBuffer(src, out.width, out.height);
    DitherRows(src, out, palette, buf, Resampled(src, out.width, out.height), palette[..]);
  }
}
