/** The sprite encoder at the end of convert: every output pixel becomes one hex digit
    of a MakeCode `img` literal, looked up by exact colour in a table folded from
    arcadeColors, with a nearest-colour fallback that sorts arcadeColors in place. */
module Encode {
  import opened Colour
  import opened Grid
  import opened Palette
  import opened Raster

  /** paletteLookup as the source builds it, keyed by rgbToHex strings. */
  type HexTable = map<string, char>

  /** The same table keyed by the colour whose hex string the source uses. */
  type Lookup = map<Rgb, char>

  /** arcadeColors.reduce: each entry, in array order, writes its index under its hex
      string, so a later entry of the same colour overwrites an earlier one. */
  function HexFold(p: seq<Entry>): HexTable
    decreases |p|
  {
    if |p| == 0 then map[]
    else HexFold(p[..|p| - 1])[RgbToHexOf(p[|p| - 1].color) := p[|p| - 1].index]
  }

  /** paletteLookup: the fold, then "#000000" forced to '0' twice, once written out and
      once through hexToRgb("#00000000"). */
  function HexLookup(p: seq<Entry>): HexTable
  {
    var t := HexToRgb(TransparentHex);
    HexFold(p)[RgbToHex(0, 0, 0) := '0'][RgbToHex(t.r, t.g, t.b) := '0']
  }

  /** The fold keyed by colour. */
  function Fold(p: seq<Entry>): Lookup
    decreases |p|
  {
    if |p| == 0 then map[]
    else Fold(p[..|p| - 1])[p[|p| - 1].color := p[|p| - 1].index]
  }

  /** The lookup keyed by colour: black is forced to '0'. */
  function BuildLookup(p: seq<Entry>): Lookup
  {
    Fold(p)[Rgb(0, 0, 0) := '0']
  }

  lemma {:induction false} FoldAgrees(p: seq<Entry>, c: Rgb)
    ensures (RgbToHexOf(c) in HexFold(p)) == (c in Fold(p))
    ensures c in Fold(p) ==> HexFold(p)[RgbToHexOf(c)] == Fold(p)[c]
    decreases |p|
  {
    if |p| > 0 {
      var l := p[|p| - 1];
      FoldAgrees(p[..|p| - 1], c);
      if l.color != c && RgbToHexOf(l.color) == RgbToHexOf(c) {
        RgbToHexInjective(l.color, c);
      }
    }
  }

  /** Since rgbToHex is injective on byte triples, looking a pixel's hex string up in
      paletteLookup is looking its colour up in the colour-keyed table. */
  lemma LookupAgrees(p: seq<Entry>, c: Rgb)
    ensures (RgbToHexOf(c) in HexLookup(p)) == (c in BuildLookup(p))
    ensures c in BuildLookup(p) ==> HexLookup(p)[RgbToHexOf(c)] == BuildLookup(p)[c]
  {
    FoldAgrees(p, c);
    assert HexToRgb(TransparentHex) == Rgb(0, 0, 0);
    if c != Rgb(0, 0, 0) && RgbToHexOf(c) == RgbToHex(0, 0, 0) {
      RgbToHexInjective(c, Rgb(0, 0, 0));
    }
  }

  /** String.prototype.toLowerCase on one character. */
  function ToLower(c: char): char
  {
    if 'A' <= c <= 'Z' then (c as int + 32) as char else c
  }

  /** The last step of the inner loop: lower case, and '0' (transparent) becomes 'f'. */
  function Remap(c: char): char
  {
    if ToLower(c) == '0' then 'f' else ToLower(c)
  }

  /** An opaque pixel whose exact colour is missing from the lookup: the encoder falls
      back to sorting arcadeColors in place. */
  predicate Misses(m: Lookup, px: Rgba)
  {
    px.a > 0 && Rgb(px.r, px.g, px.b) !in m
  }

  /** The digit of one pixel, given the lookup and the current order p of arcadeColors. */
  function EncodeChar(m: Lookup, p: seq<Entry>, px: Rgba): char
    requires |p| > 0
  {
    var c := Rgb(px.r, px.g, px.b);
    if px.a == 0 then Remap('0')
    else if c in m then Remap(m[c])
    else
      StableSortPermutes(p, PixelToReal(px));
      Remap(StableSort(p, PixelToReal(px))[0].index)
  }

  /** The order of arcadeColors after encoding one pixel. */
  function AfterPixel(m: Lookup, p: seq<Entry>, px: Rgba): (q: seq<Entry>)
    ensures |q| == |p|
  {
    StableSortPermutes(p, PixelToReal(px));
    if Misses(m, px) then StableSort(p, PixelToReal(px)) else p
  }

  /** The order of arcadeColors after the first x pixels of row y, from p. */
  function RowPalette(m: Lookup, g: seq<seq<Rgba>>, w: nat, h: nat, y: nat, x: nat, p: seq<Entry>): (q: seq<Entry>)
    requires IsGrid(g, w, h) && y < h && x <= w
    ensures |q| == |p|
  {
    if x == 0 then p else AfterPixel(m, RowPalette(m, g, w, h, y, x - 1, p), g[y][x - 1])
  }

  /** rowString after the first x pixels of row y. */
  function RowString(m: Lookup, g: seq<seq<Rgba>>, w: nat, h: nat, y: nat, x: nat, p: seq<Entry>): (s: string)
    requires IsGrid(g, w, h) && y < h && x <= w && |p| > 0
    ensures |s| == x
  {
    if x == 0 then []
    else RowString(m, g, w, h, y, x - 1, p) + [EncodeChar(m, RowPalette(m, g, w, h, y, x - 1, p), g[y][x - 1])]
  }

  /** The order of arcadeColors after the first y rows. */
  function PaletteAfterRows(m: Lookup, g: seq<seq<Rgba>>, w: nat, h: nat, p0: seq<Entry>, y: nat): (q: seq<Entry>)
    requires IsGrid(g, w, h) && y <= h
    ensures |q| == |p0|
  {
    if y == 0 then p0 else RowPalette(m, g, w, h, y - 1, w, PaletteAfterRows(m, g, w, h, p0, y - 1))
  }

  /** The rowStrings of the first y rows. */
  function RowStrings(m: Lookup, g: seq<seq<Rgba>>, w: nat, h: nat, p0: seq<Entry>, y: nat): (rows: seq<string>)
    requires IsGrid(g, w, h) && y <= h && |p0| > 0
    ensures |rows| == y
  {
    if y == 0 then []
    else RowStrings(m, g, w, h, p0, y - 1) + [RowString(m, g, w, h, y - 1, w, PaletteAfterRows(m, g, w, h, p0, y - 1))]
  }

  /** makeCodeString: each row followed by a line feed. */
  function Lines(rows: seq<string>): string
  {
    if |rows| == 0 then "" else Lines(rows[..|rows| - 1]) + rows[|rows| - 1] + "\n"
  }

  /** The template literal `img\`\n${makeCodeString}\``. */
  function Literal(rows: seq<string>): string
  {
    "img`\n" + Lines(rows) + "`"
  }

  /** spriteCode for the output raster g and the order p0 of arcadeColors when the
      lookup is built. */
  function Sprite(g: seq<seq<Rgba>>, w: nat, h: nat, p0: seq<Entry>): string
    requires IsGrid(g, w, h) && |p0| > 0
  {
    Literal(RowStrings(BuildLookup(p0), g, w, h, p0, h))
  }

  // ---------------------------------------------------------------------------
  // Properties

  lemma AfterPixelReordered(m: Lookup, p: seq<Entry>, px: Rgba)
    ensures Reordered(p, AfterPixel(m, p, px))
  {
    StableSortReordered(p, PixelToReal(px));
  }

  lemma {:induction false} RowPaletteReordered(m: Lookup, g: seq<seq<Rgba>>, w: nat, h: nat, y: nat, x: nat, p: seq<Entry>)
    requires IsGrid(g, w, h) && y < h && x <= w
    ensures Reordered(p, RowPalette(m, g, w, h, y, x, p))
  {
    if x > 0 {
      RowPaletteReordered(m, g, w, h, y, x - 1, p);
      AfterPixelReordered(m, RowPalette(m, g, w, h, y, x - 1, p), g[y][x - 1]);
    }
  }

  /** Whatever the fallback sorts, arcadeColors stays a reordering of the order it had
      when the lookup was built. */
  lemma {:induction false} PaletteAfterRowsReordered(m: Lookup, g: seq<seq<Rgba>>, w: nat, h: nat, p0: seq<Entry>, y: nat)
    requires IsGrid(g, w, h) && y <= h
    ensures Reordered(p0, PaletteAfterRows(m, g, w, h, p0, y))
  {
    if y > 0 {
      PaletteAfterRowsReordered(m, g, w, h, p0, y - 1);
      RowPaletteReordered(m, g, w, h, y - 1, w, PaletteAfterRows(m, g, w, h, p0, y - 1));
    }
  }

  /** Every palette colour is a key of the fold. */
  lemma {:induction false} FoldHasColour(p: seq<Entry>, i: nat)
    requires i < |p|
    ensures p[i].color in Fold(p)
    decreases |p|
  {
    if i < |p| - 1 {
      FoldHasColour(p[..|p| - 1], i);
    }
  }

  /** Under a colour present in the palette the fold holds the index of the last entry
      of that colour: the later slot overwrites the earlier one. */
  lemma {:induction false} FoldLast(p: seq<Entry>, c: Rgb)
    requires |SameColour(p, c)| > 0
    ensures c in Fold(p)
    ensures Fold(p)[c] == SameColour(p, c)[|SameColour(p, c)| - 1].index
    decreases |p|
  {
    var p', l := p[..|p| - 1], p[|p| - 1];
    if l.color != c {
      FoldLast(p', c);
    }
  }

  /** Every index is a lower-case hex digit. */
  ghost predicate DigitIndices(p: seq<Entry>)
  {
    forall i :: 0 <= i < |p| ==> IsLowerHexDigit(p[i].index)
  }

  lemma {:induction false} FoldValues(p: seq<Entry>, k: Rgb)
    requires DigitIndices(p) && k in Fold(p)
    ensures IsLowerHexDigit(Fold(p)[k])
    decreases |p|
  {
    var p' := p[..|p| - 1];
    if k != p[|p| - 1].color {
      assert DigitIndices(p') by {
        forall i | 0 <= i < |p'|
          ensures IsLowerHexDigit(p'[i].index)
        {
          assert p'[i] == p[i];
        }
      }
      FoldValues(p', k);
    }
  }

  /** Every pixel encodes as one of the fifteen digits 1..9, a..f: transparent pixels
      and black ones as 'f', and a missed colour as the index of the entry the fallback
      sort puts first. */
  lemma EncodeCharDigit(p0: seq<Entry>, p: seq<Entry>, px: Rgba)
    requires |p0| > 0 && DigitIndices(p0) && Reordered(p0, p)
    ensures var ch := EncodeChar(BuildLookup(p0), p, px);
      && IsLowerHexDigit(ch) && ch != '0'
      && (px.a == 0 ==> ch == 'f')
      && (Rgb(px.r, px.g, px.b) == Rgb(0, 0, 0) ==> ch == 'f')
  {
    var m := BuildLookup(p0);
    var c := Rgb(px.r, px.g, px.b);
    if px.a != 0 {
      if c in m {
        if c != Rgb(0, 0, 0) {
          FoldValues(p0, c);
        }
      } else {
        var t := PixelToReal(px);
        StableSortPermutes(p, t);
        var e := StableSort(p, t)[0];
        assert e in multiset(StableSort(p, t));
        assert e in multiset(p0);
        var i :| 0 <= i < |p0| && p0[i] == e;
      }
    }
  }

  /** A colour that several slots share encodes as the digit of the highest such slot,
      whatever order earlier sorts left arcadeColors in; reading that digit back through
      arcadeColors gives the pixel's colour. Black is the exception ('f'). */
  lemma HighestSlotWins(slots: seq<string>, p: seq<Entry>, q: seq<Entry>, px: Rgba, i: nat)
    requires ValidSlots(slots) && Reordered(ArcadeColors(slots), p) && |q| > 0
    requires px.a > 0 && Rgb(px.r, px.g, px.b) != Rgb(0, 0, 0)
    requires i < 16 && ArcadeColors(slots)[i].color == Rgb(px.r, px.g, px.b)
    requires forall j :: i < j < 16 ==> ArcadeColors(slots)[j].color != Rgb(px.r, px.g, px.b)
    ensures EncodeChar(BuildLookup(p), q, px) == HexDigit(i)
    ensures ArcadeColors(slots)[HexValue(EncodeChar(BuildLookup(p), q, px))].color == Rgb(px.r, px.g, px.b)
  {
    var a := ArcadeColors(slots);
    var c := Rgb(px.r, px.g, px.b);
    ArcadeColorsSlots(slots);
    LastOfColour(a, c, i);
    assert SameColour(p, c) == SameColour(a, c);
    FoldLast(p, c);
  }

  /** Each opaque pixel of g has the colour of an entry of p. */
  ghost predicate PaletteColoured(g: seq<seq<Rgba>>, w: nat, h: nat, p: seq<Entry>)
    requires IsGrid(g, w, h)
  {
    forall y, x :: 0 <= y < h && 0 <= x < w && g[y][x].a > 0 ==>
      exists e :: e in p && Rgb(g[y][x].r, g[y][x].g, g[y][x].b) == e.color
  }

  /** On a raster drawn from arcadeColors the lookup never misses, so the fallback never
      sorts and the order of arcadeColors survives the encoder. */
  lemma {:induction false} NoFallbackRow(g: seq<seq<Rgba>>, w: nat, h: nat, p0: seq<Entry>, p: seq<Entry>, y: nat, x: nat)
    requires IsGrid(g, w, h) && y < h && x <= w && PaletteColoured(g, w, h, p0) && Reordered(p0, p)
    ensures RowPalette(BuildLookup(p0), g, w, h, y, x, p) == p
  {
    if x > 0 {
      NoFallbackRow(g, w, h, p0, p, y, x - 1);
      var px := g[y][x - 1];
      if px.a > 0 {
        var e :| e in p0 && Rgb(px.r, px.g, px.b) == e.color;
        var i :| 0 <= i < |p0| && p0[i] == e;
        FoldHasColour(p0, i);
      }
    }
  }

  lemma {:induction false} NoFallback(g: seq<seq<Rgba>>, w: nat, h: nat, p0: seq<Entry>, y: nat)
    requires IsGrid(g, w, h) && y <= h && PaletteColoured(g, w, h, p0)
    ensures PaletteAfterRows(BuildLookup(p0), g, w, h, p0, y) == p0
  {
    if y > 0 {
      NoFallback(g, w, h, p0, y - 1);
      NoFallbackRow(g, w, h, p0, p0, y - 1, w);
    }
  }

  /** Character i of rowString is the digit of pixel i. */
  lemma {:induction false} RowStringAt(m: Lookup, g: seq<seq<Rgba>>, w: nat, h: nat, y: nat, x: nat, p: seq<Entry>, i: nat)
    requires IsGrid(g, w, h) && y < h && i < x <= w && |p| > 0
    ensures RowString(m, g, w, h, y, x, p)[i] == EncodeChar(m, RowPalette(m, g, w, h, y, i, p), g[y][i])
  {
    if i < x - 1 {
      RowStringAt(m, g, w, h, y, x - 1, p, i);
    }
  }

  lemma {:induction false} LinesLength(rows: seq<string>, w: nat)
    requires forall i :: 0 <= i < |rows| ==> |rows[i]| == w
    ensures |Lines(rows)| == |rows| * (w + 1)
  {
    if |rows| > 0 {
      LinesLength(rows[..|rows| - 1], w);
      assert (|rows| - 1) * (w + 1) + (w + 1) == |rows| * (w + 1);
    }
  }

  /** Row j of makeCodeString occupies w + 1 characters from j * (w + 1): the row's
      characters, then a line feed. */
  lemma {:induction false} LinesChar(rows: seq<string>, w: nat, j: nat, x: nat)
    requires forall i :: 0 <= i < |rows| ==> |rows[i]| == w
    requires j < |rows| && x <= w
    ensures j * (w + 1) + x < |Lines(rows)|
    ensures Lines(rows)[j * (w + 1) + x] == if x < w then rows[j][x] else '\n'
  {
    var prev := rows[..|rows| - 1];
    var last := rows[|rows| - 1] + "\n";
    LinesLength(prev, w);
    LinesLength(rows, w);
    var k := j * (w + 1) + x;
    if j < |rows| - 1 {
      LinesChar(prev, w, j, x);
      assert (Lines(prev) + last)[k] == Lines(prev)[k];
    } else {
      assert k == |Lines(prev)| + x;
      assert (Lines(prev) + last)[k] == last[x];
    }
  }

  lemma {:induction false} RowStringsAt(m: Lookup, g: seq<seq<Rgba>>, w: nat, h: nat, p0: seq<Entry>, y: nat, j: nat)
    requires IsGrid(g, w, h) && j < y <= h && |p0| > 0
    ensures RowStrings(m, g, w, h, p0, y)[j] == RowString(m, g, w, h, j, w, PaletteAfterRows(m, g, w, h, p0, j))
    ensures forall i :: 0 <= i < y ==> |RowStrings(m, g, w, h, p0, y)[i]| == w
  {
    if j < y - 1 {
      RowStringsAt(m, g, w, h, p0, y - 1, j);
    } else if y > 1 {
      RowStringsAt(m, g, w, h, p0, y - 1, 0);
    }
  }

  /** The literal is "img`", a line feed, the rows each followed by a line feed, and a
      closing backquote. */
  lemma LiteralChar(rows: seq<string>, w: nat, j: nat, x: nat)
    requires forall i :: 0 <= i < |rows| ==> |rows[i]| == w
    requires j < |rows| && x <= w
    ensures var s := Literal(rows);
      && |s| == |rows| * (w + 1) + 6
      && s[..5] == "img`\n" && s[|s| - 1] == '`'
      && 5 + j * (w + 1) + x < |s| - 1
      && s[5 + j * (w + 1) + x] == if x < w then rows[j][x] else '\n'
  {
    LinesLength(rows, w);
    LinesChar(rows, w, j, x);
    var k := j * (w + 1) + x;
    assert Literal(rows)[5 + k] == Lines(rows)[k];
  }

  /** The sprite has h rows of exactly w digits each followed by a line feed, between
      "img`\n" and a closing backquote; digit x of row y encodes pixel (x, y). */
  lemma SpriteShape(g: seq<seq<Rgba>>, w: nat, h: nat, p0: seq<Entry>, x: nat, y: nat)
    requires IsGrid(g, w, h) && |p0| > 0 && x < w && y < h
    ensures var s := Sprite(g, w, h, p0);
      var m := BuildLookup(p0);
      && |s| == h * (w + 1) + 6
      && s[..5] == "img`\n" && s[|s| - 1] == '`'
      && 5 + y * (w + 1) + w < |s| - 1
      && s[5 + y * (w + 1) + x] == EncodeChar(m, RowPalette(m, g, w, h, y, x, PaletteAfterRows(m, g, w, h, p0, y)), g[y][x])
      && s[5 + y * (w + 1) + w] == '\n'
  {
    var m := BuildLookup(p0);
    var rows := RowStrings(m, g, w, h, p0, h);
    RowStringsAt(m, g, w, h, p0, h, y);
    LiteralChar(rows, w, y, x);
    LiteralChar(rows, w, y, w);
    RowStringAt(m, g, w, h, y, w, PaletteAfterRows(m, g, w, h, p0, y), x);
  }

  // ---------------------------------------------------------------------------
  // The loops

  /** One pixel of the inner loop: the exact lookup by hex string, or the in-place
      fallback sort. */
  method EncodePixel(palette: array<Entry>, paletteLookup: HexTable, px: Rgba, ghost p0: seq<Entry>)
    returns (colorIndex: char)
    requires palette.Length > 0 && paletteLookup == HexLookup(p0)
    modifies palette
    ensures colorIndex == EncodeChar(BuildLookup(p0), old(palette[..]), px)
    ensures palette[..] == AfterPixel(BuildLookup(p0), old(palette[..]), px)
  {
    var pixelHex := RgbToHex(px.r, px.g, px.b);
    LookupAgrees(p0, Rgb(px.r, px.g, px.b));
    colorIndex := '0';
    if px.a > 0 {
      if pixelHex in paletteLookup {
        colorIndex := paletteLookup[pixelHex];
      } else {
        ghost var p := palette[..];
        SortByDistance(palette, PixelToReal(px));
        StableSortPermutes(p, PixelToReal(px));
        var nearest := palette[0];
        colorIndex := nearest.index;
      }
    }
    colorIndex := if ToLower(colorIndex) == '0' then 'f' else ToLower(colorIndex);
  }

  /** One row: rowString is built digit by digit. */
  method EncodeRow(out: Image, palette: array<Entry>, paletteLookup: HexTable, y: nat,
                   ghost g: seq<seq<Rgba>>, ghost p0: seq<Entry>)
    returns (rowString: string)
    requires out.Valid() && palette.Length > 0 && y < out.height && g == Pixels(out)
    requires paletteLookup == HexLookup(p0)
    modifies palette
    ensures rowString == RowString(BuildLookup(p0), g, out.width, out.height, y, out.width, old(palette[..]))
    ensures palette[..] == RowPalette(BuildLookup(p0), g, out.width, out.height, y, out.width, old(palette[..]))
  {
    ghost var p := palette[..];
    ghost var m := BuildLookup(p0);
    rowString := "";
    var x := 0;
    while x < out.width
      invariant 0 <= x <= out.width
      invariant rowString == RowString(m, g, out.width, out.height, y, x, p)
      invariant palette[..] == RowPalette(m, g, out.width, out.height, y, x, p)
    {
      var pixelColor := out.GetPixelColor(x, y);
      var colorIndex := EncodePixel(palette, paletteLookup, pixelColor, p0);
      rowString := rowString + [colorIndex];
      x := x + 1;
    }
  }

  /** The row loop: makeCodeString gets each rowString and a line feed. */
  method EncodeRows(out: Image, palette: array<Entry>, paletteLookup: HexTable,
                    ghost g: seq<seq<Rgba>>, ghost p0: seq<Entry>)
    returns (makeCodeString: string)
    requires out.Valid() && palette.Length > 0 && g == Pixels(out) && palette[..] == p0
    requires paletteLookup == HexLookup(p0)
    modifies palette
    ensures makeCodeString == Lines(RowStrings(BuildLookup(p0), g, out.width, out.height, p0, out.height))
    ensures palette[..] == PaletteAfterRows(BuildLookup(p0), g, out.width, out.height, p0, out.height)
  {
    ghost var m := BuildLookup(p0);
    makeCodeString := "";
    var y := 0;
    while y < out.height
      invariant 0 <= y <= out.height
      invariant makeCodeString == Lines(RowStrings(m, g, out.width, out.height, p0, y))
      invariant palette[..] == PaletteAfterRows(m, g, out.width, out.height, p0, y)
    {
      var rowString := EncodeRow(out, palette, paletteLookup, y, g, p0);
      ghost var rows := RowStrings(m, g, out.width, out.height, p0, y + 1);
      assert rows[..y] == RowStrings(m, g, out.width, out.height, p0, y);
      makeCodeString := makeCodeString + rowString + "\n";
      y := y + 1;
    }
  }

  /** The encoder: builds the lookup from arcadeColors as it stands, then the literal. */
  method EncodeSprite(out: Image, palette: array<Entry>) returns (spriteCode: string)
    requires out.Valid() && palette.Length > 0
    modifies palette
    ensures spriteCode == Sprite(Pixels(out), out.width, out.height, old(palette[..]))
    ensures palette[..] == PaletteAfterRows(BuildLookup(old(palette[..])), Pixels(out), out.width, out.height,
                                            old(palette[..]), out.height)
  {
    var paletteLookup := HexLookup(palette[..]);
    var makeCodeString := EncodeRows(out, palette, paletteLookup, Pixels(out), palette[..]);
    spriteCode := "img`\n" + makeCodeString + "`";
  }
}
