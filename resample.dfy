/** The nearest-neighbour resampling of convert: target pixel (x, y) reads source pixel
    (clamp(floor(x * Ws / Wt)), clamp(floor(y * Hs / Ht))). */
module Resample {
  import opened Colour
  import opened Grid
  import opened Raster

  /** Math.max(0, Math.min(Math.floor(t * (ws / wt)), ws - 1)), with the scale taken
      as an exact rational, so the floor is an integer division. */
  function SourceCoord(t: nat, ws: nat, wt: nat): (s: nat)
    requires t < wt && ws >= 1
    ensures s < ws
  {
    var f := t * ws / wt;
    if f < 0 then 0 else if f < ws - 1 then f else ws - 1
  }

  /** For a coordinate inside the target the clamp never bites: the sample is the plain
      floor of t * ws / wt. */
  lemma SourceCoordUnclamped(t: nat, ws: nat, wt: nat)
    requires t < wt && ws >= 1
    ensures SourceCoord(t, ws, wt) == t * ws / wt
  {
    MulMono(t + 1, wt, ws);
    assert (t + 1) * ws == t * ws + ws;
    DivLess(t * ws, ws, wt);
  }

  lemma DivLess(a: nat, ws: nat, wt: nat)
    requires wt >= 1 && ws >= 1 && a + ws <= wt * ws
    ensures a / wt < ws
  {
    if a / wt >= ws {
      MulMono(ws, a / wt, wt);
    }
  }

  /** With equal sizes the mapping is the identity. */
  lemma SourceCoordIdentity(t: nat, w: nat)
    requires t < w
    ensures SourceCoord(t, w, w) == t
  {
    DivModUnique(t * w, w, t, 0);
  }

  /** Sampling keeps the order of coordinates. */
  lemma SourceCoordMonotone(t: nat, t': nat, ws: nat, wt: nat)
    requires t <= t' < wt && ws >= 1
    ensures SourceCoord(t, ws, wt) <= SourceCoord(t', ws, wt)
  {
    MulMono(t, t', ws);
    DivMono(t * ws, t' * ws, wt);
  }

  lemma DivMono(a: nat, b: nat, d: nat)
    requires a <= b && d >= 1
    ensures a / d <= b / d
  {
    if a / d > b / d {
      MulMono(b / d + 1, a / d, d);
    }
  }

  /** The grid of source pixels convert reads for a wt x ht target. */
  function Resampled(src: Image, wt: nat, ht: nat): (g: seq<seq<Rgba>>)
    requires src.Valid() && src.width >= 1 && src.height >= 1
    reads src.data
    ensures IsGrid(g, wt, ht)
  {
    seq(ht, y requires 0 <= y < ht reads src.data =>
      seq(wt, x requires 0 <= x < wt reads src.data =>
        src.GetPixelColor(SourceCoord(x, src.width, wt), SourceCoord(y, src.height, ht))))
  }

  /** Target pixel (x, y) reads the source at the clamped scaled coordinates. */
  lemma ResampledAt(src: Image, wt: nat, ht: nat, x: nat, y: nat)
    requires src.Valid() && src.width >= 1 && src.height >= 1 && x < wt && y < ht
    ensures Resampled(src, wt, ht)[y][x] == src.GetPixelColor(SourceCoord(x, src.width, wt), SourceCoord(y, src.height, ht))
  {
  }

  /** Resampling to the source's own size gives the source raster back. */
  lemma {:induction false} ResampledIdentity(src: Image)
    requires src.Valid() && src.width >= 1 && src.height >= 1
    ensures Resampled(src, src.width, src.height) == Pixels(src)
  {
    var g, p := Resampled(src, src.width, src.height), Pixels(src);
    forall y | 0 <= y < src.height
      ensures g[y] == p[y]
    {
      forall x | 0 <= x < src.width
        ensures g[y][x] == p[y][x]
      {
        SourceCoordIdentity(x, src.width);
        SourceCoordIdentity(y, src.height);
      }
    }
  }

  /** The same sampling applied to a raster held as a value. */
  function ResampleGrid(g: seq<seq<Rgba>>, ws: nat, hs: nat, wt: nat, ht: nat): (r: seq<seq<Rgba>>)
    requires IsGrid(g, ws, hs) && ws >= 1 && hs >= 1
    ensures IsGrid(r, wt, ht)
  {
    seq(ht, y requires 0 <= y < ht =>
      seq(wt, x requires 0 <= x < wt => g[SourceCoord(y, hs, ht)][SourceCoord(x, ws, wt)]))
  }

  /** Sampling an image reads the same pixels as sampling its raster. */
  lemma ResampledOfPixels(src: Image, wt: nat, ht: nat)
    requires src.Valid() && src.width >= 1 && src.height >= 1
    ensures Resampled(src, wt, ht) == ResampleGrid(Pixels(src), src.width, src.height, wt, ht)
  {
    var a, b := Resampled(src, wt, ht), ResampleGrid(Pixels(src), src.width, src.height, wt, ht);
    forall y | 0 <= y < ht
      ensures a[y] == b[y]
    {
      forall x | 0 <= x < wt
        ensures a[y][x] == b[y][x]
      {
      }
    }
  }
}
