/** Row-major rasters as values: a grid is h rows of w cells, row y holding the pixels
    the convert loops visit for that y. */
module Grid {

  ghost predicate IsGrid<T>(g: seq<seq<T>>, w: nat, h: nat) {
    |g| == h && forall y :: 0 <= y < h ==> |g[y]| == w
  }

  lemma MulMono(a: nat, b: nat, w: nat)
    requires a <= b
    ensures a * w <= b * w
  {
  }

  lemma DivModUnique(k: nat, w: nat, q: nat, r: nat)
    requires r < w && k == q * w + r
    ensures k / w == q && k % w == r
  {
    var q', r' := k / w, k % w;
    assert k == q' * w + r';
    if q' < q {
      MulMono(q' + 1, q, w);
    } else if q' > q {
      MulMono(q + 1, q', w);
    }
  }
}
