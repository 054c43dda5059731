/** The 16-entry palette `arcadeColors` that convert builds for every frame, and the
    stable sort by distance that both quantizers rely on. */
module Palette {
  import opened Colour

  /** One element of arcadeColors: its colour and its index string, (index).toString(16). */
  datatype Entry = Entry(color: Rgb, index: char)

  /** Slot 0 of arcadeColors; hexToRgb reads it as black. */
  const TransparentHex: string := "#00000000"

  predicate ValidSlots(slots: seq<string>) {
    |slots| == 15 && forall i :: 0 <= i < 15 ==> IsValidHex(slots[i])
  }

  /** arcadeColors: slot 0 is "#00000000", slots 1..15 are the colour pickers' values,
      each mapped to {color: hexToRgb(value), index: index.toString(16)}. */
  function ArcadeColors(slots: seq<string>): (p: seq<Entry>)
    requires ValidSlots(slots)
    ensures |p| == 16
  {
    var all := [TransparentHex] + slots;
    seq(16, i requires 0 <= i < 16 => Entry(HexToRgb(all[i]), HexDigit(i)))
  }

  /** Slot 0 is black with index '0'; slot i carries the colour of picker i and the digit
      of i, so the sixteen index strings are pairwise different. */
  lemma ArcadeColorsSlots(slots: seq<string>)
    requires ValidSlots(slots)
    ensures ArcadeColors(slots)[0] == Entry(Rgb(0, 0, 0), '0')
    ensures forall i :: 1 <= i < 16 ==> ArcadeColors(slots)[i] == Entry(HexToRgb(slots[i - 1]), HexDigit(i))
    ensures forall i, j :: 0 <= i < j < 16 ==> ArcadeColors(slots)[i].index != ArcadeColors(slots)[j].index
  {
    var p := ArcadeColors(slots);
    forall i, j | 0 <= i < j < 16
      ensures p[i].index != p[j].index
    {
      assert HexValue(p[i].index) == i && HexValue(p[j].index) == j;
    }
  }

  // ---------------------------------------------------------------------------
  // Sorting by distance

  /** The sort key of an entry for a target colour: its squared distance. */
  function Key(target: RColor, e: Entry): real {
    DistanceSq(target, ToReal(e.color))
  }

  ghost predicate Sorted(s: seq<Entry>, target: RColor) {
    forall i, j :: 0 <= i < j < |s| ==> Key(target, s[i]) <= Key(target, s[j])
  }

  /** Inserts x behind every entry of t whose key is not greater than x's. */
  function Insert(t: seq<Entry>, x: Entry, target: RColor): seq<Entry>
    decreases |t|
  {
    if |t| == 0 || Key(target, t[|t| - 1]) <= Key(target, x) then t + [x]
    else Insert(t[..|t| - 1], x, target) + [t[|t| - 1]]
  }

  /** Array.prototype.sort with the comparator (p, q) => dist(p) - dist(q): a stable sort,
      written as insertion sort; the comparator ties entries at equal distance. */
  function StableSort(s: seq<Entry>, target: RColor): seq<Entry>
    decreases |s|
  {
    if |s| == 0 then [] else Insert(StableSort(s[..|s| - 1], target), s[|s| - 1], target)
  }

  /** The entries of s whose colour is c, in the order of s. */
  function SameColour(s: seq<Entry>, c: Rgb): seq<Entry>
    decreases |s|
  {
    if |s| == 0 then []
    else SameColour(s[..|s| - 1], c) + (if s[|s| - 1].color == c then [s[|s| - 1]] else [])
  }

  lemma {:induction false} SameColourAppend(a: seq<Entry>, b: seq<Entry>, c: Rgb)
    ensures SameColour(a + b, c) == SameColour(a, c) + SameColour(b, c)
    decreases |b|
  {
    if |b| == 0 {
      assert a + b == a;
    } else {
      var b' := b[..|b| - 1];
      assert (a + b)[..|a + b| - 1] == a + b';
      SameColourAppend(a, b', c);
    }
  }

  lemma {:induction false} InsertPermutes(t: seq<Entry>, x: Entry, target: RColor)
    ensures |Insert(t, x, target)| == |t| + 1
    ensures multiset(Insert(t, x, target)) == multiset(t) + multiset{x}
    decreases |t|
  {
    if |t| == 0 || Key(target, t[|t| - 1]) <= Key(target, x) {
    } else {
      var t' := t[..|t| - 1];
      InsertPermutes(t', x, target);
      assert t == t' + [t[|t| - 1]];
    }
  }

  lemma {:induction false} InsertSorted(t: seq<Entry>, x: Entry, target: RColor)
    requires Sorted(t, target)
    ensures Sorted(Insert(t, x, target), target)
    decreases |t|
  {
    if |t| == 0 || Key(target, t[|t| - 1]) <= Key(target, x) {
    } else {
      var t', l := t[..|t| - 1], t[|t| - 1];
      InsertSorted(t', x, target);
      InsertPermutes(t', x, target);
      var u := Insert(t', x, target);
      forall i | 0 <= i < |u|
        ensures Key(target, u[i]) <= Key(target, l)
      {
        assert u[i] in multiset(u);
        assert u[i] in multiset(t') || u[i] == x;
      }
    }
  }

  /** The entries of one colour come out of Insert in the order they went in. */
  lemma {:induction false} InsertSameColour(t: seq<Entry>, x: Entry, target: RColor, c: Rgb)
    ensures SameColour(Insert(t, x, target), c) == SameColour(t, c) + SameColour([x], c)
    decreases |t|
  {
    if |t| == 0 || Key(target, t[|t| - 1]) <= Key(target, x) {
      SameColourAppend(t, [x], c);
    } else {
      var t', l := t[..|t| - 1], t[|t| - 1];
      InsertSameColour(t', x, target, c);
      SameColourAppend(Insert(t', x, target), [l], c);
      SameColourAppend(t', [l], c);
      assert t == t' + [l];
      assert [x][..0] == [] && [l][..0] == [];
    }
  }

  /** The sorted palette is a permutation of the palette. */
  lemma {:induction false} StableSortPermutes(s: seq<Entry>, target: RColor)
    ensures |StableSort(s, target)| == |s|
    ensures multiset(StableSort(s, target)) == multiset(s)
    decreases |s|
  {
    if |s| > 0 {
      var s' := s[..|s| - 1];
      StableSortPermutes(s', target);
      InsertPermutes(StableSort(s', target), s[|s| - 1], target);
      assert s == s' + [s[|s| - 1]];
    }
  }

  /** The sorted palette is ordered by distance. */
  lemma {:induction false} StableSortSorted(s: seq<Entry>, target: RColor)
    ensures Sorted(StableSort(s, target), target)
    decreases |s|
  {
    if |s| > 0 {
      StableSortSorted(s[..|s| - 1], target);
      InsertSorted(StableSort(s[..|s| - 1], target), s[|s| - 1], target);
    }
  }

  /** Entries of equal colour have equal keys, so the sort keeps their relative order. */
  lemma {:induction false} StableSortKeepsColourOrder(s: seq<Entry>, target: RColor, c: Rgb)
    ensures SameColour(StableSort(s, target), c) == SameColour(s, c)
    decreases |s|
  {
    if |s| > 0 {
      var s' := s[..|s| - 1];
      StableSortKeepsColourOrder(s', target, c);
      InsertSameColour(StableSort(s', target), s[|s| - 1], target, c);
      assert [s[|s| - 1]][..0] == [];
    }
  }

  /** The entries of s at key k for the target, in the order of s. */
  function SameKey(s: seq<Entry>, target: RColor, k: real): seq<Entry>
    decreases |s|
  {
    if |s| == 0 then []
    else SameKey(s[..|s| - 1], target, k) + (if Key(target, s[|s| - 1]) == k then [s[|s| - 1]] else [])
  }

  lemma {:induction false} SameKeyAppend(a: seq<Entry>, b: seq<Entry>, target: RColor, k: real)
    ensures SameKey(a + b, target, k) == SameKey(a, target, k) + SameKey(b, target, k)
    decreases |b|
  {
    if |b| == 0 {
      assert a + b == a;
    } else {
      var b' := b[..|b| - 1];
      assert (a + b)[..|a + b| - 1] == a + b';
      SameKeyAppend(a, b', target, k);
    }
  }

  /** The entries of one key come out of Insert in the order they went in. */
  lemma {:induction false} InsertSameKey(t: seq<Entry>, x: Entry, target: RColor, k: real)
    ensures SameKey(Insert(t, x, target), target, k) == SameKey(t, target, k) + SameKey([x], target, k)
    decreases |t|
  {
    if |t| == 0 || Key(target, t[|t| - 1]) <= Key(target, x) {
      SameKeyAppend(t, [x], target, k);
    } else {
      var t', l := t[..|t| - 1], t[|t| - 1];
      var u := Insert(t', x, target);
      assert Insert(t, x, target) == u + [l];
      InsertSameKey(t', x, target, k);
      SameKeyAppend(u, [l], target, k);
      SameKeyAppend(t', [l], target, k);
      assert t == t' + [l];
      assert [x][..0] == [] && [l][..0] == [];
      // l is strictly farther than x, so at most one of them has key k
      assert SameKey([x], target, k) == [] || SameKey([l], target, k) == [];
    }
  }

  /** The comparator returns 0 for entries at equal distance, whatever their colours, and
      the sort is stable: entries at any one distance keep their relative order. */
  lemma {:induction false} StableSortKeepsKeyOrder(s: seq<Entry>, target: RColor, k: real)
    ensures SameKey(StableSort(s, target), target, k) == SameKey(s, target, k)
    decreases |s|
  {
    if |s| > 0 {
      var s' := s[..|s| - 1];
      StableSortKeepsKeyOrder(s', target, k);
      InsertSameKey(StableSort(s', target), s[|s| - 1], target, k);
      assert [s[|s| - 1]][..0] == [];
    }
  }

  /** q holds the entries of p, and entries of one colour keep their relative order. */
  ghost predicate Reordered(p: seq<Entry>, q: seq<Entry>)
  {
    && |q| == |p|
    && multiset(q) == multiset(p)
    && forall c: Rgb :: SameColour(q, c) == SameColour(p, c)
  }

  /** Each in-place sort of arcadeColors is such a reordering. */
  lemma StableSortReordered(s: seq<Entry>, target: RColor)
    ensures Reordered(s, StableSort(s, target))
  {
    StableSortPermutes(s, target);
    forall c: Rgb
      ensures SameColour(StableSort(s, target), c) == SameColour(s, c)
    {
      StableSortKeepsColourOrder(s, target, c);
    }
  }

  /** The last entry of colour c is the one at the highest position holding c. */
  lemma {:induction false} LastOfColour(s: seq<Entry>, c: Rgb, i: nat)
    requires i < |s| && s[i].color == c
    requires forall j :: i < j < |s| ==> s[j].color != c
    ensures |SameColour(s, c)| > 0 && SameColour(s, c)[|SameColour(s, c)| - 1] == s[i]
    decreases |s|
  {
    if i < |s| - 1 {
      LastOfColour(s[..|s| - 1], c, i);
    }
  }

  // ---------------------------------------------------------------------------
  // The entry the sort puts first

  /** The first entry, in the order of s, among those nearest to the target. */
  ghost predicate IsFirstNearest(s: seq<Entry>, target: RColor, j: int) {
    && 0 <= j < |s|
    && (forall i :: 0 <= i < |s| ==> Key(target, s[j]) <= Key(target, s[i]))
    && (forall i :: 0 <= i < j ==> Key(target, s[j]) < Key(target, s[i]))
  }

  /** A linear scan for the first nearest entry: the reference the sort is compared with. */
  function FirstNearestIndex(s: seq<Entry>, target: RColor): (j: nat)
    requires |s| > 0
    ensures IsFirstNearest(s, target, j)
    decreases |s|
  {
    if |s| == 1 then 0
    else
      var j := FirstNearestIndex(s[..|s| - 1], target);
      if Key(target, s[|s| - 1]) < Key(target, s[j]) then |s| - 1 else j
  }

  lemma {:induction false} InsertHead(t: seq<Entry>, x: Entry, target: RColor)
    requires |t| > 0 && Sorted(t, target)
    ensures Insert(t, x, target)[0] == if Key(target, x) < Key(target, t[0]) then x else t[0]
    decreases |t|
  {
    if Key(target, t[|t| - 1]) <= Key(target, x) {
    } else if |t| > 1 {
      InsertHead(t[..|t| - 1], x, target);
    }
  }

  /** sort(...)[0] is the first entry, in the current order, at minimal distance. */
  lemma {:induction false} StableSortHead(s: seq<Entry>, target: RColor)
    requires |s| > 0
    ensures |StableSort(s, target)| == |s|
    ensures StableSort(s, target)[0] == s[FirstNearestIndex(s, target)]
    decreases |s|
  {
    StableSortPermutes(s, target);
    if |s| > 1 {
      var s' := s[..|s| - 1];
      StableSortHead(s', target);
      StableSortSorted(s', target);
      InsertHead(StableSort(s', target), s[|s| - 1], target);
    }
  }

  // ---------------------------------------------------------------------------
  // The in-place sort

  /** Insert puts x just behind the last entry whose key is not greater than x's. */
  lemma {:induction false} InsertAt(t: seq<Entry>, x: Entry, target: RColor, j: nat)
    requires j <= |t| && (j == 0 || Key(target, t[j - 1]) <= Key(target, x))
    requires forall k :: j <= k < |t| ==> Key(target, t[k]) > Key(target, x)
    ensures Insert(t, x, target) == t[..j] + [x] + t[j..]
    decreases |t|
  {
    if |t| == j {
      assert t[..j] == t && t[j..] == [];
    } else {
      var t', l := t[..|t| - 1], t[|t| - 1];
      InsertAt(t', x, target, j);
      assert t'[..j] == t[..j];
      assert t'[j..] + [l] == t[j..];
    }
  }

  /** One pass of the insertion sort: moves a[i] left past every entry of the sorted
      prefix a[..i] that is strictly farther from the target. */
  method InsertLast(a: array<Entry>, i: nat, target: RColor)
    requires i < a.Length
    modifies a
    ensures a[..i + 1] == Insert(old(a[..i]), old(a[i]), target)
    ensures forall k :: i < k < a.Length ==> a[k] == old(a[k])
  {
    ghost var t := a[..i];
    var x := a[i];
    var j := i;
    while j > 0 && Key(target, a[j - 1]) > Key(target, x)
      invariant 0 <= j <= i
      invariant forall k :: 0 <= k < j ==> a[k] == t[k]
      invariant forall k :: j < k <= i ==> a[k] == t[k - 1]
      invariant forall k :: i < k < a.Length ==> a[k] == old(a[k])
      invariant forall k :: j <= k < i ==> Key(target, t[k]) > Key(target, x)
    {
      a[j] := a[j - 1];
      j := j - 1;
    }
    a[j] := x;
    InsertAt(t, x, target, j);
    assert a[..i + 1] == t[..j] + [x] + t[j..];
  }

  /** arcadeColors.sort(...) on the palette array, in place. */
  method SortByDistance(a: array<Entry>, target: RColor)
    modifies a
    ensures a[..] == StableSort(old(a[..]), target)
  {
    ghost var s := a[..];
    var i := 0;
    while i < a.Length
      invariant 0 <= i <= a.Length
      invariant a[..i] == StableSort(s[..i], target)
      invariant forall k :: i <= k < a.Length ==> a[k] == s[k]
    {
      InsertLast(a, i, target);
      assert s[..i + 1][..i] == s[..i];
      i := i + 1;
    }
    assert s[..a.Length] == s;
    assert a[..a.Length] == a[..];
  }
}
