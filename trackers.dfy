/**
 * The region index trackers: which region indices the region layouter has
 * seen. `RangeTracker` keeps the closed range from the earliest to the latest
 * index; `SetTracker` keeps exactly the indices it was given, sorted.
 */
module Trackers {
  import opened Wrappers

  /** The smallest element of a non-empty sequence. */
  function SeqMin(xs: seq<nat>): (m: nat)
    requires xs != []
    ensures m in xs && forall x :: x in xs ==> m <= x
  {
    assert |xs| > 1 ==> xs == xs[..|xs| - 1] + [xs[|xs| - 1]];
    if |xs| == 1 then xs[0] else Min(SeqMin(xs[..|xs| - 1]), xs[|xs| - 1])
  }

  /** The largest element of a non-empty sequence. */
  function SeqMax(xs: seq<nat>): (m: nat)
    requires xs != []
    ensures m in xs && forall x :: x in xs ==> x <= m
  {
    assert |xs| > 1 ==> xs == xs[..|xs| - 1] + [xs[|xs| - 1]];
    if |xs| == 1 then xs[0] else Max(SeqMax(xs[..|xs| - 1]), xs[|xs| - 1])
  }

  /** The `n` indices `lo, lo + 1, ...`. */
  function Run(lo: nat, n: nat): (r: seq<nat>)
    ensures |r| == n
    ensures forall k :: 0 <= k < n ==> r[k] == lo + k
    ensures forall x :: x in r <==> lo <= x < lo + n
    decreases n
  {
    if n == 0 then [] else [lo] + Run(lo + 1, n - 1)
  }

  /** The indices `lo, lo + 1, ..., hi`. */
  function Inclusive(lo: nat, hi: nat): (r: seq<nat>)
    ensures |r| == if lo <= hi then hi - lo + 1 else 0
    ensures forall k :: 0 <= k < |r| ==> r[k] == lo + k
    ensures forall x :: x in r <==> lo <= x <= hi
  {
    if hi < lo then [] else Run(lo, hi - lo + 1)
  }

  /** The range after recording `i`: the first index gives `i..=i`, later ones widen it. */
  function RangeAfter(r: Option<(nat, nat)>, i: nat): (r': (nat, nat))
    ensures r'.0 <= i <= r'.1
    ensures r.Some? ==> r'.0 <= r.value.0 && r.value.1 <= r'.1
    ensures r.Some? && r.value.0 <= r.value.1 ==> r'.0 <= r'.1
  {
    if r.None? then (i, i) else (Min(r.value.0, i), Max(r.value.1, i))
  }

  class RangeTracker {
    var regions: Option<(nat, nat)>

    ghost predicate Valid()
      reads this
    {
      regions.Some? ==> regions.value.0 <= regions.value.1
    }

    /** `default`: nothing seen yet. */
    constructor ()
      ensures Valid() && regions == None
    {
      regions := None;
    }

    method Update(i: nat)
      requires Valid()
      modifies this
      ensures Valid()
      ensures regions == Some(RangeAfter(old(regions), i))
      ensures Contains(i)
      ensures forall j :: old(Contains(j)) ==> Contains(j)
    {
      regions := Some(RangeAfter(regions, i));
    }

    /** `contains`: false before any update, otherwise membership in the range. */
    predicate Contains(i: nat)
      reads this
    {
      regions.Some? && regions.value.0 <= i <= regions.value.1
    }

    /** `indices`: every index of the range in increasing order; none before any update. */
    function Indices(): (r: seq<nat>)
      reads this
      ensures regions.None? ==> r == []
      ensures forall i :: i in r <==> Contains(i)
      ensures forall k :: 0 < k < |r| ==> r[k] == r[k - 1] + 1
    {
      if regions.None? then [] else Inclusive(regions.value.0, regions.value.1)
    }
  }

  /** Feeds `xs` to a fresh `RangeTracker` and lists its indices. */
  method TrackRange(xs: seq<nat>) returns (out: seq<nat>)
    ensures xs == [] ==> out == []
    ensures xs != [] ==> out == Inclusive(SeqMin(xs), SeqMax(xs))
  {
    var t := new RangeTracker();
    var k := 0;
    while k < |xs|
      invariant 0 <= k <= |xs| && t.Valid()
      invariant k == 0 ==> t.regions == None
      invariant k > 0 ==> t.regions == Some((SeqMin(xs[..k]), SeqMax(xs[..k])))
    {
      assert xs[..k + 1][..k] == xs[..k];
      t.Update(xs[k]);
      k := k + 1;
    }
    assert xs[..|xs|] == xs;
    out := t.Indices();
  }

  predicate StrictlySorted(s: seq<nat>)
  {
    forall i, j :: 0 <= i < j < |s| ==> s[i] < s[j]
  }

  /** A strictly sorted list is determined by its elements. */
  lemma {:induction false} StrictlySortedUnique(a: seq<nat>, b: seq<nat>)
    requires StrictlySorted(a) && StrictlySorted(b)
    requires forall x :: x in a <==> x in b
    ensures a == b
    decreases |a|
  {
    if a != [] {
      assert a[0] in b;
    }
    if b != [] {
      assert b[0] in a;
    }
    if a != [] && b != [] {
      assert a[0] == b[0];
      forall x
        ensures x in a[1..] <==> x in b[1..]
      {
        if x in a[1..] {
          assert x in b && x != b[0];
        }
        if x in b[1..] {
          assert x in a && x != a[0];
        }
      }
      StrictlySortedUnique(a[1..], b[1..]);
      assert a == [a[0]] + a[1..] && b == [b[0]] + b[1..];
    }
  }

  /** Outcome of `binary_search`: where the index is, or where it would go. */
  datatype Search = Found(pos: nat) | Insertion(pos: nat)

  class SetTracker {
    var regions: seq<nat>

    ghost predicate Valid()
      reads this
    {
      StrictlySorted(regions)
    }

    constructor ()
      ensures Valid() && regions == []
    {
      regions := [];
    }

    /** `binary_search` over the sorted list. */
    method BinarySearch(i: nat) returns (r: Search)
      requires Valid()
      ensures r.Found? ==> r.pos < |regions| && regions[r.pos] == i
      ensures r.Insertion? ==> i !in regions && r.pos <= |regions|
      ensures r.Insertion? ==> forall k :: 0 <= k < r.pos ==> regions[k] < i
      ensures r.Insertion? ==> forall k :: r.pos <= k < |regions| ==> i < regions[k]
    {
      var lo, hi := 0, |regions|;
      while lo < hi
        invariant 0 <= lo <= hi <= |regions|
        invariant forall k :: 0 <= k < lo ==> regions[k] < i
        invariant forall k :: hi <= k < |regions| ==> i < regions[k]
        decreases hi - lo
      {
        var mid := (lo + hi) / 2;
        if regions[mid] == i {
          return Found(mid);
        } else if regions[mid] < i {
          lo := mid + 1;
        } else {
          hi := mid;
        }
      }
      r := Insertion(lo);
    }

    /** `update`: a sorted insert that leaves a known index alone. */
    method Update(i: nat)
      requires Valid()
      modifies this
      ensures Valid()
      ensures forall x :: x in regions <==> x in old(regions) || x == i
      ensures i in old(regions) ==> regions == old(regions)
    {
      var r := BinarySearch(i);
      if r.Insertion? {
        var pos := r.pos;
        regions := regions[..pos] + [i] + regions[pos..];
      }
    }

    /** `contains`: exactly the indices given to `update`. */
    predicate Contains(i: nat)
      reads this
    {
      i in regions
    }

    /** `indices`: the recorded indices in increasing order. */
    function Indices(): (r: seq<nat>)
      reads this
      requires Valid()
      ensures StrictlySorted(r)
      ensures forall i :: i in r <==> Contains(i)
    {
      regions
    }
  }

  /** Feeds `xs` to a fresh `SetTracker` and lists its indices: `xs` sorted, without repeats. */
  method TrackSet(xs: seq<nat>) returns (out: seq<nat>)
    ensures StrictlySorted(out)
    ensures forall x :: x in out <==> x in xs
  {
    var t := new SetTracker();
    var k := 0;
    while k < |xs|
      invariant 0 <= k <= |xs| && t.Valid()
      invariant forall x :: x in t.regions <==> x in xs[..k]
    {
      assert xs[..k + 1] == xs[..k] + [xs[k]];
      t.Update(xs[k]);
      k := k + 1;
    }
    assert xs[..|xs|] == xs;
    out := t.Indices();
  }

  /** The set tracker tests: `[2, 1, 3]` and `[1, 1, 2]` give `[1, 2, 3]` and `[1, 2]`. */
  lemma SetTrackerExamples(a: seq<nat>, b: seq<nat>)
    requires StrictlySorted(a) && forall x :: x in a <==> x in [2, 1, 3]
    requires StrictlySorted(b) && forall x :: x in b <==> x in [1, 1, 2]
    ensures a == [1, 2, 3] && b == [1, 2]
  {
    StrictlySortedUnique(a, [1, 2, 3]);
    StrictlySortedUnique(b, [1, 2]);
  }

  /** The range tracker tests: `[2, 1, 3]` and `[1, 3]` give `1..=3`; `[1, 1]` gives `1..=1`. */
  lemma RangeTrackerExamples()
    ensures Inclusive(SeqMin([2, 1, 3]), SeqMax([2, 1, 3])) == [1, 2, 3]
    ensures Inclusive(SeqMin([1, 3]), SeqMax([1, 3])) == [1, 2, 3]
    ensures Inclusive(SeqMin([1, 1]), SeqMax([1, 1])) == [1]
  {
    assert SeqMin([2, 1, 3]) == 1 && SeqMax([2, 1, 3]) == 3;
    assert SeqMin([1, 3]) == 1 && SeqMax([1, 3]) == 3;
    assert SeqMin([1, 1]) == 1 && SeqMax([1, 1]) == 1;
  }
}
