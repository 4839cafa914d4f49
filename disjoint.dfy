/**
 * The disjoint-set structure used to group equivalent groups, modelled by
 * its observable behaviour: each element carries the label of its class,
 * `join` merges two classes, and `sets` lists the classes ordered by their
 * smallest element, each class in ascending order.
 */
module DisjointSets {
  /** `labels[x]` names the class of element `x`. */
  type Labels = seq<nat>

  /** Every element starts in its own class. */
  function Singletons(n: nat): (r: Labels)
    ensures |r| == n && forall x :: 0 <= x < n ==> r[x] == x
  {
    seq(n, x => x)
  }

  /** Merges the classes of `a` and `b`; every other class is left alone. */
  function Join(labels: Labels, a: nat, b: nat): (r: Labels)
    requires a < |labels| && b < |labels|
    ensures |r| == |labels| && r[a] == r[b]
    ensures forall x, y :: 0 <= x < |r| && 0 <= y < |r| ==>
      (r[x] == r[y] <==> labels[x] == labels[y] ||
                         (labels[x] in {labels[a], labels[b]} && labels[y] in {labels[a], labels[b]}))
    ensures forall x :: 0 <= x < |r| ==> r[x] == labels[x] || r[x] == labels[a]
  {
    seq(|labels|, x requires 0 <= x < |labels| => if labels[x] == labels[b] then labels[a] else labels[x])
  }

  /** No earlier element shares the class of `x`. */
  predicate IsFirst(labels: Labels, x: nat)
    requires x < |labels|
  {
    forall y :: 0 <= y < x ==> labels[y] != labels[x]
  }

  /** The elements from `from` on whose label is `l`, ascending. */
  function Members(labels: Labels, l: nat, from: nat): (r: seq<nat>)
    ensures from < |labels| && labels[from] == l ==> |r| > 0 && r[0] == from
    decreases |labels| - from
  {
    if from >= |labels| then []
    else (if labels[from] == l then [from] else []) + Members(labels, l, from + 1)
  }

  lemma {:induction false} MembersProps(labels: Labels, l: nat, from: nat)
    ensures forall y :: y in Members(labels, l, from) <==> from <= y < |labels| && labels[y] == l
    ensures from < |labels| && labels[from] == l ==> Members(labels, l, from)[0] == from
    decreases |labels| - from
  {
    if from < |labels| {
      MembersProps(labels, l, from + 1);
    }
  }

  /** The classes whose smallest element is at least `x`. */
  function ClassesFrom(labels: Labels, x: nat): (r: seq<seq<nat>>)
    ensures forall c :: 0 <= c < |r| ==> r[c] != []
    decreases |labels| - x
  {
    if x >= |labels| then []
    else (if IsFirst(labels, x) then [Members(labels, labels[x], x)] else []) + ClassesFrom(labels, x + 1)
  }

  /** `sets`: all classes, ordered by their smallest element. */
  function Classes(labels: Labels): (r: seq<seq<nat>>)
    ensures forall c :: 0 <= c < |r| ==> r[c] != []
  {
    ClassesFrom(labels, 0)
  }

  /** Class `c` starts with its smallest element `f` and holds exactly the elements labelled like `f`. */
  ghost predicate ClassAt(labels: Labels, sets: seq<seq<nat>>, c: nat)
    requires c < |sets|
  {
    sets[c] != [] && sets[c][0] < |labels| && IsFirst(labels, sets[c][0]) &&
    forall y :: y in sets[c] <==> sets[c][0] <= y < |labels| && labels[y] == labels[sets[c][0]]
  }

  lemma ClassesFromProps(labels: Labels, x: nat)
    ensures forall c :: 0 <= c < |ClassesFrom(labels, x)| ==> ClassAt(labels, ClassesFrom(labels, x), c)
    ensures forall c :: 0 <= c < |ClassesFrom(labels, x)| ==> x <= ClassesFrom(labels, x)[c][0]
    ensures forall c, d :: 0 <= c < d < |ClassesFrom(labels, x)| ==>
      ClassesFrom(labels, x)[c][0] < ClassesFrom(labels, x)[d][0]
    ensures forall f :: x <= f < |labels| && IsFirst(labels, f) ==>
      exists c :: 0 <= c < |ClassesFrom(labels, x)| && ClassesFrom(labels, x)[c][0] == f
  {
    ClassesFromAt(labels, x);
    ClassesFromAscending(labels, x);
    forall f | x <= f < |labels| && IsFirst(labels, f)
      ensures exists c :: 0 <= c < |ClassesFrom(labels, x)| && ClassesFrom(labels, x)[c][0] == f
    {
      var c := ClassOfFirst(labels, x, f);
    }
  }

  /** Each class from `x` on is one label's elements and starts at or after `x`. */
  lemma {:induction false} ClassesFromAt(labels: Labels, x: nat)
    ensures forall c :: 0 <= c < |ClassesFrom(labels, x)| ==>
      ClassAt(labels, ClassesFrom(labels, x), c) && x <= ClassesFrom(labels, x)[c][0]
    decreases |labels| - x
  {
    if x < |labels| {
      ClassesFromAt(labels, x + 1);
      var rest := ClassesFrom(labels, x + 1);
      if IsFirst(labels, x) {
        MembersProps(labels, labels[x], x);
        var all := ClassesFrom(labels, x);
        assert all == [Members(labels, labels[x], x)] + rest;
        forall c | 0 <= c < |all|
          ensures ClassAt(labels, all, c) && x <= all[c][0]
        {
          if c > 0 {
            assert all[c] == rest[c - 1];
            assert ClassAt(labels, rest, c - 1);
          }
        }
      } else {
        assert ClassesFrom(labels, x) == rest;
      }
    }
  }

  /** The classes from `x` on are ordered by their first elements. */
  lemma {:induction false} ClassesFromAscending(labels: Labels, x: nat)
    ensures forall c, d :: 0 <= c < d < |ClassesFrom(labels, x)| ==>
      ClassesFrom(labels, x)[c][0] < ClassesFrom(labels, x)[d][0]
    decreases |labels| - x
  {
    if x < |labels| {
      ClassesFromAscending(labels, x + 1);
      ClassesFromAt(labels, x + 1);
      var rest := ClassesFrom(labels, x + 1);
      if IsFirst(labels, x) {
        var all := ClassesFrom(labels, x);
        assert all == [Members(labels, labels[x], x)] + rest;
        assert all[0][0] == x;
        forall c, d | 0 <= c < d < |all|
          ensures all[c][0] < all[d][0]
        {
          assert all[d] == rest[d - 1];
          if c > 0 {
            assert all[c] == rest[c - 1];
          } else {
            assert x + 1 <= rest[d - 1][0];
          }
        }
      } else {
        assert ClassesFrom(labels, x) == rest;
      }
    }
  }

  /** The first element `f` of a class, at or after `x`, starts the `c`-th class listed from `x`. */
  lemma {:induction false} ClassOfFirst(labels: Labels, x: nat, f: nat) returns (c: nat)
    requires x <= f < |labels| && IsFirst(labels, f)
    ensures c < |ClassesFrom(labels, x)| && ClassesFrom(labels, x)[c][0] == f
    decreases |labels| - x
  {
    var rest := ClassesFrom(labels, x + 1);
    if IsFirst(labels, x) {
      var all := ClassesFrom(labels, x);
      assert all == [Members(labels, labels[x], x)] + rest;
      if f == x {
        c := 0;
      } else {
        var d := ClassOfFirst(labels, x + 1, f);
        c := d + 1;
        assert all[c] == rest[d];
      }
    } else {
      assert f != x;
      assert ClassesFrom(labels, x) == rest;
      c := ClassOfFirst(labels, x + 1, f);
    }
  }

  /** Every element has a first element of its class at or before it. */
  lemma {:induction false} FirstOfClass(labels: Labels, y: nat) returns (f: nat)
    requires y < |labels|
    ensures f <= y && IsFirst(labels, f) && labels[f] == labels[y]
    decreases y
  {
    if IsFirst(labels, y) {
      f := y;
    } else {
      var z :| 0 <= z < y && labels[z] == labels[y];
      f := FirstOfClass(labels, z);
    }
  }

  /** The classes of `sets` split the `n` elements, each listed once, smallest first. */
  ghost predicate Partition(sets: seq<seq<nat>>, n: nat)
  {
    (forall c :: 0 <= c < |sets| ==> sets[c] != [] && sets[c][0] < n && forall y :: y in sets[c] ==> sets[c][0] <= y < n) &&
    (forall c, d, y :: 0 <= c < |sets| && 0 <= d < |sets| && c != d && y in sets[c] ==> y !in sets[d]) &&
    (forall y :: 0 <= y < n ==> Covered(sets, y))
  }

  ghost predicate Covered(sets: seq<seq<nat>>, y: nat)
  {
    exists c :: 0 <= c < |sets| && y in sets[c]
  }

  /** `sets` is a partition in which each class is one label's elements. */
  lemma ClassesPartition(labels: Labels)
    ensures Partition(Classes(labels), |labels|)
    ensures forall c :: 0 <= c < |Classes(labels)| ==> ClassAt(labels, Classes(labels), c)
  {
    var sets := Classes(labels);
    ClassesFromProps(labels, 0);
    forall c | 0 <= c < |sets|
      ensures sets[c][0] < |labels| && forall y :: y in sets[c] ==> sets[c][0] <= y < |labels|
    {
      assert ClassAt(labels, sets, c);
    }
    forall c, d, y | 0 <= c < |sets| && 0 <= d < |sets| && c != d && y in sets[c]
      ensures y !in sets[d]
    {
      assert ClassAt(labels, sets, c) && ClassAt(labels, sets, d);
      assert labels[sets[c][0]] != labels[sets[d][0]] by {
        if c < d {
          assert sets[c][0] < sets[d][0];
        } else {
          assert sets[d][0] < sets[c][0];
        }
      }
    }
    forall y | 0 <= y < |labels|
      ensures Covered(sets, y)
    {
      var f := FirstOfClass(labels, y);
      var c :| 0 <= c < |sets| && sets[c][0] == f;
      assert ClassAt(labels, sets, c);
    }
  }

  lemma ClassesExample()
    ensures Classes([0, 1, 0]) == [[0, 2], [1]]
  {
    var l := [0, 1, 0];
    assert IsFirst(l, 0) && IsFirst(l, 1) && !IsFirst(l, 2) by {
      assert l[0] == l[2];
    }
    assert Members(l, 0, 0) == [0, 2];
    assert Members(l, 1, 1) == [1];
  }
}
