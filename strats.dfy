/**
 * The group code-generation strategy: groups with the same key are compared,
 * equivalent groups form classes, the first member of each class becomes its
 * leader under a fresh name, every group and call site is redirected to its
 * leader, and only the main group and the leaders are kept.
 */
module Strats {
  import opened Wrappers
  import opened Names
  import opened IRGroups
  import opened DisjointSets

  /** Each group's `id` is its index in the groups vector. */
  predicate IdsAreIndices(groups: seq<GroupBody>)
  {
    forall i :: 0 <= i < |groups| ==> groups[i].id == i
  }

  // ---------------------------------------------------------------- grouping by key

  /** The ids of the groups with key `k`, in order. */
  function IdsWithKey(groups: seq<GroupBody>, k: nat): seq<nat>
  {
    if groups == [] then []
    else
      var last := groups[|groups| - 1];
      IdsWithKey(groups[..|groups| - 1], k) + (if last.key == Some(k) then [last.id] else [])
  }

  lemma {:induction false} IdsWithKeyMembers(groups: seq<GroupBody>, k: nat)
    ensures forall x :: x in IdsWithKey(groups, k) <==>
      exists i :: 0 <= i < |groups| && groups[i].key == Some(k) && groups[i].id == x
  {
    if groups != [] {
      var init := groups[..|groups| - 1];
      IdsWithKeyMembers(init, k);
      assert forall i :: 0 <= i < |init| ==> init[i] == groups[i];
    }
  }

  lemma IdsWithKeySnoc(groups: seq<GroupBody>, g: GroupBody, k: nat)
    ensures IdsWithKey(groups + [g], k) == IdsWithKey(groups, k) + (if g.key == Some(k) then [g.id] else [])
  {
    assert (groups + [g])[..|groups|] == groups;
  }

  /** With ids as indices, bucket `k` holds exactly the groups whose key is `k`; main is never in a bucket. */
  lemma KeyedIds(groups: seq<GroupBody>, k: nat)
    requires IdsAreIndices(groups)
    ensures forall x: nat :: x in IdsWithKey(groups, k) <==> x < |groups| && groups[x].key == Some(k)
  {
    IdsWithKeyMembers(groups, k);
    forall x: nat | x < |groups| && groups[x].key == Some(k)
      ensures x in IdsWithKey(groups, k)
    {
      assert groups[x].id == x;
    }
  }

  /** `byKey` buckets the ids of `groups` by key: a key is present exactly when its bucket is non-empty. */
  ghost predicate Bucketed(groups: seq<GroupBody>, byKey: map<nat, seq<nat>>)
  {
    (forall k :: k in byKey <==> IdsWithKey(groups, k) != []) &&
    (forall k :: k in byKey ==> byKey[k] == IdsWithKey(groups, k))
  }

  /** One step of the bucketing loop: a non-main group is appended to its key's bucket. */
  lemma BucketStep(groups: seq<GroupBody>, i: nat, byKey: map<nat, seq<nat>>, next: map<nat, seq<nat>>)
    requires i < |groups| && Bucketed(groups[..i], byKey)
    requires IsMain(groups[i]) ==> next == byKey
    requires !IsMain(groups[i]) ==> var k := groups[i].key.value;
      next == byKey[k := (if k in byKey then byKey[k] else []) + [groups[i].id]]
    ensures Bucketed(groups[..i + 1], next)
  {
    assert groups[..i + 1] == groups[..i] + [groups[i]];
    forall k {
      IdsWithKeySnoc(groups[..i], groups[i], k);
    }
  }

  /** `organize_groups_by_key`: the ids of the non-main groups, bucketed by key in order. */
  method OrganizeGroupsByKey(groups: seq<GroupBody>) returns (byKey: map<nat, seq<nat>>)
    ensures forall k :: k in byKey <==> IdsWithKey(groups, k) != []
    ensures forall k :: k in byKey ==> byKey[k] == IdsWithKey(groups, k)
  {
    byKey := map[];
    var i := 0;
    while i < |groups|
      invariant 0 <= i <= |groups|
      invariant Bucketed(groups[..i], byKey)
    {
      var g := groups[i];
      var next := byKey;
      if !IsMain(g) {
        var k := g.key.value;
        var ids := if k in byKey then byKey[k] else [];
        next := byKey[k := ids + [g.id]];
      }
      BucketStep(groups, i, byKey, next);
      byKey := next;
      i := i + 1;
    }
    assert groups[..i] == groups;
  }

  // ---------------------------------------------------------------- equivalence classes

  /** Classes never mix keys and the main group stays alone in its class. */
  ghost predicate LabelsOk(groups: seq<GroupBody>, labels: Labels)
  {
    |labels| == |groups| &&
    forall x :: 0 <= x < |labels| ==>
      labels[x] < |groups| && groups[labels[x]].key == groups[x].key && (IsMain(groups[x]) ==> labels[x] == x)
  }

  /** `after` only merges classes of `before`. */
  ghost predicate Coarsens(before: Labels, after: Labels)
  {
    |after| == |before| &&
    forall x, y :: 0 <= x < |before| && 0 <= y < |before| && before[x] == before[y] ==> after[x] == after[y]
  }

  lemma JoinKeepsOk(groups: seq<GroupBody>, labels: Labels, a: nat, b: nat)
    requires LabelsOk(groups, labels) && a < |groups| && b < |groups|
    requires !IsMain(groups[a]) && groups[a].key == groups[b].key
    ensures LabelsOk(groups, Join(labels, a, b)) && Coarsens(labels, Join(labels, a, b))
  {
    var r := Join(labels, a, b);
    forall x | 0 <= x < |r|
      ensures r[x] < |groups| && groups[r[x]].key == groups[x].key && (IsMain(groups[x]) ==> r[x] == x)
    {
      if r[x] != labels[x] {
        assert r[x] == labels[a] && r[x] == r[a];
        assert labels[x] == labels[b];
      }
    }
  }

  /** Merging in two steps only merges classes of the start. */
  lemma CoarsensTrans(a: Labels, b: Labels, c: Labels)
    requires Coarsens(a, b) && Coarsens(b, c)
    ensures Coarsens(a, c)
  {
  }

  /** `a` and `b` are distinct non-main groups with one key that `eqv` relates, in either order. */
  ghost predicate Linked(groups: seq<GroupBody>, eqv: (nat, nat) -> bool, a: nat, b: nat)
  {
    a < |groups| && b < |groups| && a != b && !IsMain(groups[a]) && groups[a].key == groups[b].key &&
    (eqv(a, b) || eqv(b, a))
  }

  /** Consecutive entries of `path` are linked. */
  ghost predicate IsChain(groups: seq<GroupBody>, eqv: (nat, nat) -> bool, path: seq<nat>)
  {
    |path| > 0 && forall i :: 0 <= i < |path| - 1 ==> Linked(groups, eqv, path[i], path[i + 1])
  }

  /** Some chain of linked pairs leads from `x` to `y`. */
  ghost predicate Connected(groups: seq<GroupBody>, eqv: (nat, nat) -> bool, x: nat, y: nat)
  {
    exists path :: IsChain(groups, eqv, path) && path[0] == x && path[|path| - 1] == y
  }

  /** Two groups share a class only if they are one group or a chain of linked pairs connects them. */
  ghost predicate Justified(groups: seq<GroupBody>, eqv: (nat, nat) -> bool, labels: Labels)
  {
    |labels| == |groups| &&
    forall x, y :: 0 <= x < |labels| && 0 <= y < |labels| && labels[x] == labels[y] ==>
      x == y || Connected(groups, eqv, x, y)
  }

  /** A chain from `x` to `m` followed by one from `m` to `y` is a chain from `x` to `y`. */
  lemma ConnectedTrans(groups: seq<GroupBody>, eqv: (nat, nat) -> bool, x: nat, m: nat, y: nat)
    requires Connected(groups, eqv, x, m) && Connected(groups, eqv, m, y)
    ensures Connected(groups, eqv, x, y)
  {
    var p1 :| IsChain(groups, eqv, p1) && p1[0] == x && p1[|p1| - 1] == m;
    var p2 :| IsChain(groups, eqv, p2) && p2[0] == m && p2[|p2| - 1] == y;
    var p := p1 + p2[1..];
    forall i | 0 <= i < |p| - 1
      ensures Linked(groups, eqv, p[i], p[i + 1])
    {
      if i < |p1| - 1 {
        assert p[i] == p1[i] && p[i + 1] == p1[i + 1];
      } else {
        var k := i - |p1| + 1;
        assert p[i] == p2[k] && p[i + 1] == p2[k + 1];
      }
    }
    assert IsChain(groups, eqv, p) && p[0] == x && p[|p| - 1] == y;
  }

  /** A chain read backwards is a chain. */
  lemma ConnectedSym(groups: seq<GroupBody>, eqv: (nat, nat) -> bool, x: nat, y: nat)
    requires Connected(groups, eqv, x, y)
    ensures Connected(groups, eqv, y, x)
  {
    var p :| IsChain(groups, eqv, p) && p[0] == x && p[|p| - 1] == y;
    var n := |p|;
    var q := seq(n, i requires 0 <= i < n => p[n - 1 - i]);
    forall i | 0 <= i < n - 1
      ensures Linked(groups, eqv, q[i], q[i + 1])
    {
      var a, b := p[n - 2 - i], p[n - 1 - i];
      assert Linked(groups, eqv, a, b);
      assert groups[b].key == groups[a].key;
    }
    assert IsChain(groups, eqv, q) && q[0] == y && q[n - 1] == x;
  }

  /** A linked pair is connected. */
  lemma ConnectedLink(groups: seq<GroupBody>, eqv: (nat, nat) -> bool, a: nat, b: nat)
    requires Linked(groups, eqv, a, b)
    ensures Connected(groups, eqv, a, b)
  {
    assert IsChain(groups, eqv, [a, b]);
  }

  /** Every element of the two classes being joined is connected to `a`. */
  lemma ConnectedToJoined(groups: seq<GroupBody>, eqv: (nat, nat) -> bool, labels: Labels, a: nat, b: nat, z: nat)
    requires Justified(groups, eqv, labels) && Linked(groups, eqv, a, b) && z < |labels|
    requires labels[z] == labels[a] || labels[z] == labels[b]
    ensures Connected(groups, eqv, z, a)
  {
    assert IsChain(groups, eqv, [a]);
    ConnectedLink(groups, eqv, a, b);
    ConnectedSym(groups, eqv, a, b);
    if labels[z] == labels[a] {
      assert z == a || Connected(groups, eqv, z, a);
    } else {
      assert z == b || Connected(groups, eqv, z, b);
      if z != b {
        ConnectedTrans(groups, eqv, z, b, a);
      }
    }
  }

  /** Joining a linked pair keeps every class connected. */
  lemma JoinKeepsJustified(groups: seq<GroupBody>, eqv: (nat, nat) -> bool, labels: Labels, a: nat, b: nat)
    requires Justified(groups, eqv, labels) && Linked(groups, eqv, a, b)
    ensures Justified(groups, eqv, Join(labels, a, b))
  {
    var r := Join(labels, a, b);
    forall x, y | 0 <= x < |r| && 0 <= y < |r| && r[x] == r[y] && x != y
      ensures Connected(groups, eqv, x, y)
    {
      if labels[x] != labels[y] {
        ConnectedToJoined(groups, eqv, labels, a, b, x);
        ConnectedToJoined(groups, eqv, labels, a, b, y);
        ConnectedSym(groups, eqv, y, a);
        ConnectedTrans(groups, eqv, x, a, y);
      }
    }
  }

  /** Connected distinct groups are non-main and share their key. */
  lemma {:induction false} ChainKeys(groups: seq<GroupBody>, eqv: (nat, nat) -> bool, path: seq<nat>)
    requires IsChain(groups, eqv, path)
    ensures path[0] == path[|path| - 1] || (path[0] < |groups| && path[|path| - 1] < |groups| &&
      !IsMain(groups[path[|path| - 1]]) && groups[path[0]].key == groups[path[|path| - 1]].key)
    decreases |path|
  {
    var n := |path|;
    if n > 1 {
      var init := path[..n - 1];
      assert IsChain(groups, eqv, init) by {
        forall i | 0 <= i < |init| - 1
          ensures Linked(groups, eqv, init[i], init[i + 1])
        {
          assert init[i] == path[i] && init[i + 1] == path[i + 1];
        }
      }
      ChainKeys(groups, eqv, init);
      assert Linked(groups, eqv, path[n - 2], path[n - 1]);
    }
  }

  /** `eqv` is symmetric and transitive. */
  ghost predicate IsEquivalence(eqv: (nat, nat) -> bool)
  {
    (forall a, b :: eqv(a, b) ==> eqv(b, a)) &&
    (forall a, b, c :: eqv(a, b) && eqv(b, c) ==> eqv(a, c))
  }

  /** When `eqv` is an equivalence, the ends of a chain are one group or are related by `eqv`. */
  lemma {:induction false} ChainOfEquivalence(groups: seq<GroupBody>, eqv: (nat, nat) -> bool, path: seq<nat>)
    requires IsChain(groups, eqv, path) && IsEquivalence(eqv)
    ensures path[0] == path[|path| - 1] || eqv(path[0], path[|path| - 1])
    decreases |path|
  {
    var n := |path|;
    if n > 1 {
      var init := path[..n - 1];
      assert IsChain(groups, eqv, init) by {
        forall i | 0 <= i < |init| - 1
          ensures Linked(groups, eqv, init[i], init[i + 1])
        {
          assert init[i] == path[i] && init[i + 1] == path[i + 1];
        }
      }
      ChainOfEquivalence(groups, eqv, init);
      var x, m, y := path[0], path[n - 2], path[n - 1];
      assert Linked(groups, eqv, m, y);
      assert eqv(m, y);
      if x != m {
        assert eqv(x, m);
      }
    }
  }

  /**
   * With `eqv` an equivalence, the classes of a justified labelling that joins
   * every equivalent pair are exactly the equivalence classes of the non-main
   * groups within each key.
   */
  lemma ClassesAreEquivalenceClasses(groups: seq<GroupBody>, eqv: (nat, nat) -> bool, labels: Labels)
    requires Justified(groups, eqv, labels) && IsEquivalence(eqv)
    requires forall i, j :: (0 <= i < |groups| && 0 <= j < |groups| && i != j && !IsMain(groups[i]) &&
      groups[i].key == groups[j].key && eqv(i, j)) ==> labels[i] == labels[j]
    ensures forall i, j :: 0 <= i < |groups| && 0 <= j < |groups| && i != j ==>
      (labels[i] == labels[j] <==> !IsMain(groups[i]) && groups[i].key == groups[j].key && eqv(i, j))
  {
    forall i, j | 0 <= i < |groups| && 0 <= j < |groups| && i != j && labels[i] == labels[j]
      ensures !IsMain(groups[i]) && groups[i].key == groups[j].key && eqv(i, j)
    {
      var p :| IsChain(groups, eqv, p) && p[0] == i && p[|p| - 1] == j;
      ChainKeys(groups, eqv, p);
      ChainOfEquivalence(groups, eqv, p);
    }
  }

  /** Every equivalent pair of distinct ids at bucket positions before `(p, q)`, row by row, shares a class. */
  ghost predicate PairsJoined(bucket: seq<nat>, r: Labels, eqv: (nat, nat) -> bool, p: nat, q: nat)
    requires forall i :: 0 <= i < |bucket| ==> bucket[i] < |r|
  {
    forall p', q' :: (0 <= p' < |bucket| && 0 <= q' < |bucket| && (p' < p || (p' == p && q' < q)) &&
      bucket[p'] != bucket[q'] && eqv(bucket[p'], bucket[q'])) ==> r[bucket[p']] == r[bucket[q']]
  }

  /** Handling the pair at `(p, q)` extends the joined pairs by one. */
  lemma PairStep(bucket: seq<nat>, r: Labels, r': Labels, eqv: (nat, nat) -> bool, p: nat, q: nat)
    requires forall i :: 0 <= i < |bucket| ==> bucket[i] < |r|
    requires p < |bucket| && q < |bucket| && Coarsens(r, r')
    requires PairsJoined(bucket, r, eqv, p, q)
    requires bucket[p] != bucket[q] && eqv(bucket[p], bucket[q]) ==> r'[bucket[p]] == r'[bucket[q]]
    ensures PairsJoined(bucket, r', eqv, p, q + 1)
  {
  }

  /** A finished row is the start of the next one. */
  lemma RowDone(bucket: seq<nat>, r: Labels, eqv: (nat, nat) -> bool, p: nat)
    requires forall i :: 0 <= i < |bucket| ==> bucket[i] < |r|
    requires PairsJoined(bucket, r, eqv, p, |bucket|)
    ensures PairsJoined(bucket, r, eqv, p + 1, 0)
  {
  }

  /** One bucket of the source's product loop: every equivalent pair of distinct ids is joined. */
  method JoinBucket(groups: seq<GroupBody>, labels: Labels, bucket: seq<nat>, k: nat, eqv: (nat, nat) -> bool)
    returns (r: Labels)
    requires LabelsOk(groups, labels)
    requires forall p :: 0 <= p < |bucket| ==> bucket[p] < |groups| && groups[bucket[p]].key == Some(k)
    ensures LabelsOk(groups, r) && Coarsens(labels, r)
    ensures forall p, q :: (0 <= p < |bucket| && 0 <= q < |bucket| && bucket[p] != bucket[q] &&
      eqv(bucket[p], bucket[q])) ==> r[bucket[p]] == r[bucket[q]]
    ensures Justified(groups, eqv, labels) ==> Justified(groups, eqv, r)
  {
    r := labels;
    var p := 0;
    while p < |bucket|
      invariant 0 <= p <= |bucket|
      invariant LabelsOk(groups, r) && Coarsens(labels, r)
      invariant PairsJoined(bucket, r, eqv, p, 0)
      invariant Justified(groups, eqv, labels) ==> Justified(groups, eqv, r)
    {
      var q := 0;
      while q < |bucket|
        invariant 0 <= q <= |bucket|
        invariant LabelsOk(groups, r) && Coarsens(labels, r)
        invariant PairsJoined(bucket, r, eqv, p, q)
        invariant Justified(groups, eqv, labels) ==> Justified(groups, eqv, r)
      {
        var i, j := bucket[p], bucket[q];
        var before := r;
        if i != j && eqv(i, j) {
          JoinKeepsOk(groups, r, i, j);
          if Justified(groups, eqv, before) {
            JoinKeepsJustified(groups, eqv, before, i, j);
          }
          r := Join(r, i, j);
          CoarsensTrans(labels, before, r);
        }
        PairStep(bucket, before, r, eqv, p, q);
        q := q + 1;
      }
      RowDone(bucket, r, eqv, p);
      p := p + 1;
    }
  }

  /**
   * The class of every group as left by `select_leaders`' join loop; `eqv`
   * stands for `SymbolicEqv::equivalent` on the groups at two indices.
   */
  method ComputeLabels(groups: seq<GroupBody>, eqv: (nat, nat) -> bool) returns (labels: Labels)
    requires IdsAreIndices(groups)
    ensures LabelsOk(groups, labels)
    ensures forall i, j :: (0 <= i < |groups| && 0 <= j < |groups| && i != j && !IsMain(groups[i]) &&
      groups[i].key == groups[j].key && eqv(i, j)) ==> labels[i] == labels[j]
    ensures Justified(groups, eqv, labels)
  {
    var byKey := OrganizeGroupsByKey(groups);
    labels := Singletons(|groups|);
    var keys := byKey.Keys;
    ghost var done: set<nat> := {};
    while keys != {}
      invariant keys + done == byKey.Keys && keys !! done
      invariant LabelsOk(groups, labels) && Justified(groups, eqv, labels)
      invariant forall i, j :: (0 <= i < |groups| && 0 <= j < |groups| && i != j && !IsMain(groups[i]) &&
        groups[i].key.value in done && groups[i].key == groups[j].key && eqv(i, j)) ==> labels[i] == labels[j]
      decreases keys
    {
      var k :| k in keys;
      var bucket := byKey[k];
      KeyedIds(groups, k);
      assert forall p :: 0 <= p < |bucket| ==> bucket[p] in IdsWithKey(groups, k);
      var before := labels;
      labels := JoinBucket(groups, labels, bucket, k, eqv);
      forall i, j | 0 <= i < |groups| && 0 <= j < |groups| && i != j && !IsMain(groups[i]) &&
        groups[i].key == Some(k) && groups[i].key == groups[j].key && eqv(i, j)
        ensures labels[i] == labels[j]
      {
        var p :| 0 <= p < |bucket| && bucket[p] == i;
        var q :| 0 <= q < |bucket| && bucket[q] == j;
      }
      keys := keys - {k};
      done := done + {k};
    }
    forall i | 0 <= i < |groups| && !IsMain(groups[i])
      ensures groups[i].key.value in done
    {
      KeyedIds(groups, groups[i].key.value);
    }
  }

  // ---------------------------------------------------------------- leaders and names

  /** `fresh_group_name`'s choice: the name itself if unused, else the first unused `name{k}` with `k >= n`. */
  ghost predicate FreshGroupNameSpec(name: string, used: set<string>, n: nat, r: string)
  {
    r !in used &&
    (name !in used ==> r == name) &&
    (name in used ==> exists k: nat :: k >= n && r == Suffixed(name, k) &&
                         forall j: nat :: n <= j < k ==> Suffixed(name, j) in used)
  }

  /** `fresh_group_name`: picks the fresh name and marks it used. */
  method FreshGroupName(name: string, used: set<string>, n: nat) returns (r: string, usedAfter: set<string>)
    ensures FreshGroupNameSpec(name, used, n, r)
    ensures usedAfter == used + {r}
    ensures |r| >= |name| && r[..|name|] == name
  {
    if name !in used {
      r := name;
    } else {
      var k := FirstFreeSuffix(name, n, used);
      r := Suffixed(name, k);
    }
    usedAfter := used + {r};
  }

  /** The names already chosen. */
  function NameSet(names: seq<string>): set<string>
  {
    set x | x in names
  }

  type Calldata = seq<Option<(nat, string)>>

  /** Writes `(leader, name)` for every member. */
  method MarkAll(updated: Calldata, members: seq<nat>, leader: nat, name: string) returns (r: Calldata)
    requires forall m :: m in members ==> m < |updated|
    ensures |r| == |updated|
    ensures forall m :: m in members ==> m < |r| && r[m] == Some((leader, name))
    ensures forall m :: 0 <= m < |r| && m !in members ==> r[m] == updated[m]
  {
    r := updated;
    var i := 0;
    while i < |members|
      invariant 0 <= i <= |members| && |r| == |updated|
      invariant forall k :: 0 <= k < i ==> members[k] < |r| && r[members[k]] == Some((leader, name))
      invariant forall m :: 0 <= m < |r| && m !in members[..i] ==> r[m] == updated[m]
    {
      assert members[i] in members;
      assert members[..i + 1] == members[..i] + [members[i]];
      r := r[members[i] := Some((leader, name))];
      i := i + 1;
    }
    assert members[..i] == members;
    forall m | m in members
      ensures m < |r| && r[m] == Some((leader, name))
    {
      var k :| 0 <= k < |members| && members[k] == m;
    }
  }

  /** The loop's state after the first `n` classes have been annotated. */
  ghost predicate AnnotatedUpTo(groups: seq<GroupBody>, sets: seq<seq<nat>>, n: nat,
                                leaders: seq<nat>, updated: Calldata, names: seq<string>)
    requires Partition(sets, |groups|)
  {
    n <= |sets| && |leaders| == n && |names| == n && |updated| == |groups| &&
    (forall c :: 0 <= c < n ==> leaders[c] == sets[c][0]) &&
    MarkedUpTo(groups, sets, n, updated, names) &&
    DistinctUpTo(names, n) &&
    FreshUpTo(groups, sets, n, names)
  }

  /** Every member of the first `n` classes records its class's leader and name. */
  ghost predicate MarkedUpTo(groups: seq<GroupBody>, sets: seq<seq<nat>>, n: nat, updated: Calldata, names: seq<string>)
    requires Partition(sets, |groups|)
  {
    n <= |sets| && n <= |names| && |updated| == |groups| &&
    forall c, m :: 0 <= c < n && m in sets[c] ==> updated[m] == Some((sets[c][0], names[c]))
  }

  /** The first `n` names are pairwise distinct. */
  ghost predicate DistinctUpTo(names: seq<string>, n: nat)
  {
    n <= |names| && forall c, d :: 0 <= c < d < n ==> names[c] != names[d]
  }

  /** Each of the first `n` names is the fresh-name rule's choice given the names before it. */
  ghost predicate FreshUpTo(groups: seq<GroupBody>, sets: seq<seq<nat>>, n: nat, names: seq<string>)
    requires Partition(sets, |groups|)
  {
    n <= |sets| && n <= |names| &&
    forall c :: 0 <= c < n ==> FreshGroupNameSpec(groups[sets[c][0]].name, NameSet(names[..c]), c, names[c])
  }

  /** Marking class `n` keeps the marks of the earlier, disjoint classes. */
  lemma MarkStep(groups: seq<GroupBody>, sets: seq<seq<nat>>, before: Calldata, updated: Calldata,
                 names: seq<string>, name: string)
    requires Partition(sets, |groups|) && |names| < |sets|
    requires MarkedUpTo(groups, sets, |names|, before, names)
    requires |updated| == |before|
    requires forall m :: m in sets[|names|] ==> updated[m] == Some((sets[|names|][0], name))
    requires forall m :: 0 <= m < |updated| && m !in sets[|names|] ==> updated[m] == before[m]
    ensures MarkedUpTo(groups, sets, |names| + 1, updated, names + [name])
  {
    var n, names' := |names|, names + [name];
    forall c, m | 0 <= c < n + 1 && m in sets[c]
      ensures updated[m] == Some((sets[c][0], names'[c]))
    {
      if c < n {
        assert m !in sets[n];
        assert names'[c] == names[c];
      }
    }
  }

  /** A name not used before keeps the names pairwise distinct. */
  lemma DistinctStep(names: seq<string>, name: string)
    requires DistinctUpTo(names, |names|) && name !in NameSet(names)
    ensures DistinctUpTo(names + [name], |names| + 1)
  {
    var names' := names + [name];
    forall c, d | 0 <= c < d < |names'|
      ensures names'[c] != names'[d]
    {
      assert names'[c] == names[c];
      if d == |names| {
        assert names[c] in NameSet(names);
      } else {
        assert names'[d] == names[d];
      }
    }
  }

  /** Appending a name leaves the earlier names and the names before them as they were. */
  lemma FreshStep(groups: seq<GroupBody>, sets: seq<seq<nat>>, names: seq<string>, name: string)
    requires Partition(sets, |groups|) && |names| < |sets|
    requires FreshUpTo(groups, sets, |names|, names)
    requires FreshGroupNameSpec(groups[sets[|names|][0]].name, NameSet(names), |names|, name)
    ensures FreshUpTo(groups, sets, |names| + 1, names + [name])
  {
    var n, names' := |names|, names + [name];
    forall c | 0 <= c < n + 1
      ensures FreshGroupNameSpec(groups[sets[c][0]].name, NameSet(names'[..c]), c, names'[c])
    {
      if c < n {
        assert names'[..c] == names[..c] && names'[c] == names[c];
      } else {
        assert names'[..c] == names && names'[c] == name;
      }
    }
  }

  /** Annotating class `n` with its leader and a fresh name extends the annotated prefix by one. */
  lemma AnnotateStep(groups: seq<GroupBody>, sets: seq<seq<nat>>, n: nat, leaders: seq<nat>,
                     before: Calldata, updated: Calldata, names: seq<string>, name: string)
    requires Partition(sets, |groups|) && n < |sets|
    requires AnnotatedUpTo(groups, sets, n, leaders, before, names)
    requires FreshGroupNameSpec(groups[sets[n][0]].name, NameSet(names), n, name)
    requires |updated| == |before|
    requires forall m :: m in sets[n] ==> updated[m] == Some((sets[n][0], name))
    requires forall m :: 0 <= m < |updated| && m !in sets[n] ==> updated[m] == before[m]
    ensures AnnotatedUpTo(groups, sets, n + 1, leaders + [sets[n][0]], updated, names + [name])
    ensures NameSet(names) + {name} == NameSet(names + [name])
  {
    MarkStep(groups, sets, before, updated, names, name);
    DistinctStep(names, name);
    FreshStep(groups, sets, names, name);
  }

  /** The loop over the classes: each class's first member leads it under a fresh name. */
  method AnnotateClasses(groups: seq<GroupBody>, sets: seq<seq<nat>>)
    returns (leaders: seq<nat>, updated: Calldata, ghost names: seq<string>)
    requires Partition(sets, |groups|)
    ensures |leaders| == |sets| && |names| == |sets| && |updated| == |groups|
    ensures forall c :: 0 <= c < |sets| ==> leaders[c] == sets[c][0]
    ensures forall c, m :: 0 <= c < |sets| && m in sets[c] ==> updated[m] == Some((sets[c][0], names[c]))
    ensures forall c, d :: 0 <= c < d < |sets| ==> names[c] != names[d]
    ensures forall c :: 0 <= c < |sets| ==> FreshGroupNameSpec(groups[sets[c][0]].name, NameSet(names[..c]), c, names[c])
  {
    leaders := [];
    updated := seq(|groups|, _ => None);
    names := [];
    var used: set<string> := {};
    var n := 0;
    while n < |sets|
      invariant AnnotatedUpTo(groups, sets, n, leaders, updated, names)
      invariant used == NameSet(names)
    {
      var members := sets[n];
      var leader := members[0];
      var name;
      name, used := FreshGroupName(groups[leader].name, used, n);
      var before := updated;
      updated := MarkAll(updated, members, leader, name);
      AnnotateStep(groups, sets, n, leaders, before, updated, names, name);
      leaders := leaders + [leader];
      names := names + [name];
      n := n + 1;
    }
  }

  /** The leader assigned to group `m`. */
  function LeaderOf(updated: Calldata, m: nat): nat
    requires m < |updated| && updated[m].Some?
  {
    updated[m].value.0
  }

  /** Every group has an entry, and each leader is the first member of its class and leads itself. */
  ghost predicate Annotated(n: nat, updated: Calldata)
  {
    |updated| == n &&
    (forall m :: 0 <= m < n ==> updated[m].Some?) &&
    forall m :: 0 <= m < n ==> LeaderOf(updated, m) <= m && updated[LeaderOf(updated, m)] == updated[m]
  }

  /** Members of a class share key, leader and name; distinct classes get distinct names. */
  ghost predicate ClassesAgree(groups: seq<GroupBody>, updated: Calldata)
    requires Annotated(|groups|, updated)
  {
    forall i, j :: 0 <= i < |groups| && 0 <= j < |groups| ==>
      (LeaderOf(updated, i) == LeaderOf(updated, j) ==> groups[i].key == groups[j].key && updated[i] == updated[j]) &&
      (LeaderOf(updated, i) != LeaderOf(updated, j) ==> updated[i].value.1 != updated[j].value.1)
  }

  /** What the class loop leaves behind, for the classes of `labels`. */
  ghost predicate ClassAnnotation(groups: seq<GroupBody>, labels: Labels, sets: seq<seq<nat>>, leaders: seq<nat>,
                                  updated: Calldata, names: seq<string>)
  {
    LabelsOk(groups, labels) && sets == Classes(labels) &&
    Partition(sets, |groups|) && (forall c :: 0 <= c < |sets| ==> ClassAt(labels, sets, c)) &&
    |leaders| == |sets| && |names| == |sets| && |updated| == |groups| &&
    (forall c :: 0 <= c < |sets| ==> leaders[c] == sets[c][0]) &&
    (forall c, m :: 0 <= c < |sets| && m in sets[c] ==> updated[m] == Some((sets[c][0], names[c]))) &&
    (forall c, d :: 0 <= c < d < |sets| ==> names[c] != names[d])
  }

  lemma ClassOf(sets: seq<seq<nat>>, n: nat, m: nat) returns (c: nat)
    requires Partition(sets, n) && m < n
    ensures c < |sets| && m in sets[c]
  {
    assert Covered(sets, m);
    var c' :| 0 <= c' < |sets| && m in sets[c'];
    c := c';
  }

  lemma LeaderFacts(groups: seq<GroupBody>, labels: Labels, sets: seq<seq<nat>>, leaders: seq<nat>,
                    updated: Calldata, names: seq<string>, m: nat)
    requires ClassAnnotation(groups, labels, sets, leaders, updated, names) && m < |groups|
    ensures updated[m].Some? && updated[m].value.0 <= m && updated[m].value.0 < |groups|
    ensures updated[updated[m].value.0] == updated[m]
    ensures labels[updated[m].value.0] == labels[m]
    ensures updated[m].value.0 == m ==> m in leaders
  {
    var c := ClassOf(sets, |groups|, m);
    assert ClassAt(labels, sets, c);
    assert sets[c][0] in sets[c];
    if updated[m].value.0 == m {
      assert leaders[c] == m;
    }
  }

  lemma PairFacts(groups: seq<GroupBody>, labels: Labels, sets: seq<seq<nat>>, leaders: seq<nat>,
                  updated: Calldata, names: seq<string>, i: nat, j: nat)
    requires ClassAnnotation(groups, labels, sets, leaders, updated, names) && i < |groups| && j < |groups|
    ensures updated[i].Some? && updated[j].Some?
    ensures updated[i].value.0 == updated[j].value.0 <==> labels[i] == labels[j]
    ensures updated[i].value.0 == updated[j].value.0 ==> updated[i] == updated[j]
    ensures updated[i].value.0 != updated[j].value.0 ==> updated[i].value.1 != updated[j].value.1
  {
    var ci := ClassOf(sets, |groups|, i);
    var cj := ClassOf(sets, |groups|, j);
    assert ClassAt(labels, sets, ci) && ClassAt(labels, sets, cj);
    assert sets[ci][0] in sets[ci] && sets[cj][0] in sets[cj];
    if labels[i] == labels[j] {
      assert j in sets[ci];
    }
    if ci < cj {
      assert names[ci] != names[cj];
    } else if cj < ci {
      assert names[cj] != names[ci];
    }
  }

  lemma AnnotationFacts(groups: seq<GroupBody>, labels: Labels, sets: seq<seq<nat>>, leaders: seq<nat>,
                        updated: Calldata, names: seq<string>)
    requires ClassAnnotation(groups, labels, sets, leaders, updated, names)
    ensures Annotated(|groups|, updated)
    ensures forall x :: x in leaders <==> 0 <= x < |groups| && LeaderOf(updated, x) == x
    ensures ClassesAgree(groups, updated)
    ensures forall i, j :: 0 <= i < |groups| && 0 <= j < |groups| ==>
      (LeaderOf(updated, i) == LeaderOf(updated, j) <==> labels[i] == labels[j])
  {
    AnnotatedFromClasses(groups, labels, sets, leaders, updated, names);
    LeadersLeadThemselves(groups, labels, sets, leaders, updated, names);
    AgreeFromClasses(groups, labels, sets, leaders, updated, names);
  }

  lemma AnnotatedFromClasses(groups: seq<GroupBody>, labels: Labels, sets: seq<seq<nat>>, leaders: seq<nat>,
                             updated: Calldata, names: seq<string>)
    requires ClassAnnotation(groups, labels, sets, leaders, updated, names)
    ensures Annotated(|groups|, updated)
  {
    forall m | 0 <= m < |groups|
      ensures updated[m].Some? && updated[m].value.0 <= m && updated[updated[m].value.0] == updated[m]
    {
      LeaderFacts(groups, labels, sets, leaders, updated, names, m);
    }
  }

  lemma LeadersLeadThemselves(groups: seq<GroupBody>, labels: Labels, sets: seq<seq<nat>>, leaders: seq<nat>,
                              updated: Calldata, names: seq<string>)
    requires ClassAnnotation(groups, labels, sets, leaders, updated, names)
    ensures Annotated(|groups|, updated)
    ensures forall x :: x in leaders <==> 0 <= x < |groups| && LeaderOf(updated, x) == x
  {
    AnnotatedFromClasses(groups, labels, sets, leaders, updated, names);
    forall m | 0 <= m < |groups| && LeaderOf(updated, m) == m
      ensures m in leaders
    {
      LeaderFacts(groups, labels, sets, leaders, updated, names, m);
    }
    forall x | x in leaders
      ensures 0 <= x < |groups| && LeaderOf(updated, x) == x
    {
      var c :| 0 <= c < |sets| && leaders[c] == x;
      assert sets[c][0] in sets[c];
    }
  }

  lemma AgreeFromClasses(groups: seq<GroupBody>, labels: Labels, sets: seq<seq<nat>>, leaders: seq<nat>,
                         updated: Calldata, names: seq<string>)
    requires ClassAnnotation(groups, labels, sets, leaders, updated, names)
    ensures Annotated(|groups|, updated)
    ensures ClassesAgree(groups, updated)
    ensures forall i, j :: 0 <= i < |groups| && 0 <= j < |groups| ==>
      (LeaderOf(updated, i) == LeaderOf(updated, j) <==> labels[i] == labels[j])
  {
    AnnotatedFromClasses(groups, labels, sets, leaders, updated, names);
    forall i, j | 0 <= i < |groups| && 0 <= j < |groups|
      ensures LeaderOf(updated, i) == LeaderOf(updated, j) <==> labels[i] == labels[j]
      ensures LeaderOf(updated, i) == LeaderOf(updated, j) ==> groups[i].key == groups[j].key && updated[i] == updated[j]
      ensures LeaderOf(updated, i) != LeaderOf(updated, j) ==> updated[i].value.1 != updated[j].value.1
    {
      PairFacts(groups, labels, sets, leaders, updated, names, i, j);
      assert groups[labels[i]].key == groups[i].key && groups[labels[j]].key == groups[j].key;
    }
  }

  /** A name chosen by the fresh-name rule starts with the name asked for. */
  lemma FreshNameExtends(name: string, used: set<string>, n: nat, r: string)
    requires FreshGroupNameSpec(name, used, n, r)
    ensures |r| >= |name| && r[..|name|] == name
  {
    if name in used {
      var k: nat :| k >= n && r == Suffixed(name, k) && forall j: nat :: n <= j < k ==> Suffixed(name, j) in used;
    }
  }

  /**
   * `select_leaders`: the leaders, and for every group the leader of its class
   * with the class's fresh name.
   */
  method SelectLeaders(groups: seq<GroupBody>, eqv: (nat, nat) -> bool) returns (leaders: seq<nat>, updated: Calldata)
    requires IdsAreIndices(groups)
    ensures Annotated(|groups|, updated)
    ensures forall x :: x in leaders <==> 0 <= x < |groups| && LeaderOf(updated, x) == x
    ensures ClassesAgree(groups, updated)
    ensures forall i, j :: (0 <= i < |groups| && 0 <= j < |groups| && i != j && !IsMain(groups[i]) &&
      groups[i].key == groups[j].key && eqv(i, j)) ==> updated[i] == updated[j]
    ensures forall i, j :: (0 <= i < |groups| && 0 <= j < |groups| && IsMain(groups[i]) &&
      LeaderOf(updated, j) == i) ==> j == i
    ensures forall x :: x in leaders ==>
      |updated[x].value.1| >= |groups[x].name| && updated[x].value.1[..|groups[x].name|] == groups[x].name
    ensures forall i, j :: 0 <= i < |groups| && 0 <= j < |groups| && LeaderOf(updated, i) == LeaderOf(updated, j) ==>
      i == j || Connected(groups, eqv, i, j)
    ensures IsEquivalence(eqv) ==> forall i, j :: 0 <= i < |groups| && 0 <= j < |groups| && i != j ==>
      (LeaderOf(updated, i) == LeaderOf(updated, j) <==> !IsMain(groups[i]) && groups[i].key == groups[j].key && eqv(i, j))
  {
    var labels := ComputeLabels(groups, eqv);
    var sets := Classes(labels);
    ClassesPartition(labels);
    ghost var names;
    leaders, updated, names := AnnotateClasses(groups, sets);
    AnnotationFacts(groups, labels, sets, leaders, updated, names);
    if IsEquivalence(eqv) {
      ClassesAreEquivalenceClasses(groups, eqv, labels);
    }
    forall i, j | 0 <= i < |groups| && 0 <= j < |groups| && IsMain(groups[i]) && LeaderOf(updated, j) == i
      ensures j == i
    {
      assert LeaderOf(updated, i) == i;
      assert labels[j] == labels[i] == i;
    }
    forall x | x in leaders
      ensures |updated[x].value.1| >= |groups[x].name| && updated[x].value.1[..|groups[x].name|] == groups[x].name
    {
      var c :| 0 <= c < |sets| && leaders[c] == x;
      assert x in sets[c];
      FreshNameExtends(groups[x].name, NameSet(names[..c]), c, names[c]);
    }
  }

  // ---------------------------------------------------------------- renaming and retaining

  /** Callsite ids and the group id index the calldata. */
  predicate Indexable(g: GroupBody, updated: Calldata)
  {
    g.id < |updated| && forall i :: 0 <= i < |g.callsites| ==> g.callsites[i].calleeId < |updated|
  }

  function Redirect(cs: CallSite, updated: Calldata): CallSite
    requires cs.calleeId < |updated|
  {
    if updated[cs.calleeId].Some? then
      cs.(calleeId := updated[cs.calleeId].value.0, name := updated[cs.calleeId].value.1)
    else cs
  }

  /** The group after `update_names`. */
  function Renamed(g: GroupBody, updated: Calldata): (r: GroupBody)
    requires Indexable(g, updated)
    ensures updated[g.id].Some? ==> r.name == updated[g.id].value.1 && r.id == updated[g.id].value.0
    ensures updated[g.id].None? ==> r.name == g.name && r.id == g.id
    ensures r.key == g.key && r.inputCount == g.inputCount && r.outputCount == g.outputCount
    ensures |r.callsites| == |g.callsites|
    ensures forall i :: 0 <= i < |g.callsites| ==> var cs := g.callsites[i];
      r.callsites[i].inputs == cs.inputs && r.callsites[i].outputs == cs.outputs &&
      r.callsites[i].outputVars == cs.outputVars &&
      (updated[cs.calleeId].Some? ==> r.callsites[i].calleeId == updated[cs.calleeId].value.0 &&
                                      r.callsites[i].name == updated[cs.calleeId].value.1) &&
      (updated[cs.calleeId].None? ==> r.callsites[i] == cs)
  {
    var named := if updated[g.id].Some? then g.(name := updated[g.id].value.1, id := updated[g.id].value.0) else g;
    named.(callsites := seq(|g.callsites|, i requires 0 <= i < |g.callsites| => Redirect(g.callsites[i], updated)))
  }

  /** `update_names`: renames the group and redirects its call sites. */
  method UpdateNames(g: GroupBody, updated: Calldata) returns (r: GroupBody)
    requires Indexable(g, updated)
    ensures r == Renamed(g, updated)
  {
    r := g;
    if updated[g.id].Some? {
      r := r.(name := updated[g.id].value.1, id := updated[g.id].value.0);
    }
    var callsites := g.callsites;
    var i := 0;
    while i < |callsites|
      invariant 0 <= i <= |callsites| && |callsites| == |g.callsites|
      invariant forall k :: 0 <= k < i ==> callsites[k] == Redirect(g.callsites[k], updated)
      invariant forall k :: i <= k < |callsites| ==> callsites[k] == g.callsites[k]
    {
      callsites := callsites[i := Redirect(callsites[i], updated)];
      i := i + 1;
    }
    r := r.(callsites := callsites);
  }

  /** Whether `retain_mut` keeps the group. */
  predicate Keep(g: GroupBody, leaders: seq<nat>)
  {
    IsMain(g) || g.id in leaders
  }

  /** The main group and the leaders, renamed, in their original order. */
  function Kept(groups: seq<GroupBody>, leaders: seq<nat>, updated: Calldata): seq<GroupBody>
    requires forall i :: 0 <= i < |groups| ==> Indexable(groups[i], updated)
  {
    if groups == [] then []
    else
      var init := groups[..|groups| - 1];
      var last := groups[|groups| - 1];
      Kept(init, leaders, updated) + (if Keep(last, leaders) then [Renamed(last, updated)] else [])
  }

  /** `retain_mut` in the strategy: keeps main and the leaders, renaming each kept group. */
  method RetainLeaders(groups: seq<GroupBody>, leaders: seq<nat>, updated: Calldata) returns (out: seq<GroupBody>)
    requires forall i :: 0 <= i < |groups| ==> Indexable(groups[i], updated)
    ensures out == Kept(groups, leaders, updated)
  {
    out := [];
    var i := 0;
    while i < |groups|
      invariant 0 <= i <= |groups|
      invariant out == Kept(groups[..i], leaders, updated)
    {
      assert groups[..i + 1][..i] == groups[..i];
      var g := groups[i];
      if Keep(g, leaders) {
        var g' := UpdateNames(g, updated);
        out := out + [g'];
      }
      i := i + 1;
    }
    assert groups[..i] == groups;
  }

  lemma {:induction false} KeptMembers(groups: seq<GroupBody>, leaders: seq<nat>, updated: Calldata)
    requires forall i :: 0 <= i < |groups| ==> Indexable(groups[i], updated)
    ensures forall o :: o in Kept(groups, leaders, updated) <==>
      exists i :: 0 <= i < |groups| && Keep(groups[i], leaders) && o == Renamed(groups[i], updated)
  {
    if groups != [] {
      var init := groups[..|groups| - 1];
      KeptMembers(init, leaders, updated);
      assert forall i :: 0 <= i < |init| ==> init[i] == groups[i];
    }
  }

  /**
   * After `select_leaders`, the kept groups' names are pairwise distinct and
   * every call site of a kept group calls a kept group under that group's name.
   */
  lemma KeptGroupsAreConsistent(groups: seq<GroupBody>, leaders: seq<nat>, updated: Calldata)
    requires IdsAreIndices(groups) && Annotated(|groups|, updated) && ClassesAgree(groups, updated)
    requires forall x :: x in leaders <==> 0 <= x < |groups| && LeaderOf(updated, x) == x
    requires forall i, j :: 0 <= i < |groups| && 0 <= j < |groups| && IsMain(groups[i]) && LeaderOf(updated, j) == i ==> j == i
    requires forall i :: 0 <= i < |groups| ==> Indexable(groups[i], updated)
    ensures forall i, j :: (0 <= i < |groups| && 0 <= j < |groups| && i != j && Keep(groups[i], leaders) &&
      Keep(groups[j], leaders)) ==> Renamed(groups[i], updated).name != Renamed(groups[j], updated).name
    ensures forall i, k :: 0 <= i < |groups| && Keep(groups[i], leaders) && 0 <= k < |groups[i].callsites| ==>
      var cs := Renamed(groups[i], updated).callsites[k];
      cs.calleeId < |groups| && Keep(groups[cs.calleeId], leaders) &&
      Renamed(groups[cs.calleeId], updated).name == cs.name
  {
    forall i | 0 <= i < |groups| && Keep(groups[i], leaders)
      ensures LeaderOf(updated, i) == i
    {
      assert groups[i].id == i;
    }
    forall i, k | 0 <= i < |groups| && Keep(groups[i], leaders) && 0 <= k < |groups[i].callsites|
      ensures var cs := Renamed(groups[i], updated).callsites[k];
        cs.calleeId < |groups| && Keep(groups[cs.calleeId], leaders) &&
        Renamed(groups[cs.calleeId], updated).name == cs.name
    {
      var callee := groups[i].callsites[k].calleeId;
      var l := LeaderOf(updated, callee);
      assert l in leaders && groups[l].id == l;
      assert updated[l] == updated[callee];
    }
  }
}
