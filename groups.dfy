/**
 * The group tree built during synthesis: groups declared by the circuit nest
 * under a top-level group; a builder keeps the pending groups on a stack, and
 * the finished tree is flattened into a vector where each group refers to its
 * children by index.
 */
module Groups {
  import opened Wrappers
  import opened Columns

  /** The circuit itself, or a group identified by its key. */
  datatype GroupKind = TopLevel | Group(key: nat)

  /** A cell assigned during synthesis, or an instance or advice cell declared as circuit IO. */
  datatype GroupCell =
    | Assigned(column: Column, rowOffset: nat, regionIndex: nat)
    | InstanceIO(col: nat, ioRow: nat)
    | AdviceIO(col: nat, ioRow: nat)

  function Row(c: GroupCell): nat
  {
    match c
    case Assigned(_, r, _) => r
    case InstanceIO(_, r) => r
    case AdviceIO(_, r) => r
  }

  function Col(c: GroupCell): Column
  {
    match c
    case Assigned(col, _, _) => col
    case InstanceIO(i, _) => Column(i, Instance)
    case AdviceIO(i, _) => Column(i, Advice)
  }

  function IsFixed(c: GroupCell): (r: bool)
    ensures r <==> c.Assigned? && c.column.kind.Fixed?
  {
    c.Assigned? && c.column.kind == Fixed
  }

  /** `from_tuple`: instance and advice columns give IO cells; fixed columns give nothing. */
  function FromTuple(col: Column, row: nat): (r: Option<GroupCell>)
    ensures r.None? <==> col.kind.Fixed?
    ensures r.Some? ==> Col(r.value) == col && Row(r.value) == row && !r.value.Assigned?
  {
    if col.kind == Instance then Some(InstanceIO(col.index, row))
    else if col.kind == Advice then Some(AdviceIO(col.index, row))
    else None
  }

  datatype GroupTree = GroupTree(kind: GroupKind, name: Option<string>, inputs: seq<GroupCell>,
                                 outputs: seq<GroupCell>, children: seq<GroupTree>)

  function TopLevelTree(): GroupTree
  {
    GroupTree(TopLevel, None, [], [], [])
  }

  function NewTree(name: string, key: nat): GroupTree
  {
    GroupTree(Group(key), Some(name), [], [], [])
  }

  /** `GroupTree::name`. */
  function TreeName(t: GroupTree): (r: string)
    ensures t.name.Some? ==> r == t.name.value
    ensures t.name.None? ==> r == "<no name>"
  {
    if t.name.Some? then t.name.value else "<no name>"
  }

  /** A flat group: children are indices into the flattened vector. */
  datatype FlatGroup = FlatGroup(kind: GroupKind, name: Option<string>, inputs: seq<GroupCell>,
                                 outputs: seq<GroupCell>, children: seq<nat>)

  /** `Group::name`: "Main" for the top level; a missing or empty name becomes "unnamed_group". */
  function Name(g: FlatGroup): (r: string)
    ensures g.kind.TopLevel? ==> r == "Main"
    ensures !g.kind.TopLevel? && (g.name.None? || g.name.value == "") ==> r == "unnamed_group"
    ensures !g.kind.TopLevel? && g.name.Some? && g.name.value != "" ==> r == g.name.value
    ensures r != ""
  {
    if g.kind == TopLevel then "Main"
    else if g.name.None? || g.name.value == "" then "unnamed_group"
    else g.name.value
  }

  /** `has_child`: the position of index `n` among the children. */
  function HasChild(g: FlatGroup, n: nat): (r: Option<nat>)
    ensures r.None? <==> n !in g.children
    ensures r.Some? ==> r.value < |g.children| && g.children[r.value] == n &&
                        forall k :: 0 <= k < r.value ==> g.children[k] != n
  {
    Position(g.children, n)
  }

  function Position(s: seq<nat>, n: nat): (r: Option<nat>)
    ensures r.None? <==> n !in s
    ensures r.Some? ==> r.value < |s| && s[r.value] == n && forall k :: 0 <= k < r.value ==> s[k] != n
  {
    if s == [] then None
    else if s[0] == n then Some(0)
    else
      var r := Position(s[1..], n);
      if r.None? then None else Some(r.value + 1)
  }

  /** The number of groups in a tree. */
  function Size(t: GroupTree): nat
    decreases t, 1
  {
    1 + SizeList(t.children)
  }

  function SizeList(ts: seq<GroupTree>): nat
    decreases ts, 0
  {
    if ts == [] then 0 else Size(ts[0]) + SizeList(ts[1..])
  }

  /**
   * `flatten_impl` appended at absolute position `base`: the children's groups
   * first, each child's own group last in its block, then this group.
   */
  function FlattenTree(t: GroupTree, base: nat): (r: seq<FlatGroup>)
    decreases t, 1
  {
    var listed := FlattenList(t.children, base);
    listed.0 + [FlatGroup(t.kind, t.name, t.inputs, t.outputs, listed.1)]
  }

  /** The flattened children and the indices of their own groups. */
  function FlattenList(ts: seq<GroupTree>, base: nat): (r: (seq<FlatGroup>, seq<nat>))
    decreases ts, 0
  {
    if ts == [] then ([], [])
    else
      var g0 := FlattenTree(ts[0], base);
      var rest := FlattenList(ts[1..], base + |g0|);
      (g0 + rest.0, [base + |g0| - 1] + rest.1)
  }

  /** Every group's children sit before it in the vector, within the block written after `base`. */
  predicate ChildrenEarlier(gs: seq<FlatGroup>, base: nat)
  {
    forall k, c :: 0 <= k < |gs| && c in gs[k].children ==> base <= c < base + k
  }

  lemma {:induction false} FlattenTreeShape(t: GroupTree, base: nat)
    ensures |FlattenTree(t, base)| == Size(t)
    ensures ChildrenEarlier(FlattenTree(t, base), base)
    ensures var gs := FlattenTree(t, base);
      gs[|gs| - 1] == FlatGroup(t.kind, t.name, t.inputs, t.outputs, FlattenList(t.children, base).1)
    decreases t, 1
  {
    FlattenListShape(t.children, base);
    var gs, idx := FlattenList(t.children, base).0, FlattenList(t.children, base).1;
    var all := gs + [FlatGroup(t.kind, t.name, t.inputs, t.outputs, idx)];
    forall k, c | 0 <= k < |all| && c in all[k].children
      ensures base <= c < base + k
    {
      if k < |gs| {
        assert all[k] == gs[k];
      }
    }
  }

  lemma {:induction false} FlattenListShape(ts: seq<GroupTree>, base: nat)
    ensures |FlattenList(ts, base).0| == SizeList(ts)
    ensures |FlattenList(ts, base).1| == |ts|
    ensures ChildrenEarlier(FlattenList(ts, base).0, base)
    ensures forall i :: 0 <= i < |ts| ==> base <= FlattenList(ts, base).1[i] < base + SizeList(ts)
    decreases ts, 0
  {
    if ts != [] {
      FlattenTreeShape(ts[0], base);
      var g0 := FlattenTree(ts[0], base);
      FlattenListShape(ts[1..], base + |g0|);
      var rest := FlattenList(ts[1..], base + |g0|);
      var all := g0 + rest.0;
      forall k, c | 0 <= k < |all| && c in all[k].children
        ensures base <= c < base + k
      {
        if k < |g0| {
          assert all[k] == g0[k];
        } else {
          assert all[k] == rest.0[k - |g0|];
        }
      }
    }
  }

  /** Flattening a whole tree: one group per node, children before parents, the root last. */
  lemma FlattenedRootIsLast(t: GroupTree)
    ensures var gs := FlattenTree(t, 0);
      |gs| == Size(t) && gs[|gs| - 1].kind == t.kind && ChildrenEarlier(gs, 0)
  {
    FlattenTreeShape(t, 0);
  }

  lemma {:induction false} FlattenListSnoc(ts: seq<GroupTree>, t: GroupTree, base: nat)
    ensures var listed := FlattenList(ts, base);
      var g := FlattenTree(t, base + |listed.0|);
      FlattenList(ts + [t], base) == (listed.0 + g, listed.1 + [base + |listed.0| + |g| - 1])
    decreases ts
  {
    if ts == [] {
      assert ts + [t] == [t];
      assert [t][1..] == [];
      var g := FlattenTree(t, base);
      assert FlattenList([], base) == ([], []);
      assert FlattenList([][..], base + |g|) == ([], []);
      assert FlattenList([t], base) == (g + [], [base + |g| - 1] + []);
      assert g + [] == [] + g;
      assert [base + |g| - 1] + [] == [] + [base + 0 + |g| - 1];
    } else {
      assert (ts + [t])[1..] == ts[1..] + [t];
      assert (ts + [t])[0] == ts[0];
      var g0 := FlattenTree(ts[0], base);
      FlattenListSnoc(ts[1..], t, base + |g0|);
      var rest := FlattenList(ts[1..], base + |g0|);
      var g := FlattenTree(t, base + |g0| + |rest.0|);
      assert FlattenList(ts, base) == (g0 + rest.0, [base + |g0| - 1] + rest.1);
      assert FlattenList(ts[1..] + [t], base + |g0|) == (rest.0 + g, rest.1 + [base + |g0| + |rest.0| + |g| - 1]);
      assert g0 + (rest.0 + g) == (g0 + rest.0) + g;
      assert [base + |g0| - 1] + (rest.1 + [base + |g0| + |rest.0| + |g| - 1]) ==
        ([base + |g0| - 1] + rest.1) + [base + |g0| + |rest.0| + |g| - 1];
    }
  }

  /** The sanity check of `Group::new`: a top-level group holds no assigned cells. */
  predicate TopLevelIOOnly(kind: GroupKind, inputs: seq<GroupCell>, outputs: seq<GroupCell>)
  {
    kind.TopLevel? ==> (forall c :: c in inputs ==> !c.Assigned?) && (forall c :: c in outputs ==> !c.Assigned?)
  }

  /** Every node of the tree passes the sanity check of `Group::new`. */
  predicate WellFormed(t: GroupTree)
    decreases t
  {
    TopLevelIOOnly(t.kind, t.inputs, t.outputs) && forall i :: 0 <= i < |t.children| ==> WellFormed(t.children[i])
  }

  /** `flatten_impl`: flattens the children in order, then pushes this group. */
  method FlattenImpl(t: GroupTree, groups: seq<FlatGroup>) returns (out: seq<FlatGroup>)
    requires WellFormed(t)
    ensures out == groups + FlattenTree(t, |groups|)
    decreases t
  {
    var gs := groups;
    var childIndices: seq<nat> := [];
    var i := 0;
    assert t.children[..0] == [];
    assert gs[|groups|..] == [];
    assert FlattenList([], |groups|) == ([], []);
    while i < |t.children|
      invariant ListedUpTo(t, groups, gs, childIndices, i)
    {
      var before := gs;
      gs := FlattenImpl(t.children[i], gs);
      FlattenStep(t, groups, before, gs, childIndices, i);
      childIndices := childIndices + [|gs| - 1];
      i := i + 1;
    }
    assert t.children[..i] == t.children;
    out := gs + [FlatGroup(t.kind, t.name, t.inputs, t.outputs, childIndices)];
    assert gs == groups + gs[|groups|..];
  }

  /** After `i` children, `gs` extends `groups` by their flattening and `childIndices` lists their roots. */
  ghost predicate ListedUpTo(t: GroupTree, groups: seq<FlatGroup>, gs: seq<FlatGroup>, childIndices: seq<nat>, i: nat)
  {
    i <= |t.children| && |groups| <= |gs| && gs[..|groups|] == groups &&
    (gs[|groups|..], childIndices) == FlattenList(t.children[..i], |groups|)
  }

  /** One child flattened after the others. */
  lemma FlattenStep(t: GroupTree, groups: seq<FlatGroup>, before: seq<FlatGroup>, gs: seq<FlatGroup>,
                    childIndices: seq<nat>, i: nat)
    requires i < |t.children| && ListedUpTo(t, groups, before, childIndices, i)
    requires gs == before + FlattenTree(t.children[i], |before|)
    ensures ListedUpTo(t, groups, gs, childIndices + [|gs| - 1], i + 1)
  {
    var prefix, child := t.children[..i], t.children[i];
    assert t.children[..i + 1] == prefix + [child];
    var listed := FlattenList(prefix, |groups|);
    assert before[|groups|..] == listed.0 && childIndices == listed.1;
    assert |before| == |groups| + |listed.0|;
    var g := FlattenTree(child, |before|);
    FlattenListSnoc(prefix, child, |groups|);
    ConcatSlices(before, g, |groups|);
    assert gs[|groups|..] == listed.0 + g;
    assert |gs| - 1 == |groups| + |listed.0| + |g| - 1;
  }

  lemma ConcatSlices<X>(a: seq<X>, b: seq<X>, k: nat)
    requires k <= |a|
    ensures (a + b)[..k] == a[..k] && (a + b)[k..] == a[k..] + b
  {
  }

  /** `flatten`: the tree as a vector, root last. */
  method Flatten(t: GroupTree) returns (groups: seq<FlatGroup>)
    requires WellFormed(t)
    ensures groups == FlattenTree(t, 0)
    ensures |groups| == Size(t) && groups[|groups| - 1].kind == t.kind && ChildrenEarlier(groups, 0)
  {
    groups := FlattenImpl(t, []);
    FlattenedRootIsLast(t);
  }

  /** `Groups::top_level`: the last top-level group of the vector. */
  function TopLevelIndex(gs: seq<FlatGroup>): (r: Option<nat>)
    ensures r.None? <==> forall k :: 0 <= k < |gs| ==> !gs[k].kind.TopLevel?
    ensures r.Some? ==> r.value < |gs| && gs[r.value].kind.TopLevel? &&
                        forall k :: r.value < k < |gs| ==> !gs[k].kind.TopLevel?
  {
    if gs == [] then None
    else if gs[|gs| - 1].kind.TopLevel? then Some(|gs| - 1)
    else TopLevelIndex(gs[..|gs| - 1])
  }

  /** Flattening a top-level tree, `top_level` finds the root at the end of the vector. */
  lemma TopLevelIsRoot(t: GroupTree)
    requires t.kind.TopLevel?
    ensures TopLevelIndex(FlattenTree(t, 0)) == Some(Size(t) - 1)
  {
    FlattenTreeShape(t, 0);
  }

  /** The builder's state: the root and the stack of pending groups. */
  datatype BuilderState = BuilderState(root: GroupTree, stack: seq<GroupTree>)

  function Current(s: BuilderState): GroupTree
  {
    if s.stack == [] then s.root else s.stack[|s.stack| - 1]
  }

  /** Replaces the group being built. */
  function SetCurrent(s: BuilderState, g: GroupTree): (r: BuilderState)
    ensures Current(r) == g && |r.stack| == |s.stack|
    ensures s.stack != [] ==> r.root == s.root && r.stack[..|r.stack| - 1] == s.stack[..|s.stack| - 1]
  {
    if s.stack == [] then BuilderState(g, []) else BuilderState(s.root, s.stack[..|s.stack| - 1] + [g])
  }

  function AddChild(g: GroupTree, child: GroupTree): GroupTree
  {
    g.(children := g.children + [child])
  }

  function PushStep(s: BuilderState, name: string, key: nat): (r: BuilderState)
    ensures Current(r) == NewTree(name, key) && r.root == s.root && |r.stack| == |s.stack| + 1 &&
      r.stack[..|s.stack|] == s.stack
  {
    BuilderState(s.root, s.stack + [NewTree(name, key)])
  }

  /** `pop`: the top group becomes the last child of the group under it; an empty stack is an error. */
  function PopStep(s: BuilderState): (r: Result<BuilderState>)
    ensures r.Err? <==> s.stack == []
  {
    if s.stack == [] then Err("No pending groups")
    else
      var g := s.stack[|s.stack| - 1];
      var below := BuilderState(s.root, s.stack[..|s.stack| - 1]);
      Ok(SetCurrent(below, AddChild(Current(below), g)))
  }

  /** `add_input` and `add_output`: fixed-column cells are ignored. */
  function AddInputStep(s: BuilderState, c: GroupCell): (r: BuilderState)
    ensures IsFixed(c) ==> r == s
    ensures !IsFixed(c) ==> Current(r) == Current(s).(inputs := Current(s).inputs + [c])
  {
    if IsFixed(c) then s else SetCurrent(s, Current(s).(inputs := Current(s).inputs + [c]))
  }

  function AddOutputStep(s: BuilderState, c: GroupCell): (r: BuilderState)
    ensures IsFixed(c) ==> r == s
    ensures !IsFixed(c) ==> Current(r) == Current(s).(outputs := Current(s).outputs + [c])
  {
    if IsFixed(c) then s else SetCurrent(s, Current(s).(outputs := Current(s).outputs + [c]))
  }

  /** `into_root`: the root, or an error while groups are pending. */
  function IntoRoot(s: BuilderState): (r: Result<GroupTree>)
    ensures r.Ok? <==> s.stack == []
    ensures r.Ok? ==> r.value == s.root
  {
    if s.stack != [] then Err("Builder has pending groups") else Ok(s.root)
  }

  /** The root is the only top-level group the builder holds. */
  predicate BuilderValid(s: BuilderState)
  {
    s.root.kind.TopLevel? && forall i :: 0 <= i < |s.stack| ==> s.stack[i].kind.Group?
  }

  lemma StepsKeepBuilderValid(s: BuilderState, name: string, key: nat, c: GroupCell)
    requires BuilderValid(s)
    ensures BuilderValid(PushStep(s, name, key))
    ensures PopStep(s).Ok? ==> BuilderValid(PopStep(s).value)
    ensures BuilderValid(AddInputStep(s, c)) && BuilderValid(AddOutputStep(s, c))
  {
  }

  /** A push followed by a pop makes the new group the last child of the group that was current. */
  lemma PushThenPop(s: BuilderState, name: string, key: nat)
    ensures PopStep(PushStep(s, name, key)).Ok?
    ensures var r := PopStep(PushStep(s, name, key)).value;
      Current(r) == AddChild(Current(s), NewTree(name, key)) && |r.stack| == |s.stack|
  {
    assert (s.stack + [NewTree(name, key)])[..|s.stack|] == s.stack;
  }

  /** A fresh builder's root IO goes to the root, which is then handed out. */
  lemma RootIoOnFreshBuilder(c: GroupCell)
    requires !IsFixed(c)
    ensures IntoRoot(AddInputStep(BuilderState(TopLevelTree(), []), c)) ==
      Ok(TopLevelTree().(inputs := [c]))
  {
    assert TopLevelTree().inputs + [c] == [c];
  }

  class GroupBuilder {
    var root: GroupTree
    var stack: seq<GroupTree>

    function State(): BuilderState
      reads this
    {
      BuilderState(root, stack)
    }

    /** `new`: a top-level root and no pending groups. */
    constructor ()
      ensures State() == BuilderState(TopLevelTree(), [])
    {
      root := TopLevelTree();
      stack := [];
    }

    method Push(name: string, key: nat)
      modifies this
      ensures State() == PushStep(old(State()), name, key)
    {
      stack := stack + [NewTree(name, key)];
    }

    method Pop() returns (r: Result<()>)
      modifies this
      ensures r.Err? <==> PopStep(old(State())).Err?
      ensures r.Ok? ==> State() == PopStep(old(State())).value
      ensures r.Err? ==> State() == old(State())
    {
      if stack == [] {
        return Err("No pending groups");
      }
      var g := stack[|stack| - 1];
      stack := stack[..|stack| - 1];
      var s := SetCurrent(State(), AddChild(Current(State()), g));
      root, stack := s.root, s.stack;
      r := Ok(());
    }

    method AddInput(c: GroupCell)
      modifies this
      ensures State() == AddInputStep(old(State()), c)
    {
      if !IsFixed(c) {
        var s := SetCurrent(State(), Current(State()).(inputs := Current(State()).inputs + [c]));
        root, stack := s.root, s.stack;
      }
    }

    method AddOutput(c: GroupCell)
      modifies this
      ensures State() == AddOutputStep(old(State()), c)
    {
      if !IsFixed(c) {
        var s := SetCurrent(State(), Current(State()).(outputs := Current(State()).outputs + [c]));
        root, stack := s.root, s.stack;
      }
    }

    /** `add_root_input`: appends to the current group, which is the root while no group is pending. */
    method AddRootInput(c: GroupCell)
      modifies this
      ensures State() == SetCurrent(old(State()), Current(old(State())).(inputs := Current(old(State())).inputs + [c]))
      ensures old(stack) == [] ==> root == old(root).(inputs := old(root).inputs + [c]) && stack == []
    {
      var s := SetCurrent(State(), Current(State()).(inputs := Current(State()).inputs + [c]));
      root, stack := s.root, s.stack;
    }

    method AddRootOutput(c: GroupCell)
      modifies this
      ensures State() == SetCurrent(old(State()), Current(old(State())).(outputs := Current(old(State())).outputs + [c]))
      ensures old(stack) == [] ==> root == old(root).(outputs := old(root).outputs + [c]) && stack == []
    {
      var s := SetCurrent(State(), Current(State()).(outputs := Current(State()).outputs + [c]));
      root, stack := s.root, s.stack;
    }
  }
}
