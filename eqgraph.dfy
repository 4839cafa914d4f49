/**
 * The graph of copy constraints collected during synthesis. Field constants
 * cannot be ordered, so they are kept in a deduplicated storage list and the
 * graph's nodes refer to them by index.
 */
module EqGraph {
  import opened Wrappers
  import opened Columns

  /** A node: a field constant, a cell of any column, or a fixed cell. */
  datatype EqConstraintArg = Const(f: nat) | AnyCell(col: Column, row: nat) | FixedCell(col: Column, row: nat)

  /** The storage form of a node: constants are replaced by their storage index. */
  datatype ArgSto = ConstIdx(idx: nat) | AnySto(col: Column, row: nat) | FixedSto(col: Column, row: nat)

  /** A copy constraint: between two cells, or between a fixed cell and a constant. */
  datatype EqConstraint =
    | AnyToAny(from: Column, fromRow: nat, to: Column, toRow: nat)
    | FixedToConst(fixed: Column, row: nat, value: nat)

  /** `vertices`: the two endpoints, cell first for a fixed-to-constant edge. */
  function Vertices(e: EqConstraint): (EqConstraintArg, EqConstraintArg)
  {
    match e
    case AnyToAny(c1, r1, c2, r2) => (AnyCell(c1, r1), AnyCell(c2, r2))
    case FixedToConst(c, r, f) => (FixedCell(c, r), Const(f))
  }

  /** The same constraint read in the other direction. */
  function Reversed(e: EqConstraint): EqConstraint
  {
    match e
    case AnyToAny(c1, r1, c2, r2) => AnyToAny(c2, r2, c1, r1)
    case FixedToConst(_, _, _) => e
  }

  /** `iter().position`: the first index holding `f`. */
  function Position(s: seq<nat>, f: nat): (r: Option<nat>)
    ensures r.None? <==> f !in s
    ensures r.Some? ==> r.value < |s| && s[r.value] == f && forall j :: 0 <= j < r.value ==> s[j] != f
  {
    if s == [] then None
    else if s[0] == f then Some(0)
    else
      var r := Position(s[1..], f);
      if r.None? then None else Some(r.value + 1)
  }

  predicate Distinct(s: seq<nat>)
  {
    forall i, j :: 0 <= i < j < |s| ==> s[i] != s[j]
  }

  /** The node a storage form stands for. */
  function FromSto(s: ArgSto, storage: seq<nat>): EqConstraintArg
    requires s.ConstIdx? ==> s.idx < |storage|
  {
    match s
    case ConstIdx(i) => Const(storage[i])
    case AnySto(c, r) => AnyCell(c, r)
    case FixedSto(c, r) => FixedCell(c, r)
  }

  /** `to_sto_ro`: the storage form, or `None` for a constant that was never stored. */
  function ToStoRo(a: EqConstraintArg, storage: seq<nat>): (r: Option<ArgSto>)
    ensures r.None? <==> a.Const? && a.f !in storage
    ensures r.Some? ==> (r.value.ConstIdx? ==> r.value.idx < |storage|) && FromSto(r.value, storage) == a
  {
    match a
    case Const(f) =>
      var p := Position(storage, f);
      if p.None? then None else Some(ConstIdx(p.value))
    case AnyCell(c, r) => Some(AnySto(c, r))
    case FixedCell(c, r) => Some(FixedSto(c, r))
  }

  /** Over a duplicate-free storage, distinct nodes have distinct storage forms. */
  lemma ToStoRoInjective(a: EqConstraintArg, b: EqConstraintArg, storage: seq<nat>)
    requires ToStoRo(a, storage).Some? && ToStoRo(b, storage).Some?
    ensures ToStoRo(a, storage) == ToStoRo(b, storage) <==> a == b
  {
  }

  /** The pair shapes `add` can store: cell to cell, or fixed cell to constant. */
  predicate Compatible(p: (ArgSto, ArgSto))
  {
    (p.0.AnySto? && p.1.AnySto?) || (p.0.FixedSto? && p.1.ConstIdx?)
  }

  function ToConstraint(p: (ArgSto, ArgSto), storage: seq<nat>): EqConstraint
    requires Compatible(p)
    requires p.1.ConstIdx? ==> p.1.idx < |storage|
  {
    if p.0.AnySto? then AnyToAny(p.0.col, p.0.row, p.1.col, p.1.row)
    else FixedToConst(p.0.col, p.0.row, storage[p.1.idx])
  }

  class EqConstraintGraph {
    var edges: set<(ArgSto, ArgSto)>
    var vertices: set<ArgSto>
    var storage: seq<nat>

    /**
     * Constants are stored once each, every stored index is in range, and every
     * edge is a proper, loop-free pair of recorded vertices.
     */
    ghost predicate Valid()
      reads this
    {
      Distinct(storage) &&
      (forall v :: v in vertices ==> (v.ConstIdx? ==> v.idx < |storage|)) &&
      (forall p :: p in edges ==> p.0 in vertices && p.1 in vertices && p.0 != p.1 && Compatible(p))
    }

    constructor ()
      ensures Valid() && edges == {} && vertices == {} && storage == []
    {
      edges, vertices, storage := {}, {}, [];
    }

    /** `contains`: the edge is stored in either direction; never for an unstored constant. */
    predicate Contains(e: EqConstraint)
      reads this
    {
      var sf, st := ToStoRo(Vertices(e).0, storage), ToStoRo(Vertices(e).1, storage);
      sf.Some? && st.Some? && ((sf.value, st.value) in edges || (st.value, sf.value) in edges)
    }

    /** `edges`: every stored pair turned back into a constraint. */
    ghost function Edges(): set<EqConstraint>
      reads this
      requires Valid()
    {
      set p | p in edges :: ToConstraint(p, storage)
    }

    /** `vertices`: every recorded node turned back into a node. */
    ghost function Nodes(): set<EqConstraintArg>
      reads this
      requires Valid()
    {
      set v | v in vertices :: FromSto(v, storage)
    }

    /** `to_sto`: a constant reuses its storage index when present and is appended otherwise. */
    method ToSto(a: EqConstraintArg) returns (s: ArgSto)
      requires Valid()
      modifies this
      ensures Valid() && edges == old(edges) && vertices == old(vertices)
      ensures a.Const? && a.f in old(storage) ==> storage == old(storage) && s == ConstIdx(Position(old(storage), a.f).value)
      ensures a.Const? && a.f !in old(storage) ==> storage == old(storage) + [a.f] && s == ConstIdx(|old(storage)|)
      ensures !a.Const? ==> storage == old(storage)
      ensures ToStoRo(a, storage) == Some(s)
    {
      match a
      case Const(f) =>
        var p := Position(storage, f);
        if p.Some? {
          s := ConstIdx(p.value);
        } else {
          s := ConstIdx(|storage|);
          storage := storage + [f];
          assert Position(storage, f).value == |storage| - 1;
        }
      case AnyCell(c, r) => s := AnySto(c, r);
      case FixedCell(c, r) => s := FixedSto(c, r);
    }

    /**
     * `add`: a self-loop is refused; an edge already present in either
     * direction changes nothing but the constant storage; a new edge is stored
     * with both endpoints recorded as vertices.
     */
    method Add(e: EqConstraint) returns (r: Result<()>)
      requires Valid()
      modifies this
      ensures Valid()
      ensures storage == old(storage) + (if e.FixedToConst? && e.value !in old(storage) then [e.value] else [])
      ensures r.Err? <==> Vertices(e).0 == Vertices(e).1
      ensures r.Ok? ==> Contains(e)
      ensures r.Ok? ==> Vertices(e).0 in Nodes() && Vertices(e).1 in Nodes()
      ensures r.Ok? ==> e in Edges() || Reversed(e) in Edges()
      ensures r.Ok? && old(Contains(e)) ==> edges == old(edges) && vertices == old(vertices)
      ensures r.Ok? && !old(Contains(e)) ==>
        var p := (ToStoRo(Vertices(e).0, storage).value, ToStoRo(Vertices(e).1, storage).value);
        edges == old(edges) + {p} && vertices == old(vertices) + {p.0, p.1}
      ensures r.Err? ==> edges == old(edges) && vertices == old(vertices)
    {
      var from := ToSto(Vertices(e).0);
      var to := ToSto(Vertices(e).1);
      ToStoRoInjective(Vertices(e).0, Vertices(e).1, storage);
      if from == to {
        return Err("Self loops are not allowed!");
      }
      assert Contains(e) == old(Contains(e)) by {
        if e.FixedToConst? && e.value !in old(storage) {
          assert to == ConstIdx(|old(storage)|);
          assert (from, to) !in edges && (to, from) !in edges;
        }
      }
      if Contains(e) {
        var p := if (from, to) in edges then (from, to) else (to, from);
        assert p in edges;
        assert ToConstraint(p, storage) in Edges();
        assert ToConstraint(p, storage) == e || ToConstraint(p, storage) == Reversed(e);
        assert from in vertices && to in vertices;
        assert FromSto(from, storage) in Nodes() && FromSto(to, storage) in Nodes();
      } else {
        vertices := vertices + {from, to};
        edges := edges + {(from, to)};
        assert ToConstraint((from, to), storage) == e;
        assert FromSto(from, storage) in Nodes() && FromSto(to, storage) in Nodes();
      }
      r := Ok(());
    }
  }

  /** Lookup is symmetric in the two cells of an edge. */
  lemma ContainsSymmetric(g: EqConstraintGraph, c1: Column, r1: nat, c2: Column, r2: nat)
    ensures g.Contains(AnyToAny(c1, r1, c2, r2)) <==> g.Contains(AnyToAny(c2, r2, c1, r1))
  {
  }

  /** An edge to a constant that was never stored is never found. */
  lemma ContainsNeedsStoredConstant(g: EqConstraintGraph, c: Column, r: nat, f: nat)
    requires f !in g.storage
    ensures !g.Contains(FixedToConst(c, r, f))
  {
  }
}
