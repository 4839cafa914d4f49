/**
 * Statement IR (`IRStmt`): calls, constraints, comments, determinism
 * assumptions, assertions and nested sequences. Covers `is_empty`, `map`,
 * `try_map`, the stack-based flattening iterator, equality and equivalence,
 * which both compare the flattened statement lists.
 */
module Stmt {
  import opened Wrappers
  import opened Func
  import BExpr

  datatype IRStmt<T> =
    | ConstraintCall(callee: string, inputs: seq<T>, outputs: seq<FuncIO>)
    | Constraint(op: CmpOp, lhs: T, rhs: T)
    | Comment(text: string)
    | AssumeDeterministic(io: FuncIO)
    | Assert(cond: BExpr.IRBexpr<T>)
    | Seq(stmts: seq<IRStmt<T>>)

  /** `is_empty`: only a sequence without children is empty. */
  predicate IsEmpty<T>(s: IRStmt<T>)
  {
    s.Seq? && |s.stmts| == 0
  }

  // ---------------------------------------------------------------- flattening

  /** The non-sequence statements of `s`, left to right: what iteration yields. */
  function Flatten<T>(s: IRStmt<T>): seq<IRStmt<T>>
    decreases s, 1
  {
    match s
    case Seq(xs) => FlattenList(xs)
    case _ => [s]
  }

  function FlattenList<T>(xs: seq<IRStmt<T>>): seq<IRStmt<T>>
    decreases xs, 0
  {
    if xs == [] then [] else Flatten(xs[0]) + FlattenList(xs[1..])
  }

  lemma {:induction false} FlattenListConcat<T>(a: seq<IRStmt<T>>, b: seq<IRStmt<T>>)
    ensures FlattenList(a + b) == FlattenList(a) + FlattenList(b)
  {
    if a != [] {
      assert (a + b)[1..] == a[1..] + b;
      FlattenListConcat(a[1..], b);
    } else {
      assert a + b == b;
    }
  }

  lemma FlattenListCons<T>(x: IRStmt<T>, xs: seq<IRStmt<T>>)
    ensures FlattenList([x] + xs) == Flatten(x) + FlattenList(xs)
  {
    assert ([x] + xs)[1..] == xs;
  }

  lemma FlattenListSingleton<T>(x: IRStmt<T>)
    ensures FlattenList([x]) == Flatten(x)
  {
    FlattenListCons(x, []);
    assert [x] + [] == [x];
  }

  /** Iteration never yields a sequence node. */
  lemma {:induction false} FlattenHasNoSeq<T>(s: IRStmt<T>)
    ensures forall i :: 0 <= i < |Flatten(s)| ==> !Flatten(s)[i].Seq?
    decreases s, 1
  {
    if s.Seq? { FlattenListHasNoSeq(s.stmts); }
  }

  lemma {:induction false} FlattenListHasNoSeq<T>(xs: seq<IRStmt<T>>)
    ensures forall i :: 0 <= i < |FlattenList(xs)| ==> !FlattenList(xs)[i].Seq?
    decreases xs, 0
  {
    if xs != [] {
      FlattenHasNoSeq(xs[0]);
      FlattenListHasNoSeq(xs[1..]);
      var a, b := Flatten(xs[0]), FlattenList(xs[1..]);
      var ab: seq<IRStmt<T>> := a + b;
      forall i | 0 <= i < |ab| ensures !ab[i].Seq? {
        if i < |a| { assert ab[i] == a[i]; } else { assert ab[i] == b[i - |a|]; }
      }
    }
  }

  /** The iteration examples: a leaf is its own flattening, and nesting does not matter. */
  lemma FlattenExamples<T>(a: IRStmt<T>, b: IRStmt<T>, c: IRStmt<T>)
    requires !a.Seq? && !b.Seq? && !c.Seq?
    ensures Flatten(a) == Flatten(Seq([a])) == [a]
    ensures Flatten(Seq([a, Seq([b, c])])) == [a, b, c]
    ensures IsEmpty(IRStmt<T>.Seq([])) && Flatten(IRStmt<T>.Seq([])) == []
    ensures !IsEmpty(Seq([IRStmt<T>.Seq([])])) && Flatten(Seq([IRStmt<T>.Seq([])])) == []
  {
    assert Flatten(a) == [a] && Flatten(b) == [b] && Flatten(c) == [c];
    FlattenListSingleton(a);
    assert Flatten(Seq([a])) == FlattenList([a]);
    FlattenNested(a, b, c);
    var empty := IRStmt<T>.Seq([]);
    FlattenListSingleton(empty);
    assert Flatten(Seq([empty])) == FlattenList([empty]) == Flatten(empty);
  }

  lemma FlattenNested<T>(a: IRStmt<T>, b: IRStmt<T>, c: IRStmt<T>)
    requires Flatten(a) == [a] && Flatten(b) == [b] && Flatten(c) == [c]
    ensures Flatten(Seq([a, Seq([b, c])])) == [a, b, c]
  {
    var bc := Seq([b, c]);
    FlattenListSingleton(c);
    assert [b, c] == [b] + [c];
    FlattenListCons(b, [c]);
    assert Flatten(bc) == FlattenList([b, c]) == [b, c];
    FlattenListSingleton(bc);
    assert [a, bc] == [a] + [bc];
    FlattenListCons(a, [bc]);
    assert Flatten(Seq([a, bc])) == FlattenList([a, bc]) == [a] + [b, c];
  }

  /** An empty statement yields nothing. */
  lemma IsEmptyFlatten<T>(s: IRStmt<T>)
    ensures IsEmpty(s) ==> Flatten(s) == []
    ensures !s.Seq? ==> !IsEmpty(s) && |Flatten(s)| == 1
  {
  }

  function Reverse<X>(xs: seq<X>): (r: seq<X>)
    ensures |r| == |xs| && forall i :: 0 <= i < |xs| ==> r[i] == xs[|xs| - 1 - i]
  {
    if xs == [] then [] else Reverse(xs[1..]) + [xs[0]]
  }

  lemma ReverseConcat<X>(a: seq<X>, b: seq<X>)
    ensures Reverse(a + b) == Reverse(b) + Reverse(a)
  {
    assert forall i :: 0 <= i < |a + b| ==> Reverse(a + b)[i] == (Reverse(b) + Reverse(a))[i];
  }

  lemma ReverseReverse<X>(a: seq<X>)
    ensures Reverse(Reverse(a)) == a
  {
    assert forall i :: 0 <= i < |a| ==> Reverse(Reverse(a))[i] == a[i];
  }

  /** The number of nodes; it bounds the work left on the iterator's stack. */
  function Size<T>(s: IRStmt<T>): nat
    decreases s, 1
  {
    match s
    case Seq(xs) => 1 + SizeList(xs)
    case _ => 1
  }

  function SizeList<T>(xs: seq<IRStmt<T>>): nat
    decreases xs, 0
  {
    if xs == [] then 0 else Size(xs[0]) + SizeList(xs[1..])
  }

  lemma {:induction false} SizeListConcat<T>(a: seq<IRStmt<T>>, b: seq<IRStmt<T>>)
    ensures SizeList(a + b) == SizeList(a) + SizeList(b)
  {
    if a != [] {
      assert (a + b)[1..] == a[1..] + b;
      SizeListConcat(a[1..], b);
    } else {
      assert a + b == b;
    }
  }

  lemma {:induction false} SizeListReverse<T>(a: seq<IRStmt<T>>)
    ensures SizeList(Reverse(a)) == SizeList(a)
  {
    if a != [] {
      SizeListReverse(a[1..]);
      SizeListConcat(Reverse(a[1..]), [a[0]]);
      assert [a[0]][1..] == [];
    }
  }

  /**
   * The by-reference iterator: a stack whose top is the last element, popped
   * one node at a time; a sequence node pushes its children in reverse so
   * that they come out left to right.
   */
  class StmtIter<T> {
    var stack: seq<IRStmt<T>>

    /** What the iterator has still to yield. */
    ghost function Remaining(): seq<IRStmt<T>>
      reads this
    {
      FlattenList(Reverse(stack))
    }

    constructor (s: IRStmt<T>)
      ensures Remaining() == Flatten(s)
    {
      stack := [s];
      new;
      assert Reverse([s]) == [s];
      FlattenListSingleton(s);
    }

    method Next() returns (r: Option<IRStmt<T>>)
      modifies this
      ensures r.None? <==> old(Remaining()) == []
      ensures r.Some? ==> [r.value] + Remaining() == old(Remaining()) && !r.value.Seq?
      ensures r.None? ==> Remaining() == []
    {
      while stack != []
        invariant Remaining() == old(Remaining())
        decreases SizeList(stack)
      {
        var top := stack[|stack| - 1];
        var rest := stack[..|stack| - 1];
        assert stack == rest + [top];
        ReverseConcat(rest, [top]);
        assert Reverse(stack) == [top] + Reverse(rest);
        assert Remaining() == Flatten(top) + FlattenList(Reverse(rest));
        SizeListConcat(rest, [top]);
        assert [top][1..] == [];
        if top.Seq? {
          var children := top.stmts;
          stack := rest + Reverse(children);
          ReverseConcat(rest, Reverse(children));
          ReverseReverse(children);
          FlattenListConcat(children, Reverse(rest));
          SizeListConcat(rest, Reverse(children));
          SizeListReverse(children);
        } else {
          stack := rest;
          return Some(top);
        }
      }
      return None;
    }
  }

  /** Collecting the iterator yields exactly the flattening, and never a sequence node. */
  method Collect<T>(s: IRStmt<T>) returns (out: seq<IRStmt<T>>)
    ensures out == Flatten(s)
  {
    var it := new StmtIter(s);
    out := [];
    while true
      invariant out + it.Remaining() == Flatten(s)
      decreases |it.Remaining()|
    {
      var r := it.Next();
      if r.None? { break; }
      out := out + [r.value];
    }
  }

  // ---------------------------------------------------------------- map and try_map

  /** `map`: applies `f` to the call inputs, the constraint sides and the assertion leaves. */
  function Map<T, O>(s: IRStmt<T>, f: T -> O): IRStmt<O>
  {
    match s
    case ConstraintCall(callee, ins, outs) => ConstraintCall(callee, seq(|ins|, i requires 0 <= i < |ins| => f(ins[i])), outs)
    case Constraint(op, l, r) => Constraint(op, f(l), f(r))
    case Comment(t) => Comment(t)
    case AssumeDeterministic(io) => AssumeDeterministic(io)
    case Assert(c) => Assert(BExpr.Map(c, f))
    case Seq(xs) => Seq(seq(|xs|, i requires 0 <= i < |xs| => Map(xs[i], f)))
  }

  /** The statement kind, ignoring contents. */
  function Kind<T>(s: IRStmt<T>): nat
  {
    match s
    case ConstraintCall(_, _, _) => 0
    case Constraint(_, _, _) => 1
    case Comment(_) => 2
    case AssumeDeterministic(_) => 3
    case Assert(_) => 4
    case Seq(_) => 5
  }

  /** Mapping keeps every node's kind, the calls' callee and outputs, and the sequence structure. */
  lemma {:induction false} MapKeepsStructure<T, O>(s: IRStmt<T>, f: T -> O)
    ensures Kind(Map(s, f)) == Kind(s)
    ensures IsEmpty(Map(s, f)) <==> IsEmpty(s)
    ensures s.ConstraintCall? ==> Map(s, f).callee == s.callee && Map(s, f).outputs == s.outputs && |Map(s, f).inputs| == |s.inputs|
    ensures s.Seq? ==> |Map(s, f).stmts| == |s.stmts|
    ensures s.Seq? ==> forall i :: 0 <= i < |s.stmts| ==> Kind(Map(s, f).stmts[i]) == Kind(s.stmts[i])
  {
    if s.Seq? {
      forall i | 0 <= i < |s.stmts| ensures Kind(Map(s, f).stmts[i]) == Kind(s.stmts[i]) {
        assert Map(s, f).stmts[i] == Map(s.stmts[i], f);
        MapKeepsStructure(s.stmts[i], f);
      }
    }
  }

  /** Mapping commutes with flattening. */
  lemma {:induction false} FlattenMap<T, O>(s: IRStmt<T>, f: T -> O)
    ensures Flatten(Map(s, f)) == seq(|Flatten(s)|, i requires 0 <= i < |Flatten(s)| => Map(Flatten(s)[i], f))
    decreases s, 1
  {
    if s.Seq? {
      var ys := seq(|s.stmts|, i requires 0 <= i < |s.stmts| => Map(s.stmts[i], f));
      assert Map(s, f) == Seq(ys);
      FlattenListMap(s.stmts, f);
    }
  }

  lemma {:induction false} FlattenListMap<T, O>(xs: seq<IRStmt<T>>, f: T -> O)
    ensures FlattenList(seq(|xs|, i requires 0 <= i < |xs| => Map(xs[i], f))) ==
      seq(|FlattenList(xs)|, i requires 0 <= i < |FlattenList(xs)| => Map(FlattenList(xs)[i], f))
    decreases xs, 0
  {
    var ys := seq(|xs|, i requires 0 <= i < |xs| => Map(xs[i], f));
    if xs != [] {
      FlattenMap(xs[0], f);
      FlattenListMap(xs[1..], f);
      assert ys[1..] == seq(|xs[1..]|, i requires 0 <= i < |xs[1..]| => Map(xs[1..][i], f));
      var a, b := Flatten(xs[0]), FlattenList(xs[1..]);
      assert FlattenList(xs) == a + b;
      assert FlattenList(ys) == Flatten(ys[0]) + FlattenList(ys[1..]);
      var lhs := FlattenList(ys);
      var rhs := seq(|a + b|, i requires 0 <= i < |a + b| => Map((a + b)[i], f));
      assert |lhs| == |rhs|;
      forall i | 0 <= i < |lhs| ensures lhs[i] == rhs[i] {
        if i < |a| { assert (a + b)[i] == a[i]; } else { assert (a + b)[i] == b[i - |a|]; }
      }
    }
  }

  /** `try_map`: like `map`, but `f` may fail; the first failure in order is returned. */
  function TryMap<T, O>(s: IRStmt<T>, f: T -> Result<O>): Result<IRStmt<O>>
  {
    match s
    case ConstraintCall(callee, ins, outs) =>
      var rs := BExpr.CollectResults(seq(|ins|, i requires 0 <= i < |ins| => f(ins[i])));
      if rs.Err? then Err(rs.error) else Ok(ConstraintCall(callee, rs.value, outs))
    case Constraint(op, l, r) =>
      if f(l).Err? then Err(f(l).error)
      else if f(r).Err? then Err(f(r).error)
      else Ok(Constraint(op, f(l).value, f(r).value))
    case Comment(t) => Ok(Comment(t))
    case AssumeDeterministic(io) => Ok(AssumeDeterministic(io))
    case Assert(c) =>
      var rc := BExpr.TryMap(c, f);
      if rc.Err? then Err(rc.error) else Ok(Assert(rc.value))
    case Seq(xs) =>
      var rs := BExpr.CollectResults(seq(|xs|, i requires 0 <= i < |xs| => TryMap(xs[i], f)));
      if rs.Err? then Err(rs.error) else Ok(Seq(rs.value))
  }

  /** `f` succeeds on every expression of `s`. */
  predicate LeavesOk<T, O>(s: IRStmt<T>, f: T -> Result<O>)
  {
    match s
    case ConstraintCall(_, ins, _) => forall i :: 0 <= i < |ins| ==> f(ins[i]).Ok?
    case Constraint(_, l, r) => f(l).Ok? && f(r).Ok?
    case Comment(_) => true
    case AssumeDeterministic(_) => true
    case Assert(c) => BExpr.LeavesOk(c, f)
    case Seq(xs) => forall i :: 0 <= i < |xs| ==> LeavesOk(xs[i], f)
  }

  /**
   * `try_map` succeeds exactly when `f` succeeds everywhere, and then agrees
   * with `map` by any `g` that matches `f` where `f` succeeds; so it keeps the
   * statement kinds and the sequence structure too.
   */
  lemma {:induction false} TryMapIsMap<T, O>(s: IRStmt<T>, f: T -> Result<O>, g: T -> O)
    requires forall x :: f(x).Ok? ==> f(x).value == g(x)
    ensures TryMap(s, f).Ok? <==> LeavesOk(s, f)
    ensures TryMap(s, f).Ok? ==> TryMap(s, f).value == Map(s, g)
  {
    match s
    case ConstraintCall(callee, ins, outs) =>
      var fs := seq(|ins|, i requires 0 <= i < |ins| => f(ins[i]));
      assert forall i :: 0 <= i < |ins| ==> fs[i] == f(ins[i]);
      var rs := BExpr.CollectResults(fs);
      if rs.Ok? {
        assert rs.value == seq(|ins|, i requires 0 <= i < |ins| => g(ins[i]));
      }
    case Assert(c) => BExpr.TryMapIsMap(c, f, g);
    case Seq(xs) =>
      var rs := seq(|xs|, i requires 0 <= i < |xs| => TryMap(xs[i], f));
      forall i | 0 <= i < |xs| ensures rs[i].Ok? <==> LeavesOk(xs[i], f)
        ensures rs[i].Ok? ==> rs[i].value == Map(xs[i], g) { TryMapIsMap(xs[i], f, g); }
    case _ =>
  }

  // ---------------------------------------------------------------- equality

  /** Equality of two non-sequence statements, with the assertion's equality as written. */
  predicate LeafEqAsWritten<T(==)>(a: IRStmt<T>, b: IRStmt<T>)
  {
    match (a, b)
    case (ConstraintCall(c1, i1, o1), ConstraintCall(c2, i2, o2)) => c1 == c2 && i1 == i2 && o1 == o2
    case (Constraint(op1, l1, r1), Constraint(op2, l2, r2)) => op1 == op2 && l1 == l2 && r1 == r2
    case (Comment(t1), Comment(t2)) => t1 == t2
    case (AssumeDeterministic(x), AssumeDeterministic(y)) => x == y
    case (Assert(x), Assert(y)) => BExpr.EqAsWritten(x, y)
    case _ => false
  }

  /**
   * `PartialEq` as written: the two flattenings are zipped, so a pair is only
   * compared up to the shorter list.
   */
  predicate EqAsWritten<T(==)>(a: IRStmt<T>, b: IRStmt<T>)
  {
    var fa, fb := Flatten(a), Flatten(b);
    forall i :: 0 <= i < |fa| && i < |fb| ==> LeafEqAsWritten(fa[i], fb[i])
  }

  /** The corrected equality: the flattenings have the same length and agree pairwise. */
  predicate Equal<T(==)>(a: IRStmt<T>, b: IRStmt<T>)
  {
    var fa, fb := Flatten(a), Flatten(b);
    |fa| == |fb| && forall i :: 0 <= i < |fa| ==> fa[i] == fb[i]
  }

  /** As written, a prefix compares equal to a longer sequence, and the empty sequence to anything. */
  lemma EqAsWrittenTruncates<T>(s: IRStmt<T>)
    ensures EqAsWritten<T>(Seq([Comment("a")]), Seq([Comment("a"), Comment("b")]))
    ensures EqAsWritten(Seq([]), s)
    ensures Flatten(IRStmt<T>.Seq([Comment("a")])) != Flatten(IRStmt<T>.Seq([Comment("a"), Comment("b")]))
  {
    var a, b := IRStmt<T>.Comment("a"), IRStmt<T>.Comment("b");
    FlattenListSingleton(a);
    FlattenListSingleton(b);
    FlattenListCons(a, [b]);
    assert [a] + [b] == [a, b];
    assert Flatten(Seq([a])) == [a];
    assert Flatten(Seq([a, b])) == [a, b];
  }

  /** The corrected equality compares exactly the flattenings, so `a == Seq([a])` and nesting is invisible. */
  lemma EqualMeansSameFlattening<T>(a: IRStmt<T>, b: IRStmt<T>)
    ensures Equal(a, b) <==> Flatten(a) == Flatten(b)
    ensures Equal(a, Seq([a]))
  {
    FlattenListSingleton(a);
  }

  /** The flattened lists of the two statements agree elementwise by a leaf relation. */
  predicate PairwiseAll<L, R>(fa: seq<IRStmt<L>>, fb: seq<IRStmt<R>>, rel: (IRStmt<L>, IRStmt<R>) -> bool)
  {
    forall i :: 0 <= i < |fa| && i < |fb| ==> rel(fa[i], fb[i])
  }

  /**
   * Equivalence of two non-sequence statements: comments are always
   * equivalent, determinism assumptions compare their IO by `ioEqv`, and calls,
   * constraints and assertions are compared by `kindEqv` (their relations are
   * defined outside this file).
   */
  predicate LeafEquivalent<L, R>(a: IRStmt<L>, b: IRStmt<R>, kindEqv: (IRStmt<L>, IRStmt<R>) -> bool, ioEqv: (FuncIO, FuncIO) -> bool)
  {
    match (a, b)
    case (ConstraintCall(_, _, _), ConstraintCall(_, _, _)) => kindEqv(a, b)
    case (Constraint(_, _, _), Constraint(_, _, _)) => kindEqv(a, b)
    case (Comment(_), Comment(_)) => true
    case (AssumeDeterministic(x), AssumeDeterministic(y)) => ioEqv(x, y)
    case (Assert(_), Assert(_)) => kindEqv(a, b)
    case _ => false
  }

  /** Equivalence as written: zipped like equality, so also only up to the shorter list. */
  predicate EquivalentAsWritten<L, R>(a: IRStmt<L>, b: IRStmt<R>, kindEqv: (IRStmt<L>, IRStmt<R>) -> bool, ioEqv: (FuncIO, FuncIO) -> bool)
  {
    PairwiseAll(Flatten(a), Flatten(b), (x, y) => LeafEquivalent(x, y, kindEqv, ioEqv))
  }

  /** The corrected equivalence, which also requires flattenings of the same length. */
  predicate Equivalent<L, R>(a: IRStmt<L>, b: IRStmt<R>, kindEqv: (IRStmt<L>, IRStmt<R>) -> bool, ioEqv: (FuncIO, FuncIO) -> bool)
  {
    |Flatten(a)| == |Flatten(b)| && EquivalentAsWritten(a, b, kindEqv, ioEqv)
  }

  /**
   * Any two comments are equivalent, whatever their text; as written, a
   * one-statement sequence is also equivalent to a longer one it prefixes,
   * which the corrected equivalence rejects.
   */
  lemma CommentsEquivalent<L, R>(s: string, t: string, kindEqv: (IRStmt<L>, IRStmt<R>) -> bool, ioEqv: (FuncIO, FuncIO) -> bool)
    ensures Equivalent(Comment(s), Comment(t), kindEqv, ioEqv)
    ensures EquivalentAsWritten(Seq([Comment(s)]), Seq([Comment(t), Comment(t)]), kindEqv, ioEqv)
    ensures !Equivalent(Seq([Comment(s)]), Seq([Comment(t), Comment(t)]), kindEqv, ioEqv)
  {
    var cs, ct := IRStmt<L>.Comment(s), IRStmt<R>.Comment(t);
    FlattenListSingleton(cs);
    FlattenListSingleton(ct);
    FlattenListCons(ct, [ct]);
    assert [ct] + [ct] == [ct, ct];
    assert Flatten(Seq([cs])) == [cs];
    assert Flatten(Seq([ct, ct])) == [ct, ct];
  }

  /** The corrected equivalence with identity relations is the corrected equality, up to the assertion equality. */
  lemma EquivalentWithIdentity<T>(a: IRStmt<T>, b: IRStmt<T>, ioEqv: (FuncIO, FuncIO) -> bool)
    requires forall x, y :: ioEqv(x, y) <==> x == y
    requires forall i :: 0 <= i < |Flatten(a)| ==> !Flatten(a)[i].Comment?
    ensures Equivalent(a, b, (x, y) => x == y, ioEqv) <==> Equal(a, b)
  {
    FlattenHasNoSeq(a);
    FlattenHasNoSeq(b);
  }
}
