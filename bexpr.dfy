/**
 * Boolean IR (`IRBexpr`) over an arithmetic expression type: literals,
 * comparisons, n-ary conjunction and disjunction, negation, determinism
 * obligations, implication and double implication. Covers the atom and DNF
 * predicates, `map`/`try_map`, the `&`, `|` and `!` operators, canonicalisation,
 * constant folding, equality and symbolic equivalence.
 */
module BExpr {
  import opened Wrappers
  import opened Func
  import AExpr
  import Canon

  datatype IRBexpr<A> =
    | True
    | False
    | Cmp(op: CmpOp, lhs: A, rhs: A)
    | And(args: seq<IRBexpr<A>>)
    | Or(args: seq<IRBexpr<A>>)
    | Not(e: IRBexpr<A>)
    | Det(d: A)
    | Implies(ante: IRBexpr<A>, cons: IRBexpr<A>)
    | Iff(left: IRBexpr<A>, right: IRBexpr<A>)

  /**
   * The truth of a formula, given the truth of each comparison and of each
   * determinism obligation. This is the meaning the rewrites below preserve.
   */
  predicate HoldsWith<A>(e: IRBexpr<A>, atom: (CmpOp, A, A) -> bool, det: A -> bool)
  {
    match e
    case True => true
    case False => false
    case Cmp(op, l, r) => atom(op, l, r)
    case And(xs) => forall i :: 0 <= i < |xs| ==> HoldsWith(xs[i], atom, det)
    case Or(xs) => exists i :: 0 <= i < |xs| && HoldsWith(xs[i], atom, det)
    case Not(x) => !HoldsWith(x, atom, det)
    case Det(a) => det(a)
    case Implies(a, b) => !HoldsWith(a, atom, det) || HoldsWith(b, atom, det)
    case Iff(a, b) => HoldsWith(a, atom, det) == HoldsWith(b, atom, det)
  }

  function FromBool<A>(b: bool): (r: IRBexpr<A>)
    ensures ConstValue(r) == Some(b)
  {
    if b then True else False
  }

  /** `const_value`: the literal a formula is, if it is one. */
  function ConstValue<A>(e: IRBexpr<A>): (r: Option<bool>)
    ensures r.Some? <==> (e.True? || e.False?)
    ensures r == Some(true) <==> e.True?
  {
    match e
    case True => Some(true)
    case False => Some(false)
    case _ => None
  }

  // ---------------------------------------------------------------- atoms and DNF

  /** Literals, comparisons and determinism obligations, possibly under negations. */
  predicate IsAtom<A>(e: IRBexpr<A>)
  {
    match e
    case True => true
    case False => true
    case Cmp(_, _, _) => true
    case Det(_) => true
    case And(_) => false
    case Or(_) => false
    case Iff(_, _) => false
    case Implies(_, _) => false
    case Not(x) => IsAtom(x)
  }

  predicate IsDnf<A>(e: IRBexpr<A>)
  {
    match e
    case True => true
    case False => true
    case Cmp(_, _, _) => true
    case Det(_) => true
    case Or(xs) => forall i :: 0 <= i < |xs| ==> IsDnf(xs[i])
    case And(xs) => forall i :: 0 <= i < |xs| ==> IsAtom(xs[i])
    case Not(x) => IsAtom(x)
    case _ => false
  }

  /** Every atom is in DNF; connectives other than negation are never atoms. */
  lemma AtomIsDnf<A>(e: IRBexpr<A>)
    ensures IsAtom(e) ==> IsDnf(e)
    ensures (e.And? || e.Or? || e.Implies? || e.Iff?) ==> !IsAtom(e)
    ensures e.Not? ==> (IsAtom(e) <==> IsAtom(e.e))
  {
  }

  /** The accepted DNF test cases, over determinism atoms named by strings. */
  lemma IsDnfAccepts()
    ensures IsDnf(Det("A"))
    ensures IsDnf(BitAnd(Det("A"), Det("B")))
    ensures IsDnf(BitOr(BitAnd(Det("A"), Det("B")), Det("C")))
    ensures IsDnf(BitOr(BitAnd(BitAnd(Det("A"), Negate(Det("B"))), Negate(Det("C"))),
                        BitAnd(BitAnd(BitAnd(BitAnd(Negate(Det("D")), Det("E")), Det("F")), Det("D")), Det("F"))))
  {
    var a, b, c, d, e, f := Det("A"), Det("B"), Det("C"), Det("D"), Det("E"), Det("F");
    assert BitAnd(a, b) == And([a, b]);
    assert IsDnf(And([a, b]));
    assert BitOr(And([a, b]), c) == Or([And([a, b]), c]);
    var left := BitAnd(BitAnd(a, Negate(b)), Negate(c));
    var right := BitAnd(BitAnd(BitAnd(BitAnd(Negate(d), e), f), d), f);
    DnfLeft(a, b, c);
    DnfRight(d, e, f);
    assert BitOr(left, right) == Or([left, right]);
    assert IsDnf(left) && IsDnf(right);
    DnfPair(left, right);
    DnfPair(And([a, b]), c);
  }

  lemma DnfPair<A>(x: IRBexpr<A>, y: IRBexpr<A>)
    requires IsDnf(x) && IsDnf(y)
    ensures IsDnf(Or([x, y]))
  {
    var xs := [x, y];
    assert forall i :: 0 <= i < |xs| ==> xs[i] == x || xs[i] == y;
  }

  lemma DnfLeft(a: IRBexpr<string>, b: IRBexpr<string>, c: IRBexpr<string>)
    requires a.Det? && b.Det? && c.Det?
    ensures BitAnd(BitAnd(a, Negate(b)), Negate(c)) == And([a, Not(b), Not(c)])
    ensures IsDnf(And([a, Not(b), Not(c)])) && !BitAnd(BitAnd(a, Negate(b)), Negate(c)).Or?
  {
    assert BitAnd(a, Negate(b)) == And([a, Not(b)]);
    assert [a, Not(b)] + [Not(c)] == [a, Not(b), Not(c)];
  }

  lemma DnfRight(d: IRBexpr<string>, e: IRBexpr<string>, f: IRBexpr<string>)
    requires d.Det? && e.Det? && f.Det?
    ensures BitAnd(BitAnd(BitAnd(BitAnd(Negate(d), e), f), d), f) == And([Not(d), e, f, d, f])
    ensures IsDnf(And([Not(d), e, f, d, f]))
  {
    assert BitAnd(Negate(d), e) == And([Not(d), e]);
    assert [Not(d), e] + [f] == [Not(d), e, f];
    assert [Not(d), e, f] + [d] == [Not(d), e, f, d];
    assert [Not(d), e, f, d] + [f] == [Not(d), e, f, d, f];
  }

  /** The rejected DNF test cases. */
  lemma IsDnfRejects()
    ensures !IsDnf(Negate(BitOr(Det("A"), Det("B"))))
    ensures !IsDnf(BitOr(Negate(BitAnd(Det("A"), Det("B"))), Det("C")))
    ensures !IsDnf(BitOr(Det("A"), BitAnd(Det("B"), BitOr(Det("C"), Det("D")))))
  {
    var a, b, c, d := Det("A"), Det("B"), Det("C"), Det("D");
    assert Negate(BitOr(a, b)) == Not(Or([a, b]));
    var x := BitOr(Negate(BitAnd(a, b)), c);
    assert x == Or([Not(And([a, b])), c]);
    assert !IsDnf(x.args[0]);
    var y := BitOr(a, BitAnd(b, BitOr(c, d)));
    assert y == Or([a, And([b, Or([c, d])])]);
    assert !IsAtom(y.args[1].args[1]);
    assert !IsDnf(y.args[1]);
  }

  // ---------------------------------------------------------------- operators

  /** The conjuncts of a formula: the list of an `And`, otherwise the formula itself. */
  function Conjuncts<A>(e: IRBexpr<A>): seq<IRBexpr<A>>
  {
    if e.And? then e.args else [e]
  }

  function Disjuncts<A>(e: IRBexpr<A>): seq<IRBexpr<A>>
  {
    if e.Or? then e.args else [e]
  }

  /** `a & b`: a conjunction, splicing in the lists of operands that already are one. */
  function BitAnd<A>(a: IRBexpr<A>, b: IRBexpr<A>): (r: IRBexpr<A>)
    ensures r.And? && r.args == Conjuncts(a) + Conjuncts(b)
  {
    match (a, b)
    case (And(xs), And(ys)) => And(xs + ys)
    case (_, And(ys)) => And([a] + ys)
    case (And(xs), _) => And(xs + [b])
    case _ => And([a, b])
  }

  /** `a | b`: a disjunction, splicing in the lists of operands that already are one. */
  function BitOr<A>(a: IRBexpr<A>, b: IRBexpr<A>): (r: IRBexpr<A>)
    ensures r.Or? && r.args == Disjuncts(a) + Disjuncts(b)
  {
    match (a, b)
    case (Or(xs), Or(ys)) => Or(xs + ys)
    case (_, Or(ys)) => Or([a] + ys)
    case (Or(xs), _) => Or(xs + [b])
    case _ => Or([a, b])
  }

  /** `!a`: removes one negation if there is one, otherwise adds one. */
  function Negate<A>(a: IRBexpr<A>): (r: IRBexpr<A>)
    ensures a.Not? ==> r == a.e
    ensures !a.Not? ==> r == Not(a)
  {
    match a
    case Not(x) => x
    case _ => Not(a)
  }

  /** Every formula of the list holds. */
  predicate AllHold<A>(xs: seq<IRBexpr<A>>, atom: (CmpOp, A, A) -> bool, det: A -> bool)
  {
    forall i :: 0 <= i < |xs| ==> HoldsWith(xs[i], atom, det)
  }

  /** Some formula of the list holds. */
  predicate AnyHolds<A>(xs: seq<IRBexpr<A>>, atom: (CmpOp, A, A) -> bool, det: A -> bool)
  {
    exists i :: 0 <= i < |xs| && HoldsWith(xs[i], atom, det)
  }

  lemma AllHoldConcat<A>(xs: seq<IRBexpr<A>>, ys: seq<IRBexpr<A>>, atom: (CmpOp, A, A) -> bool, det: A -> bool)
    ensures AllHold(xs + ys, atom, det) <==> AllHold(xs, atom, det) && AllHold(ys, atom, det)
  {
    var c := xs + ys;
    if AllHold(c, atom, det) {
      forall i | 0 <= i < |xs| ensures HoldsWith(xs[i], atom, det) { assert c[i] == xs[i]; }
      forall i | 0 <= i < |ys| ensures HoldsWith(ys[i], atom, det) { assert c[|xs| + i] == ys[i]; }
    }
    if AllHold(xs, atom, det) && AllHold(ys, atom, det) {
      forall i | 0 <= i < |c| ensures HoldsWith(c[i], atom, det) {
        if i < |xs| { assert c[i] == xs[i]; } else { assert c[i] == ys[i - |xs|]; }
      }
    }
  }

  lemma AnyHoldsConcat<A>(xs: seq<IRBexpr<A>>, ys: seq<IRBexpr<A>>, atom: (CmpOp, A, A) -> bool, det: A -> bool)
    ensures AnyHolds(xs + ys, atom, det) <==> AnyHolds(xs, atom, det) || AnyHolds(ys, atom, det)
  {
    var d := xs + ys;
    if AnyHolds(d, atom, det) {
      var i :| 0 <= i < |d| && HoldsWith(d[i], atom, det);
      if i < |xs| { assert d[i] == xs[i]; } else { assert d[i] == ys[i - |xs|]; }
    }
    if AnyHolds(xs, atom, det) {
      var i :| 0 <= i < |xs| && HoldsWith(xs[i], atom, det);
      assert d[i] == xs[i];
    } else if AnyHolds(ys, atom, det) {
      var i :| 0 <= i < |ys| && HoldsWith(ys[i], atom, det);
      assert d[|xs| + i] == ys[i];
    }
  }

  lemma ConjunctsHold<A>(e: IRBexpr<A>, atom: (CmpOp, A, A) -> bool, det: A -> bool)
    ensures HoldsWith(e, atom, det) <==> AllHold(Conjuncts(e), atom, det)
  {
    if !e.And? {
      assert Conjuncts(e) == [e];
      assert AllHold(Conjuncts(e), atom, det) ==> HoldsWith(Conjuncts(e)[0], atom, det);
    }
  }

  lemma DisjunctsHold<A>(e: IRBexpr<A>, atom: (CmpOp, A, A) -> bool, det: A -> bool)
    ensures HoldsWith(e, atom, det) <==> AnyHolds(Disjuncts(e), atom, det)
  {
    if !e.Or? {
      assert Disjuncts(e) == [e];
      assert HoldsWith(e, atom, det) ==> HoldsWith(Disjuncts(e)[0], atom, det);
    }
  }

  /** `&`, `|` and `!` mean conjunction, disjunction and negation. */
  lemma OperatorsMeaning<A>(a: IRBexpr<A>, b: IRBexpr<A>, atom: (CmpOp, A, A) -> bool, det: A -> bool)
    ensures HoldsWith(BitAnd(a, b), atom, det) <==> HoldsWith(a, atom, det) && HoldsWith(b, atom, det)
    ensures HoldsWith(BitOr(a, b), atom, det) <==> HoldsWith(a, atom, det) || HoldsWith(b, atom, det)
    ensures HoldsWith(Negate(a), atom, det) <==> !HoldsWith(a, atom, det)
  {
    ConjunctsHold(a, atom, det);
    ConjunctsHold(b, atom, det);
    AllHoldConcat(Conjuncts(a), Conjuncts(b), atom, det);
    assert HoldsWith(BitAnd(a, b), atom, det) == AllHold(Conjuncts(a) + Conjuncts(b), atom, det);
    DisjunctsHold(a, atom, det);
    DisjunctsHold(b, atom, det);
    AnyHoldsConcat(Disjuncts(a), Disjuncts(b), atom, det);
    assert HoldsWith(BitOr(a, b), atom, det) == AnyHolds(Disjuncts(a) + Disjuncts(b), atom, det);
  }

  // ---------------------------------------------------------------- map and try_map

  /** `map`: applies `f` to every arithmetic leaf. */
  function Map<A, B>(e: IRBexpr<A>, f: A -> B): IRBexpr<B>
  {
    match e
    case True => True
    case False => False
    case Cmp(op, l, r) => Cmp(op, f(l), f(r))
    case And(xs) => And(seq(|xs|, i requires 0 <= i < |xs| => Map(xs[i], f)))
    case Or(xs) => Or(seq(|xs|, i requires 0 <= i < |xs| => Map(xs[i], f)))
    case Not(x) => Not(Map(x, f))
    case Det(a) => Det(f(a))
    case Implies(a, b) => Implies(Map(a, f), Map(b, f))
    case Iff(a, b) => Iff(Map(a, f), Map(b, f))
  }

  /** Mapping with the identity changes nothing. */
  lemma {:induction false} MapIdentity<A>(e: IRBexpr<A>)
    ensures Map(e, x => x) == e
  {
    match e
    case And(xs) =>
      forall i | 0 <= i < |xs| ensures Map(xs[i], x => x) == xs[i] { MapIdentity(xs[i]); }
    case Or(xs) =>
      forall i | 0 <= i < |xs| ensures Map(xs[i], x => x) == xs[i] { MapIdentity(xs[i]); }
    case Not(x) => MapIdentity(x);
    case Implies(a, b) => MapIdentity(a); MapIdentity(b);
    case Iff(a, b) => MapIdentity(a); MapIdentity(b);
    case _ =>
  }

  /** Mapping twice is mapping once with the composition, so the tree shape is kept. */
  lemma {:induction false} MapCompose<A, B, C>(e: IRBexpr<A>, f: A -> B, g: B -> C)
    ensures Map(Map(e, f), g) == Map(e, x => g(f(x)))
  {
    match e
    case And(xs) =>
      forall i | 0 <= i < |xs| ensures Map(Map(xs[i], f), g) == Map(xs[i], x => g(f(x))) { MapCompose(xs[i], f, g); }
    case Or(xs) =>
      forall i | 0 <= i < |xs| ensures Map(Map(xs[i], f), g) == Map(xs[i], x => g(f(x))) { MapCompose(xs[i], f, g); }
    case Not(x) => MapCompose(x, f, g);
    case Implies(a, b) => MapCompose(a, f, g); MapCompose(b, f, g);
    case Iff(a, b) => MapCompose(a, f, g); MapCompose(b, f, g);
    case _ =>
  }

  /** A mapped formula holds exactly when the original holds with its leaves read through `f`. */
  lemma {:induction false} MapMeaning<A, B>(e: IRBexpr<A>, f: A -> B, atom: (CmpOp, B, B) -> bool, det: B -> bool)
    ensures HoldsWith(Map(e, f), atom, det) <==>
      HoldsWith(e, (op, l, r) => atom(op, f(l), f(r)), a => det(f(a)))
  {
    var atom', det' := (op, l, r) => atom(op, f(l), f(r)), a => det(f(a));
    match e
    case And(xs) =>
      var ys := Map(e, f).args;
      forall i | 0 <= i < |xs| ensures HoldsWith(ys[i], atom, det) <==> HoldsWith(xs[i], atom', det') {
        assert ys[i] == Map(xs[i], f);
        MapMeaning(xs[i], f, atom, det);
      }
    case Or(xs) =>
      var ys := Map(e, f).args;
      forall i | 0 <= i < |xs| ensures HoldsWith(ys[i], atom, det) <==> HoldsWith(xs[i], atom', det') {
        assert ys[i] == Map(xs[i], f);
        MapMeaning(xs[i], f, atom, det);
      }
      if HoldsWith(Map(e, f), atom, det) {
        var i :| 0 <= i < |ys| && HoldsWith(ys[i], atom, det);
        assert HoldsWith(xs[i], atom', det');
      }
      if HoldsWith(e, atom', det') {
        var i :| 0 <= i < |xs| && HoldsWith(xs[i], atom', det');
        assert HoldsWith(ys[i], atom, det);
      }
    case Not(x) => MapMeaning(x, f, atom, det);
    case Implies(a, b) => MapMeaning(a, f, atom, det); MapMeaning(b, f, atom, det);
    case Iff(a, b) => MapMeaning(a, f, atom, det); MapMeaning(b, f, atom, det);
    case _ =>
  }

  /** `collect::<Result<Vec<_>>>()`: the first error in order, or all the values. */
  function CollectResults<T>(rs: seq<Result<T>>): (r: Result<seq<T>>)
    ensures r.Ok? <==> forall i :: 0 <= i < |rs| ==> rs[i].Ok?
    ensures r.Ok? ==> |r.value| == |rs| && forall i :: 0 <= i < |rs| ==> rs[i] == Ok(r.value[i])
  {
    if rs == [] then Ok([])
    else if rs[0].Err? then Err(rs[0].error)
    else
      var rest := CollectResults(rs[1..]);
      if rest.Err? then Err(rest.error) else Ok([rs[0].value] + rest.value)
  }

  /** `try_map`: like `map`, but `f` may fail; the first failure in leaf order is returned. */
  function TryMap<A, B>(e: IRBexpr<A>, f: A -> Result<B>): Result<IRBexpr<B>>
  {
    match e
    case True => Ok(True)
    case False => Ok(False)
    case Cmp(op, l, r) =>
      if f(l).Err? then Err(f(l).error)
      else if f(r).Err? then Err(f(r).error)
      else Ok(Cmp(op, f(l).value, f(r).value))
    case And(xs) =>
      var rs := CollectResults(seq(|xs|, i requires 0 <= i < |xs| => TryMap(xs[i], f)));
      if rs.Err? then Err(rs.error) else Ok(And(rs.value))
    case Or(xs) =>
      var rs := CollectResults(seq(|xs|, i requires 0 <= i < |xs| => TryMap(xs[i], f)));
      if rs.Err? then Err(rs.error) else Ok(Or(rs.value))
    case Not(x) =>
      var r := TryMap(x, f);
      if r.Err? then Err(r.error) else Ok(Not(r.value))
    case Det(a) => if f(a).Err? then Err(f(a).error) else Ok(Det(f(a).value))
    case Implies(a, b) =>
      var ra := TryMap(a, f);
      if ra.Err? then Err(ra.error) else
      var rb := TryMap(b, f);
      if rb.Err? then Err(rb.error) else Ok(Implies(ra.value, rb.value))
    case Iff(a, b) =>
      var ra := TryMap(a, f);
      if ra.Err? then Err(ra.error) else
      var rb := TryMap(b, f);
      if rb.Err? then Err(rb.error) else Ok(Iff(ra.value, rb.value))
  }

  /** `f` succeeds on every arithmetic leaf of `e`. */
  predicate LeavesOk<A, B>(e: IRBexpr<A>, f: A -> Result<B>)
  {
    match e
    case True => true
    case False => true
    case Cmp(_, l, r) => f(l).Ok? && f(r).Ok?
    case And(xs) => forall i :: 0 <= i < |xs| ==> LeavesOk(xs[i], f)
    case Or(xs) => forall i :: 0 <= i < |xs| ==> LeavesOk(xs[i], f)
    case Not(x) => LeavesOk(x, f)
    case Det(a) => f(a).Ok?
    case Implies(a, b) => LeavesOk(a, f) && LeavesOk(b, f)
    case Iff(a, b) => LeavesOk(a, f) && LeavesOk(b, f)
  }

  /**
   * `try_map` succeeds exactly when `f` succeeds on every leaf, and then agrees
   * with `map` by any total `g` that matches `f` where `f` succeeds.
   */
  lemma {:induction false} TryMapIsMap<A, B>(e: IRBexpr<A>, f: A -> Result<B>, g: A -> B)
    requires forall x :: f(x).Ok? ==> f(x).value == g(x)
    ensures TryMap(e, f).Ok? <==> LeavesOk(e, f)
    ensures TryMap(e, f).Ok? ==> TryMap(e, f).value == Map(e, g)
  {
    match e
    case And(xs) =>
      var rs := seq(|xs|, i requires 0 <= i < |xs| => TryMap(xs[i], f));
      forall i | 0 <= i < |xs| ensures rs[i].Ok? <==> LeavesOk(xs[i], f)
        ensures rs[i].Ok? ==> rs[i].value == Map(xs[i], g) { TryMapIsMap(xs[i], f, g); }
    case Or(xs) =>
      var rs := seq(|xs|, i requires 0 <= i < |xs| => TryMap(xs[i], f));
      forall i | 0 <= i < |xs| ensures rs[i].Ok? <==> LeavesOk(xs[i], f)
        ensures rs[i].Ok? ==> rs[i].value == Map(xs[i], g) { TryMapIsMap(xs[i], f, g); }
    case Not(x) => TryMapIsMap(x, f, g);
    case Implies(a, b) => TryMapIsMap(a, f, g); TryMapIsMap(b, f, g);
    case Iff(a, b) => TryMapIsMap(a, f, g); TryMapIsMap(b, f, g);
    case _ =>
  }

  // ---------------------------------------------------------------- meaning over the field

  /** A comparison holds when it holds between the values of its sides in the field of size `p`. */
  function AtomOf(p: AExpr.Felt, io: FuncIO -> nat, ch: AExpr.ChallengeId -> nat): (CmpOp, AExpr.IRAexpr, AExpr.IRAexpr) -> bool
  {
    (op, l, r) => p > 0 && CmpHolds(op, AExpr.Eval(l, p, io, ch), AExpr.Eval(r, p, io, ch))
  }

  /** A determinism obligation on `a` holds when `det` accepts the value of `a`. */
  function DetOf(p: AExpr.Felt, io: FuncIO -> nat, ch: AExpr.ChallengeId -> nat, det: nat -> bool): AExpr.IRAexpr -> bool
  {
    a => p > 0 && det(AExpr.Eval(a, p, io, ch))
  }

  predicate Holds(e: IRBexpr<AExpr.IRAexpr>, p: AExpr.Felt, io: FuncIO -> nat, ch: AExpr.ChallengeId -> nat, det: nat -> bool)
  {
    HoldsWith(e, AtomOf(p, io, ch), DetOf(p, io, ch, det))
  }

  // ---------------------------------------------------------------- canonicalize

  /** A comparison after `canonicalize_constraint`: rewritten when a pattern applies, else unchanged. */
  function CanonCmp(op: CmpOp, l: AExpr.IRAexpr, r: AExpr.IRAexpr): (c: IRBexpr<AExpr.IRAexpr>)
    ensures c.Cmp?
  {
    match Canon.CanonicalizeConstraint(op, l, r)
    case Some(t) => Cmp(t.0, t.1, t.2)
    case None => Cmp(op, l, r)
  }

  /**
   * `canonicalize`: comparisons are canonicalised; a negation is pushed into the
   * literal or comparison it ends up over (a negated comparison becomes the
   * comparison with the complementary operator, canonicalised again).
   */
  function Canonicalize(e: IRBexpr<AExpr.IRAexpr>): IRBexpr<AExpr.IRAexpr>
  {
    match e
    case True => e
    case False => e
    case Cmp(op, l, r) => CanonCmp(op, l, r)
    case And(xs) => And(seq(|xs|, i requires 0 <= i < |xs| => Canonicalize(xs[i])))
    case Or(xs) => Or(seq(|xs|, i requires 0 <= i < |xs| => Canonicalize(xs[i])))
    case Not(x) =>
      var cx := Canonicalize(x);
      if cx.True? then False
      else if cx.False? then True
      else if cx.Cmp? then CanonCmp(Complement(cx.op), cx.lhs, cx.rhs)
      else Not(cx)
    case Det(_) => e
    case Implies(a, b) => Implies(Canonicalize(a), Canonicalize(b))
    case Iff(a, b) => Iff(Canonicalize(a), Canonicalize(b))
  }

  /** No negation is left directly over a literal or a comparison. */
  predicate NoNegatedAtoms<A>(e: IRBexpr<A>)
  {
    match e
    case And(xs) => forall i :: 0 <= i < |xs| ==> NoNegatedAtoms(xs[i])
    case Or(xs) => forall i :: 0 <= i < |xs| ==> NoNegatedAtoms(xs[i])
    case Not(x) => !(x.True? || x.False? || x.Cmp?) && NoNegatedAtoms(x)
    case Implies(a, b) => NoNegatedAtoms(a) && NoNegatedAtoms(b)
    case Iff(a, b) => NoNegatedAtoms(a) && NoNegatedAtoms(b)
    case _ => true
  }

  /** Negating a comparison that no pattern rewrites yields the complementary comparison. */
  lemma CanonicalizeNegatedCmp(op: CmpOp, l: AExpr.IRAexpr, r: AExpr.IRAexpr)
    requires Canon.CanonicalizeConstraint(op, l, r).None?
    requires Canon.CanonicalizeConstraint(Complement(op), l, r).None?
    ensures Canonicalize(Not(Cmp(op, l, r))) == Cmp(Complement(op), l, r)
  {
  }

  /** Canonicalisation leaves no negation over a literal or a comparison. */
  lemma {:induction false} CanonicalizeNoNegatedAtoms(e: IRBexpr<AExpr.IRAexpr>)
    ensures NoNegatedAtoms(Canonicalize(e))
  {
    match e
    case And(xs) =>
      var ys := Canonicalize(e).args;
      forall i | 0 <= i < |xs| ensures NoNegatedAtoms(ys[i]) {
        assert ys[i] == Canonicalize(xs[i]);
        CanonicalizeNoNegatedAtoms(xs[i]);
      }
    case Or(xs) =>
      var ys := Canonicalize(e).args;
      forall i | 0 <= i < |xs| ensures NoNegatedAtoms(ys[i]) {
        assert ys[i] == Canonicalize(xs[i]);
        CanonicalizeNoNegatedAtoms(xs[i]);
      }
    case Not(x) => CanonicalizeNoNegatedAtoms(x);
    case Implies(a, b) => CanonicalizeNoNegatedAtoms(a); CanonicalizeNoNegatedAtoms(b);
    case Iff(a, b) => CanonicalizeNoNegatedAtoms(a); CanonicalizeNoNegatedAtoms(b);
    case _ =>
  }

  lemma CanonCmpSound(op: CmpOp, l: AExpr.IRAexpr, r: AExpr.IRAexpr, p: AExpr.Felt, io: FuncIO -> nat, ch: AExpr.ChallengeId -> nat, det: nat -> bool)
    requires p > 0
    ensures Holds(CanonCmp(op, l, r), p, io, ch, det) <==> Holds(Cmp(op, l, r), p, io, ch, det)
  {
    if Canon.CanonicalizeConstraint(op, l, r).Some? {
      Canon.CanonicalizeConstraintSound(op, l, r, p, io, ch);
    }
  }

  /** Canonicalisation never changes whether a formula holds. */
  lemma {:induction false} CanonicalizePreservesHolds(e: IRBexpr<AExpr.IRAexpr>, p: AExpr.Felt, io: FuncIO -> nat, ch: AExpr.ChallengeId -> nat, det: nat -> bool)
    requires p > 0
    ensures Holds(Canonicalize(e), p, io, ch, det) <==> Holds(e, p, io, ch, det)
  {
    match e
    case Cmp(op, l, r) => CanonCmpSound(op, l, r, p, io, ch, det);
    case And(xs) =>
      var ys := Canonicalize(e).args;
      forall i | 0 <= i < |xs| ensures Holds(ys[i], p, io, ch, det) <==> Holds(xs[i], p, io, ch, det) {
        assert ys[i] == Canonicalize(xs[i]);
        CanonicalizePreservesHolds(xs[i], p, io, ch, det);
      }
    case Or(xs) =>
      var ys := Canonicalize(e).args;
      forall i | 0 <= i < |xs| ensures Holds(ys[i], p, io, ch, det) <==> Holds(xs[i], p, io, ch, det) {
        assert ys[i] == Canonicalize(xs[i]);
        CanonicalizePreservesHolds(xs[i], p, io, ch, det);
      }
      if Holds(e, p, io, ch, det) {
        var i :| 0 <= i < |xs| && Holds(xs[i], p, io, ch, det);
        assert Holds(ys[i], p, io, ch, det);
      }
      if Holds(Canonicalize(e), p, io, ch, det) {
        var i :| 0 <= i < |ys| && Holds(ys[i], p, io, ch, det);
        assert Holds(xs[i], p, io, ch, det);
      }
    case Not(x) =>
      CanonicalizePreservesHolds(x, p, io, ch, det);
      var cx := Canonicalize(x);
      if cx.Cmp? {
        var a, b := AExpr.Eval(cx.lhs, p, io, ch), AExpr.Eval(cx.rhs, p, io, ch);
        assert CmpHolds(Complement(cx.op), a, b) <==> !CmpHolds(cx.op, a, b);
        CanonCmpSound(Complement(cx.op), cx.lhs, cx.rhs, p, io, ch, det);
      }
    case Implies(a, b) =>
      CanonicalizePreservesHolds(a, p, io, ch, det);
      CanonicalizePreservesHolds(b, p, io, ch, det);
    case Iff(a, b) =>
      CanonicalizePreservesHolds(a, p, io, ch, det);
      CanonicalizePreservesHolds(b, p, io, ch, det);
    case _ =>
  }

  // ---------------------------------------------------------------- constant folding

  /** `retain`: keeps, in order, the formulas that are not the literal `b`. */
  function DropLiteral<A>(ys: seq<IRBexpr<A>>, b: bool): (zs: seq<IRBexpr<A>>)
    ensures |zs| <= |ys|
    ensures forall i :: 0 <= i < |zs| ==> ConstValue(zs[i]) != Some(b)
  {
    if ys == [] then []
    else if ConstValue(ys[0]) == Some(b) then DropLiteral(ys[1..], b)
    else [ys[0]] + DropLiteral(ys[1..], b)
  }

  /** Dropping literal trues does not change whether all of a list hold. */
  lemma {:induction false} DropTrueAll<A>(ys: seq<IRBexpr<A>>, atom: (CmpOp, A, A) -> bool, det: A -> bool)
    ensures AllHold(DropLiteral(ys, true), atom, det) <==> AllHold(ys, atom, det)
  {
    if ys != [] {
      DropTrueAll(ys[1..], atom, det);
      var rest := DropLiteral(ys[1..], true);
      assert ys == [ys[0]] + ys[1..];
      AllHoldConcat([ys[0]], ys[1..], atom, det);
      if ConstValue(ys[0]) == Some(true) {
        assert DropLiteral(ys, true) == rest;
        assert AllHold([ys[0]], atom, det);
      } else {
        assert DropLiteral(ys, true) == [ys[0]] + rest;
        AllHoldConcat([ys[0]], rest, atom, det);
      }
    }
  }

  /** Dropping literal falses does not change whether some of a list holds. */
  lemma {:induction false} DropFalseAny<A>(ys: seq<IRBexpr<A>>, atom: (CmpOp, A, A) -> bool, det: A -> bool)
    ensures AnyHolds(DropLiteral(ys, false), atom, det) <==> AnyHolds(ys, atom, det)
  {
    if ys != [] {
      DropFalseAny(ys[1..], atom, det);
      var rest := DropLiteral(ys[1..], false);
      assert ys == [ys[0]] + ys[1..];
      AnyHoldsConcat([ys[0]], ys[1..], atom, det);
      if ConstValue(ys[0]) == Some(false) {
        assert DropLiteral(ys, false) == rest;
        assert !AnyHolds([ys[0]], atom, det);
      } else {
        assert DropLiteral(ys, false) == [ys[0]] + rest;
        AnyHoldsConcat([ys[0]], rest, atom, det);
      }
    }
  }

  /** The `And` arm of `constant_fold_impl`, applied to the already folded operands. */
  function FoldAnd<A>(ys: seq<IRBexpr<A>>): IRBexpr<A>
  {
    if exists i :: 0 <= i < |ys| && ys[i].False? then False
    else
      var zs := DropLiteral(ys, true);
      if zs == [] then True else And(zs)
  }

  /** The `Or` arm of `constant_fold_impl`, applied to the already folded operands. */
  function FoldOr<A>(ys: seq<IRBexpr<A>>): IRBexpr<A>
  {
    if exists i :: 0 <= i < |ys| && ys[i].True? then True
    else
      var zs := DropLiteral(ys, false);
      if zs == [] then False else Or(zs)
  }

  /** The folded conjunction holds exactly when all its operands hold. */
  lemma FoldAndHolds<A>(ys: seq<IRBexpr<A>>, atom: (CmpOp, A, A) -> bool, det: A -> bool)
    ensures HoldsWith(FoldAnd(ys), atom, det) <==> AllHold(ys, atom, det)
  {
    if exists i :: 0 <= i < |ys| && ys[i].False? {
      var i :| 0 <= i < |ys| && ys[i].False?;
      assert !HoldsWith(ys[i], atom, det);
    } else {
      DropTrueAll(ys, atom, det);
      var zs := DropLiteral(ys, true);
      if zs == [] {
        assert FoldAnd(ys) == True;
      } else {
        assert FoldAnd(ys) == And(zs);
        assert HoldsWith(And(zs), atom, det) == AllHold(zs, atom, det);
      }
    }
  }

  /** The folded disjunction holds exactly when some operand holds. */
  lemma FoldOrHolds<A>(ys: seq<IRBexpr<A>>, atom: (CmpOp, A, A) -> bool, det: A -> bool)
    ensures HoldsWith(FoldOr(ys), atom, det) <==> AnyHolds(ys, atom, det)
  {
    if exists i :: 0 <= i < |ys| && ys[i].True? {
      var i :| 0 <= i < |ys| && ys[i].True?;
      assert HoldsWith(ys[i], atom, det);
    } else {
      DropFalseAny(ys, atom, det);
      var zs := DropLiteral(ys, false);
      if zs == [] {
        assert FoldOr(ys) == False;
      } else {
        assert FoldOr(ys) == Or(zs);
        assert HoldsWith(Or(zs), atom, det) == AnyHolds(zs, atom, det);
      }
    }
  }

  /** Lists whose formulas hold pairwise alike agree on all and on some holding. */
  lemma HoldPointwise<A>(xs: seq<IRBexpr<A>>, ys: seq<IRBexpr<A>>, atom: (CmpOp, A, A) -> bool, det: A -> bool)
    requires |xs| == |ys|
    requires forall i :: 0 <= i < |xs| ==> (HoldsWith(ys[i], atom, det) <==> HoldsWith(xs[i], atom, det))
    ensures AllHold(ys, atom, det) <==> AllHold(xs, atom, det)
    ensures AnyHolds(ys, atom, det) <==> AnyHolds(xs, atom, det)
  {
    if AnyHolds(ys, atom, det) {
      var i :| 0 <= i < |ys| && HoldsWith(ys[i], atom, det);
      assert HoldsWith(xs[i], atom, det);
    }
    if AnyHolds(xs, atom, det) {
      var i :| 0 <= i < |xs| && HoldsWith(xs[i], atom, det);
      assert HoldsWith(ys[i], atom, det);
    }
  }

  /** Dropping a literal keeps exactly the other formulas of the list. */
  lemma {:induction false} DropLiteralMembers<A>(ys: seq<IRBexpr<A>>, b: bool, y: IRBexpr<A>)
    ensures y in DropLiteral(ys, b) <==> y in ys && ConstValue(y) != Some(b)
  {
    if ys != [] {
      DropLiteralMembers(ys[1..], b, y);
      assert ys == [ys[0]] + ys[1..];
    }
  }

  /**
   * `constant_fold_impl`. `asWritten` selects the source's own steps: it
   * replaces `!b` by `b` for a literal `b` (see `ConstantFoldAsWritten`), and
   * folds arithmetic sides with `%=` as written (see `AExpr.Fold`); the
   * corrected fold gives the opposite literal and reduces every constant.
   */
  function Fold(e: IRBexpr<AExpr.IRAexpr>, p: AExpr.Felt, asWritten: bool): IRBexpr<AExpr.IRAexpr>
    requires p > 0
  {
    match e
    case True => e
    case False => e
    case Cmp(op, l, r) =>
      var fl, fr := AExpr.Fold(l, p, asWritten), AExpr.Fold(r, p, asWritten);
      if fl.Constant? && fr.Constant? then FromBool(CmpHolds(op, fl.c, fr.c)) else Cmp(op, fl, fr)
    case And(xs) => FoldAnd(seq(|xs|, i requires 0 <= i < |xs| => Fold(xs[i], p, asWritten)))
    case Or(xs) => FoldOr(seq(|xs|, i requires 0 <= i < |xs| => Fold(xs[i], p, asWritten)))
    case Not(x) =>
      var fx := Fold(x, p, asWritten);
      if ConstValue(fx).Some? then (if asWritten then fx else FromBool(fx.False?)) else Not(fx)
    case Det(a) => Det(AExpr.Fold(a, p, asWritten))
    case Implies(a, b) =>
      var fa, fb := Fold(a, p, asWritten), Fold(b, p, asWritten);
      if ConstValue(fa).Some? && ConstValue(fb).Some? then FromBool(!fa.True? || fb.True?) else Implies(fa, fb)
    case Iff(a, b) =>
      var fa, fb := Fold(a, p, asWritten), Fold(b, p, asWritten);
      if ConstValue(fa).Some? && ConstValue(fb).Some? then FromBool(fa.True? == fb.True?) else Iff(fa, fb)
  }

  /** The fold the rest of the model uses, with the negation of a literal corrected. */
  function ConstantFold(e: IRBexpr<AExpr.IRAexpr>, p: AExpr.Felt): IRBexpr<AExpr.IRAexpr>
    requires p > 0
  {
    Fold(e, p, false)
  }

  /** The fold exactly as the source writes it. */
  function ConstantFoldAsWritten(e: IRBexpr<AExpr.IRAexpr>, p: AExpr.Felt): IRBexpr<AExpr.IRAexpr>
    requires p > 0
  {
    Fold(e, p, true)
  }

  /** As written, `!true` folds to `true`, which does not hold where `!true` does not. */
  lemma ConstantFoldAsWrittenNegation(p: AExpr.Felt, io: FuncIO -> nat, ch: AExpr.ChallengeId -> nat, det: nat -> bool)
    requires p > 0
    ensures ConstantFoldAsWritten(Not(True), p) == True
    ensures ConstantFoldAsWritten(Not(False), p) == False
    ensures Holds(ConstantFoldAsWritten(Not(True), p), p, io, ch, det) != Holds(Not(True), p, io, ch, det)
    ensures ConstantFold(Not(True), p) == False && ConstantFold(Not(False), p) == True
  {
    assert Fold(True, p, true) == True && Fold(False, p, true) == False;
    assert Fold(Not(True), p, true) == True && Fold(Not(False), p, true) == False;
    assert Fold(Not(True), p, false) == False && Fold(Not(False), p, false) == True;
  }

  /** The value of a folded arithmetic constant is the constant itself. */
  lemma FoldedConstantEval(a: AExpr.IRAexpr, p: AExpr.Felt, io: FuncIO -> nat, ch: AExpr.ChallengeId -> nat)
    requires p > 0 && AExpr.ConstantFold(a, p).Constant?
    ensures AExpr.Eval(a, p, io, ch) == AExpr.ConstantFold(a, p).c
  {
    AExpr.FoldPreservesEval(a, p, false, io, ch);
    AExpr.ModOfSmall(AExpr.ConstantFold(a, p).c, p);
  }

  /** The corrected fold never changes whether a formula holds. */
  lemma {:induction false} ConstantFoldPreservesHolds(e: IRBexpr<AExpr.IRAexpr>, p: AExpr.Felt, io: FuncIO -> nat, ch: AExpr.ChallengeId -> nat, det: nat -> bool)
    requires p > 0
    ensures Holds(ConstantFold(e, p), p, io, ch, det) <==> Holds(e, p, io, ch, det)
  {
    var atom, dt := AtomOf(p, io, ch), DetOf(p, io, ch, det);
    match e
    case Cmp(op, l, r) =>
      AExpr.FoldPreservesEval(l, p, false, io, ch);
      AExpr.FoldPreservesEval(r, p, false, io, ch);
      if AExpr.ConstantFold(l, p).Constant? && AExpr.ConstantFold(r, p).Constant? {
        FoldedConstantEval(l, p, io, ch);
        FoldedConstantEval(r, p, io, ch);
      }
    case And(xs) =>
      var ys := seq(|xs|, i requires 0 <= i < |xs| => Fold(xs[i], p, false));
      forall i | 0 <= i < |xs| ensures HoldsWith(ys[i], atom, dt) <==> HoldsWith(xs[i], atom, dt) {
        ConstantFoldPreservesHolds(xs[i], p, io, ch, det);
      }
      assert ConstantFold(e, p) == FoldAnd(ys);
      FoldAndHolds(ys, atom, dt);
      HoldPointwise(xs, ys, atom, dt);
      assert HoldsWith(e, atom, dt) == AllHold(xs, atom, dt);
    case Or(xs) =>
      var ys := seq(|xs|, i requires 0 <= i < |xs| => Fold(xs[i], p, false));
      forall i | 0 <= i < |xs| ensures HoldsWith(ys[i], atom, dt) <==> HoldsWith(xs[i], atom, dt) {
        ConstantFoldPreservesHolds(xs[i], p, io, ch, det);
      }
      assert ConstantFold(e, p) == FoldOr(ys);
      FoldOrHolds(ys, atom, dt);
      HoldPointwise(xs, ys, atom, dt);
      assert HoldsWith(e, atom, dt) == AnyHolds(xs, atom, dt);
    case Not(x) => ConstantFoldPreservesHolds(x, p, io, ch, det);
    case Det(a) => AExpr.FoldPreservesEval(a, p, false, io, ch);
    case Implies(a, b) =>
      ConstantFoldPreservesHolds(a, p, io, ch, det);
      ConstantFoldPreservesHolds(b, p, io, ch, det);
    case Iff(a, b) =>
      ConstantFoldPreservesHolds(a, p, io, ch, det);
      ConstantFoldPreservesHolds(b, p, io, ch, det);
    case _ =>
  }

  /**
   * Folding a conjunction: a literal false among the folded operands gives
   * `False`, literal trues are dropped, and nothing left gives `True`.
   */
  lemma ConstantFoldAnd(xs: seq<IRBexpr<AExpr.IRAexpr>>, p: AExpr.Felt)
    requires p > 0
    ensures var r := ConstantFold(And(xs), p);
      && (r.True? || r.False? || r.And?)
      && (r.False? <==> exists i :: 0 <= i < |xs| && ConstantFold(xs[i], p).False?)
      && (r.True? <==> forall i :: 0 <= i < |xs| ==> ConstantFold(xs[i], p).True?)
      && (r.And? ==> |r.args| > 0 && forall i :: 0 <= i < |r.args| ==> ConstValue(r.args[i]).None?)
      && (r.And? ==> forall y :: y in r.args <==> (exists i :: 0 <= i < |xs| && y == ConstantFold(xs[i], p)) && !y.True?)
  {
    var ys := seq(|xs|, i requires 0 <= i < |xs| => Fold(xs[i], p, false));
    assert forall i :: 0 <= i < |xs| ==> ys[i] == ConstantFold(xs[i], p);
    assert ConstantFold(And(xs), p) == FoldAnd(ys);
    var zs := DropLiteral(ys, true);
    forall y ensures y in zs <==> (exists i :: 0 <= i < |xs| && y == ConstantFold(xs[i], p)) && ConstValue(y) != Some(true) {
      DropLiteralMembers(ys, true, y);
      if y in ys { var i :| 0 <= i < |ys| && ys[i] == y; }
    }
    if !exists i :: 0 <= i < |ys| && ys[i].False? {
      if zs == [] {
        forall i | 0 <= i < |xs| ensures ys[i].True? { assert ys[i] !in zs; }
      } else {
        assert zs[0] in zs;
        var i :| 0 <= i < |xs| && zs[0] == ConstantFold(xs[i], p);
        assert !ys[i].True?;
      }
    }
  }

  /**
   * Folding a disjunction: a literal true among the folded operands gives
   * `True`, literal falses are dropped, and nothing left gives `False`.
   */
  lemma ConstantFoldOr(xs: seq<IRBexpr<AExpr.IRAexpr>>, p: AExpr.Felt)
    requires p > 0
    ensures var r := ConstantFold(Or(xs), p);
      && (r.True? || r.False? || r.Or?)
      && (r.True? <==> exists i :: 0 <= i < |xs| && ConstantFold(xs[i], p).True?)
      && (r.False? <==> forall i :: 0 <= i < |xs| ==> ConstantFold(xs[i], p).False?)
      && (r.Or? ==> |r.args| > 0 && forall i :: 0 <= i < |r.args| ==> ConstValue(r.args[i]).None?)
      && (r.Or? ==> forall y :: y in r.args <==> (exists i :: 0 <= i < |xs| && y == ConstantFold(xs[i], p)) && !y.False?)
  {
    var ys := seq(|xs|, i requires 0 <= i < |xs| => Fold(xs[i], p, false));
    assert forall i :: 0 <= i < |xs| ==> ys[i] == ConstantFold(xs[i], p);
    assert ConstantFold(Or(xs), p) == FoldOr(ys);
    var zs := DropLiteral(ys, false);
    forall y ensures y in zs <==> (exists i :: 0 <= i < |xs| && y == ConstantFold(xs[i], p)) && ConstValue(y) != Some(false) {
      DropLiteralMembers(ys, false, y);
      if y in ys { var i :| 0 <= i < |ys| && ys[i] == y; }
    }
    if !exists i :: 0 <= i < |ys| && ys[i].True? {
      if zs == [] {
        forall i | 0 <= i < |xs| ensures ys[i].False? { assert ys[i] !in zs; }
      } else {
        assert zs[0] in zs;
        var i :| 0 <= i < |xs| && zs[0] == ConstantFold(xs[i], p);
        assert !ys[i].False?;
      }
    }
  }

  /**
   * A comparison of two constants folds to the literal result of comparing their
   * residues; as written, it compares the constants after the as-written `%=`.
   */
  lemma ConstantFoldCmpConstants(op: CmpOp, a: AExpr.Felt, b: AExpr.Felt, p: AExpr.Felt)
    requires p > 0
    ensures ConstantFold(Cmp(op, AExpr.Constant(a), AExpr.Constant(b)), p) == FromBool(CmpHolds(op, a % p, b % p))
    ensures ConstantFoldAsWritten(Cmp(op, AExpr.Constant(a), AExpr.Constant(b)), p) ==
      FromBool(CmpHolds(op, AExpr.RemAssign(a, p), AExpr.RemAssign(b, p)))
  {
    AExpr.ConstantFoldConstant(a, p);
    AExpr.ConstantFoldConstant(b, p);
  }

  /**
   * As written, `p == 0` folds to `false`: `%=` leaves the constant `p` as it
   * is, although `p` is 0 in the field and the comparison holds. The corrected
   * fold gives `true`.
   */
  lemma ConstantFoldAsWrittenModulus(p: AExpr.Felt, io: FuncIO -> nat, ch: AExpr.ChallengeId -> nat, det: nat -> bool)
    requires p > 0
    ensures ConstantFoldAsWritten(Cmp(Eq, AExpr.Constant(p), AExpr.Constant(0)), p) == False
    ensures Holds(Cmp(Eq, AExpr.Constant(p), AExpr.Constant(0)), p, io, ch, det)
    ensures ConstantFold(Cmp(Eq, AExpr.Constant(p), AExpr.Constant(0)), p) == True
  {
    ConstantFoldCmpConstants(Eq, p, 0, p);
    AExpr.ModOfMultiplePlus(1, 0, p);
    AExpr.ModOfSmall(0, p);
  }

  /** When both sides fold to literals, an implication folds to `!a || b` and a double implication to `a == b`. */
  lemma ConstantFoldImpliesIff(a: IRBexpr<AExpr.IRAexpr>, b: IRBexpr<AExpr.IRAexpr>, p: AExpr.Felt)
    requires p > 0
    requires ConstValue(ConstantFold(a, p)).Some? && ConstValue(ConstantFold(b, p)).Some?
    ensures var va, vb := ConstantFold(a, p).True?, ConstantFold(b, p).True?;
      ConstantFold(Implies(a, b), p) == FromBool(!va || vb) &&
      ConstantFold(Iff(a, b), p) == FromBool(va == vb)
  {
  }

  // ---------------------------------------------------------------- equality and equivalence

  /** `PartialEq` as written: structural, except that `False == False` is false. */
  predicate EqAsWritten<A(==)>(a: IRBexpr<A>, b: IRBexpr<A>)
  {
    match (a, b)
    case (Cmp(op1, l1, r1), Cmp(op2, l2, r2)) => op1 == op2 && l1 == l2 && r1 == r2
    case (And(xs), And(ys)) => |xs| == |ys| && forall i :: 0 <= i < |xs| ==> EqAsWritten(xs[i], ys[i])
    case (Or(xs), Or(ys)) => |xs| == |ys| && forall i :: 0 <= i < |xs| ==> EqAsWritten(xs[i], ys[i])
    case (Not(x), Not(y)) => EqAsWritten(x, y)
    case (True, True) => true
    case (False, False) => false
    case (Det(x), Det(y)) => x == y
    case (Implies(a1, b1), Implies(a2, b2)) => EqAsWritten(a1, a2) && EqAsWritten(b1, b2)
    case (Iff(a1, b1), Iff(a2, b2)) => EqAsWritten(a1, a2) && EqAsWritten(b1, b2)
    case _ => false
  }

  /** The corrected equality, with `False == False`. */
  predicate Equal<A(==)>(a: IRBexpr<A>, b: IRBexpr<A>)
  {
    match (a, b)
    case (Cmp(op1, l1, r1), Cmp(op2, l2, r2)) => op1 == op2 && l1 == l2 && r1 == r2
    case (And(xs), And(ys)) => |xs| == |ys| && forall i :: 0 <= i < |xs| ==> Equal(xs[i], ys[i])
    case (Or(xs), Or(ys)) => |xs| == |ys| && forall i :: 0 <= i < |xs| ==> Equal(xs[i], ys[i])
    case (Not(x), Not(y)) => Equal(x, y)
    case (True, True) => true
    case (False, False) => true
    case (Det(x), Det(y)) => x == y
    case (Implies(a1, b1), Implies(a2, b2)) => Equal(a1, a2) && Equal(b1, b2)
    case (Iff(a1, b1), Iff(a2, b2)) => Equal(a1, a2) && Equal(b1, b2)
    case _ => false
  }

  /** `e` contains the literal `False` somewhere. */
  predicate HasFalse<A>(e: IRBexpr<A>)
  {
    match e
    case False => true
    case And(xs) => exists i :: 0 <= i < |xs| && HasFalse(xs[i])
    case Or(xs) => exists i :: 0 <= i < |xs| && HasFalse(xs[i])
    case Not(x) => HasFalse(x)
    case Implies(a, b) => HasFalse(a) || HasFalse(b)
    case Iff(a, b) => HasFalse(a) || HasFalse(b)
    case _ => false
  }

  /** As written, equality is identity restricted to formulas without a `False`; so it is not reflexive. */
  lemma {:induction false} EqAsWrittenMeaning<A>(a: IRBexpr<A>, b: IRBexpr<A>)
    ensures EqAsWritten(a, b) <==> a == b && !HasFalse(a)
  {
    match (a, b)
    case (And(xs), And(ys)) =>
      if |xs| == |ys| {
        forall i | 0 <= i < |xs| ensures EqAsWritten(xs[i], ys[i]) <==> xs[i] == ys[i] && !HasFalse(xs[i]) {
          EqAsWrittenMeaning(xs[i], ys[i]);
        }
        if forall i :: 0 <= i < |xs| ==> xs[i] == ys[i] { assert xs == ys; }
      }
    case (Or(xs), Or(ys)) =>
      if |xs| == |ys| {
        forall i | 0 <= i < |xs| ensures EqAsWritten(xs[i], ys[i]) <==> xs[i] == ys[i] && !HasFalse(xs[i]) {
          EqAsWrittenMeaning(xs[i], ys[i]);
        }
        if forall i :: 0 <= i < |xs| ==> xs[i] == ys[i] { assert xs == ys; }
      }
    case (Not(x), Not(y)) => EqAsWrittenMeaning(x, y);
    case (Implies(a1, b1), Implies(a2, b2)) => EqAsWrittenMeaning(a1, a2); EqAsWrittenMeaning(b1, b2);
    case (Iff(a1, b1), Iff(a2, b2)) => EqAsWrittenMeaning(a1, a2); EqAsWrittenMeaning(b1, b2);
    case _ =>
  }

  /** The smallest witness: `False` is not equal to itself as written. */
  lemma EqAsWrittenNotReflexive<A>(x: A)
    ensures !EqAsWritten<A>(False, False)
    ensures !EqAsWritten<A>(And([Det(x), False]), And([Det(x), False]))
  {
    EqAsWrittenMeaning<A>(And([Det(x), False]), And([Det(x), False]));
    assert HasFalse<A>(And([Det(x), False])) by { assert And([Det(x), False]).args[1] == False; }
  }

  /** The corrected equality is exactly identity. */
  lemma {:induction false} EqualIsIdentity<A>(a: IRBexpr<A>, b: IRBexpr<A>)
    ensures Equal(a, b) <==> a == b
  {
    match (a, b)
    case (And(xs), And(ys)) =>
      if |xs| == |ys| {
        forall i | 0 <= i < |xs| ensures Equal(xs[i], ys[i]) <==> xs[i] == ys[i] { EqualIsIdentity(xs[i], ys[i]); }
        if forall i :: 0 <= i < |xs| ==> xs[i] == ys[i] { assert xs == ys; }
      }
    case (Or(xs), Or(ys)) =>
      if |xs| == |ys| {
        forall i | 0 <= i < |xs| ensures Equal(xs[i], ys[i]) <==> xs[i] == ys[i] { EqualIsIdentity(xs[i], ys[i]); }
        if forall i :: 0 <= i < |xs| ==> xs[i] == ys[i] { assert xs == ys; }
      }
    case (Not(x), Not(y)) => EqualIsIdentity(x, y);
    case (Implies(a1, b1), Implies(a2, b2)) => EqualIsIdentity(a1, a2); EqualIsIdentity(b1, b2);
    case (Iff(a1, b1), Iff(a2, b2)) => EqualIsIdentity(a1, a2); EqualIsIdentity(b1, b2);
    case _ =>
  }

  /**
   * `SymbolicEqv` on formulas: same constructors, same operators and
   * equivalent arithmetic leaves. The final catch-all also covers two equal
   * literals, so `True` is not equivalent to `True`.
   */
  predicate SymbolicEqv(a: IRBexpr<AExpr.IRAexpr>, b: IRBexpr<AExpr.IRAexpr>, ioEqv: (FuncIO, FuncIO) -> bool)
  {
    match (a, b)
    case (Cmp(op1, l1, r1), Cmp(op2, l2, r2)) =>
      op1 == op2 && AExpr.SymbolicEqv(l1, l2, ioEqv) && AExpr.SymbolicEqv(r1, r2, ioEqv)
    case (And(xs), And(ys)) => |xs| == |ys| && forall i :: 0 <= i < |xs| ==> SymbolicEqv(xs[i], ys[i], ioEqv)
    case (Or(xs), Or(ys)) => |xs| == |ys| && forall i :: 0 <= i < |xs| ==> SymbolicEqv(xs[i], ys[i], ioEqv)
    case (Not(x), Not(y)) => SymbolicEqv(x, y, ioEqv)
    case (Det(x), Det(y)) => AExpr.SymbolicEqv(x, y, ioEqv)
    case (Implies(a1, b1), Implies(a2, b2)) => SymbolicEqv(a1, a2, ioEqv) && SymbolicEqv(b1, b2, ioEqv)
    case (Iff(a1, b1), Iff(a2, b2)) => SymbolicEqv(a1, a2, ioEqv) && SymbolicEqv(b1, b2, ioEqv)
    case _ => false
  }

  /** `e` contains a literal somewhere. */
  predicate HasLiteral<A>(e: IRBexpr<A>)
  {
    match e
    case True => true
    case False => true
    case And(xs) => exists i :: 0 <= i < |xs| && HasLiteral(xs[i])
    case Or(xs) => exists i :: 0 <= i < |xs| && HasLiteral(xs[i])
    case Not(x) => HasLiteral(x)
    case Implies(a, b) => HasLiteral(a) || HasLiteral(b)
    case Iff(a, b) => HasLiteral(a) || HasLiteral(b)
    case _ => false
  }

  /** With identity on IO, equivalence is identity on literal-free formulas, and literals are never equivalent. */
  lemma {:induction false} SymbolicEqvWithEquality(a: IRBexpr<AExpr.IRAexpr>, b: IRBexpr<AExpr.IRAexpr>, ioEqv: (FuncIO, FuncIO) -> bool)
    requires forall x, y :: ioEqv(x, y) <==> x == y
    ensures SymbolicEqv(a, b, ioEqv) <==> a == b && !HasLiteral(a)
  {
    match (a, b)
    case (Cmp(_, l1, r1), Cmp(_, l2, r2)) =>
      AExpr.SymbolicEqvWithEquality(l1, l2, ioEqv);
      AExpr.SymbolicEqvWithEquality(r1, r2, ioEqv);
    case (Det(x), Det(y)) => AExpr.SymbolicEqvWithEquality(x, y, ioEqv);
    case (And(xs), And(ys)) =>
      if |xs| == |ys| {
        forall i | 0 <= i < |xs| ensures SymbolicEqv(xs[i], ys[i], ioEqv) <==> xs[i] == ys[i] && !HasLiteral(xs[i]) {
          SymbolicEqvWithEquality(xs[i], ys[i], ioEqv);
        }
        if forall i :: 0 <= i < |xs| ==> xs[i] == ys[i] { assert xs == ys; }
      }
    case (Or(xs), Or(ys)) =>
      if |xs| == |ys| {
        forall i | 0 <= i < |xs| ensures SymbolicEqv(xs[i], ys[i], ioEqv) <==> xs[i] == ys[i] && !HasLiteral(xs[i]) {
          SymbolicEqvWithEquality(xs[i], ys[i], ioEqv);
        }
        if forall i :: 0 <= i < |xs| ==> xs[i] == ys[i] { assert xs == ys; }
      }
    case (Not(x), Not(y)) => SymbolicEqvWithEquality(x, y, ioEqv);
    case (Implies(a1, b1), Implies(a2, b2)) =>
      SymbolicEqvWithEquality(a1, a2, ioEqv); SymbolicEqvWithEquality(b1, b2, ioEqv);
    case (Iff(a1, b1), Iff(a2, b2)) =>
      SymbolicEqvWithEquality(a1, a2, ioEqv); SymbolicEqvWithEquality(b1, b2, ioEqv);
    case _ =>
  }

  /** Equivalence is symmetric when the IO relation is. */
  lemma {:induction false} SymbolicEqvSymmetric(a: IRBexpr<AExpr.IRAexpr>, b: IRBexpr<AExpr.IRAexpr>, ioEqv: (FuncIO, FuncIO) -> bool)
    requires forall x, y :: ioEqv(x, y) ==> ioEqv(y, x)
    requires SymbolicEqv(a, b, ioEqv)
    ensures SymbolicEqv(b, a, ioEqv)
  {
    match (a, b)
    case (Cmp(_, l1, r1), Cmp(_, l2, r2)) =>
      AExpr.SymbolicEqvSymmetric(l1, l2, ioEqv);
      AExpr.SymbolicEqvSymmetric(r1, r2, ioEqv);
    case (Det(x), Det(y)) => AExpr.SymbolicEqvSymmetric(x, y, ioEqv);
    case (And(xs), And(ys)) =>
      forall i | 0 <= i < |ys| ensures SymbolicEqv(ys[i], xs[i], ioEqv) { SymbolicEqvSymmetric(xs[i], ys[i], ioEqv); }
    case (Or(xs), Or(ys)) =>
      forall i | 0 <= i < |ys| ensures SymbolicEqv(ys[i], xs[i], ioEqv) { SymbolicEqvSymmetric(xs[i], ys[i], ioEqv); }
    case (Not(x), Not(y)) => SymbolicEqvSymmetric(x, y, ioEqv);
    case (Implies(a1, b1), Implies(a2, b2)) =>
      SymbolicEqvSymmetric(a1, a2, ioEqv); SymbolicEqvSymmetric(b1, b2, ioEqv);
    case (Iff(a1, b1), Iff(a2, b2)) =>
      SymbolicEqvSymmetric(a1, a2, ioEqv); SymbolicEqvSymmetric(b1, b2, ioEqv);
  }
}
