/**
 * Canonicalisation of a single constraint: the two shapes halo2 gates produce
 * for an equality, `x + (-y) = 0` and `1 * (x + (-y)) = 0`, are rewritten to
 * `x = y`.
 */
module Canon {
  import opened Wrappers
  import opened Func
  import opened AExpr

  /** The difference `x + (-y)` that both patterns contain. */
  predicate IsDifference(e: IRAexpr)
  {
    e.Sum? && e.rhs.Negated?
  }

  function CanonicalizeConstraint(op: CmpOp, lhs: IRAexpr, rhs: IRAexpr): (r: Option<(CmpOp, IRAexpr, IRAexpr)>)
    ensures r.Some? ==> r.value.0 == Eq
  {
    match (op, lhs, rhs)
    case (Eq, Sum(x, sumRhs), Constant(zero)) =>
      if zero == 0 && sumRhs.Negated? then Some((Eq, x, sumRhs.e)) else None
    case (Eq, Product(mulLhs, mulRhs), Constant(zero)) =>
      if zero == 0 && mulLhs.Constant? && mulLhs.c == 1 && IsDifference(mulRhs)
      then Some((Eq, mulRhs.lhs, mulRhs.rhs.e))
      else None
    case _ => None
  }

  /**
   * A rewrite happens exactly for an `Eq` against the constant 0 whose left side
   * is `x + (-y)` or `1 * (x + (-y))`, and then yields `x = y`.
   */
  lemma CanonicalizeConstraintCases(op: CmpOp, lhs: IRAexpr, rhs: IRAexpr)
    ensures CanonicalizeConstraint(op, lhs, rhs).Some? <==>
      op == Eq && rhs == Constant(0) &&
      (IsDifference(lhs) || (lhs.Product? && lhs.lhs == Constant(1) && IsDifference(lhs.rhs)))
    ensures IsDifference(lhs) && op == Eq && rhs == Constant(0) ==>
      CanonicalizeConstraint(op, lhs, rhs) == Some((Eq, lhs.lhs, lhs.rhs.e))
    ensures lhs.Product? && lhs.lhs == Constant(1) && IsDifference(lhs.rhs) && op == Eq && rhs == Constant(0) ==>
      CanonicalizeConstraint(op, lhs, rhs) == Some((Eq, lhs.rhs.lhs, lhs.rhs.rhs.e))
  {
  }

  /** In the field, `x + (-y) = 0` holds exactly when `x = y`. */
  lemma DifferenceIsZero(x: nat, y: nat, p: nat)
    requires p > 0 && x < p && y < p
    ensures ((x + (p - y) % p) % p == 0) <==> x == y
  {
    if y == 0 {
      ModOfMultiplePlus(1, 0, p);
      ModOfSmall(x, p);
    } else {
      ModOfSmall(p - y, p);
      if x >= y {
        ModOfMultiplePlus(1, x - y, p);
        assert x + (p - y) == 1 * p + (x - y);
      } else {
        ModOfSmall(x + (p - y), p);
      }
    }
  }

  /** The value of a difference `x + (-y)` is 0 exactly when `x` and `y` have the same value. */
  lemma DifferenceEval(d: IRAexpr, p: Felt, io: FuncIO -> nat, challenge: ChallengeId -> nat)
    requires p > 0 && IsDifference(d)
    ensures Eval(d, p, io, challenge) == 0 <==> Eval(d.lhs, p, io, challenge) == Eval(d.rhs.e, p, io, challenge)
  {
    var x, y := Eval(d.lhs, p, io, challenge), Eval(d.rhs.e, p, io, challenge);
    assert Eval(d.rhs, p, io, challenge) == (p - y) % p;
    assert Eval(d, p, io, challenge) == (x + (p - y) % p) % p;
    DifferenceIsZero(x, y, p);
  }

  /** `1 * s` has the value of `s`. */
  lemma UnitProductEval(s: IRAexpr, p: Felt, io: FuncIO -> nat, challenge: ChallengeId -> nat)
    requires p > 0
    ensures Eval(Product(Constant(1), s), p, io, challenge) == Eval(s, p, io, challenge)
  {
    var v := Eval(s, p, io, challenge);
    assert Eval(Product(Constant(1), s), p, io, challenge) == ((1 % p) * v) % p;
    if p == 1 {
      assert v == 0;
    } else {
      ModOfSmall(1, p);
      ModOfSmall(v, p);
    }
  }

  /** A rewrite never changes whether the constraint holds in the field. */
  lemma CanonicalizeConstraintSound(op: CmpOp, lhs: IRAexpr, rhs: IRAexpr, p: Felt, io: FuncIO -> nat, challenge: ChallengeId -> nat)
    requires p > 0
    requires CanonicalizeConstraint(op, lhs, rhs).Some?
    ensures var (op', lhs', rhs') := CanonicalizeConstraint(op, lhs, rhs).value;
      CmpHolds(op', Eval(lhs', p, io, challenge), Eval(rhs', p, io, challenge)) <==>
      CmpHolds(op, Eval(lhs, p, io, challenge), Eval(rhs, p, io, challenge))
  {
    CanonicalizeConstraintCases(op, lhs, rhs);
    assert Eval(rhs, p, io, challenge) == 0 by { ModOfSmall(0, p); }
    if lhs.Sum? {
      DifferenceEval(lhs, p, io, challenge);
    } else {
      DifferenceEval(lhs.rhs, p, io, challenge);
      UnitProductEval(lhs.rhs, p, io, challenge);
    }
  }
}
