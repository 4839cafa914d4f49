/**
 * Arithmetic IR of the halo2 frontend: field constants (`Felt`), their partial
 * arithmetic, arithmetic expressions over circuit IO and their constant folding
 * modulo the field's prime.
 */
module AExpr {
  import opened Wrappers
  import opened Func

  /** A field constant: an unbounded natural number, as `BigUint` is. */
  type Felt = nat

  /** `Felt % m`: the value itself below `m`, otherwise the remainder. */
  function Rem(a: Felt, m: Felt): (r: Felt)
    requires m > 0
    ensures r == a % m && r < m
    ensures a < m ==> r == a
  {
    if a < m then a else a % m
  }

  /**
   * `Felt %= m` as written: the value is only reduced when it is strictly
   * greater than `m`, so a value equal to `m` is left as it is.
   */
  function RemAssign(a: Felt, m: Felt): (r: Felt)
    requires m > 0
    ensures a != m ==> r == a % m
    ensures a == m ==> r == m
  {
    if a > m then Rem(a, m) else a
  }

  /** `RemAssign` leaves the modulus itself unreduced, although it is 0 in the field. */
  lemma RemAssignKeepsModulus(m: Felt)
    requires m > 0
    ensures RemAssign(m, m) == m && m % m == 0 && RemAssign(m, m) != m % m
  {
  }

  /** `%=` as intended: reduce whenever the value is not below `m`. */
  function RemAssignReduced(a: Felt, m: Felt): (r: Felt)
    requires m > 0
    ensures r == a % m && r < m
  {
    if a >= m then Rem(a, m) else a
  }

  /** `Felt - Felt`: `None` when the result would be negative. */
  function Sub(a: Felt, b: Felt): (r: Option<Felt>)
    ensures r.None? <==> a < b
    ensures r.Some? ==> r.value + b == a
  {
    if a < b then None else Some(a - b)
  }

  datatype ChallengeId = ChallengeId(index: nat, phase: nat)

  datatype IRAexpr =
    | Constant(c: Felt)
    | IO(io: FuncIO)
    | Challenge(ch: ChallengeId)
    | Negated(e: IRAexpr)
    | Sum(lhs: IRAexpr, rhs: IRAexpr)
    | Product(lhs: IRAexpr, rhs: IRAexpr)

  function ConstValue(e: IRAexpr): (r: Option<Felt>)
    ensures r.Some? <==> e.Constant?
    ensures r.Some? ==> r.value == e.c
  {
    if e.Constant? then Some(e.c) else None
  }

  /** Every constant in `e` lies below `bound`. */
  predicate ConstantsBelow(e: IRAexpr, bound: Felt)
  {
    match e
    case Constant(c) => c < bound
    case IO(_) => true
    case Challenge(_) => true
    case Negated(x) => ConstantsBelow(x, bound)
    case Sum(l, r) => ConstantsBelow(l, bound) && ConstantsBelow(r, bound)
    case Product(l, r) => ConstantsBelow(l, bound) && ConstantsBelow(r, bound)
  }

  /**
   * `IRAexpr::constant_fold`: the value `*self` holds after folding in place.
   * A leaf constant is reduced with `%=`, as written (`RemAssign`) when
   * `asWritten` holds and as intended (`RemAssignReduced`) otherwise.
   */
  function Fold(e: IRAexpr, p: Felt, asWritten: bool): (r: IRAexpr)
    requires p > 0
    ensures ConstantsBelow(r, p + 1)
    ensures !asWritten ==> ConstantsBelow(r, p)
  {
    match e
    case Constant(c) => Constant(if asWritten then RemAssign(c, p) else RemAssignReduced(c, p))
    case IO(_) => e
    case Challenge(_) => e
    case Negated(x) => FoldNegated(Fold(x, p, asWritten), p)
    case Sum(l, r) => FoldSum(Fold(l, p, asWritten), Fold(r, p, asWritten), p)
    case Product(l, r) => FoldProduct(Fold(l, p, asWritten), Fold(r, p, asWritten), p)
  }

  /** Constant folding with the intended `%=`: every constant ends in `[0, p)`. */
  function ConstantFold(e: IRAexpr, p: Felt): (r: IRAexpr)
    requires p > 0
    ensures ConstantsBelow(r, p)
  {
    Fold(e, p, false)
  }

  /** Constant folding with `%=` as written: a constant may end as `p` itself. */
  function ConstantFoldAsWritten(e: IRAexpr, p: Felt): (r: IRAexpr)
    requires p > 0
    ensures ConstantsBelow(r, p + 1)
  {
    Fold(e, p, true)
  }

  /** The `Negated` arm of `constant_fold`, applied to the already folded operand. */
  function FoldNegated(fx: IRAexpr, p: Felt): (r: IRAexpr)
    requires p > 0
    ensures ConstantsBelow(fx, p) ==> ConstantsBelow(r, p)
    ensures ConstantsBelow(fx, p + 1) ==> ConstantsBelow(r, p + 1)
  {
    if fx.Constant? && Sub(p, fx.c).Some? then Constant(Rem(p - fx.c, p)) else Negated(fx)
  }

  /** The `Sum` arm of `constant_fold`, applied to the already folded operands. */
  function FoldSum(fl: IRAexpr, fr: IRAexpr, p: Felt): (r: IRAexpr)
    requires p > 0
    ensures ConstantsBelow(fl, p) && ConstantsBelow(fr, p) ==> ConstantsBelow(r, p)
    ensures ConstantsBelow(fl, p + 1) && ConstantsBelow(fr, p + 1) ==> ConstantsBelow(r, p + 1)
  {
    if fl.Constant? && fr.Constant? then Constant(Rem(fl.c + fr.c, p))
    else if !fl.Constant? && fr.Constant? && fr.c == 0 then fl
    else if fl.Constant? && !fr.Constant? && fl.c == 0 then fr
    else Sum(fl, fr)
  }

  /** The `Product` arm of `constant_fold`, applied to the already folded operands. */
  function FoldProduct(fl: IRAexpr, fr: IRAexpr, p: Felt): (r: IRAexpr)
    requires p > 0
    ensures ConstantsBelow(fl, p) && ConstantsBelow(fr, p) ==> ConstantsBelow(r, p)
    ensures ConstantsBelow(fl, p + 1) && ConstantsBelow(fr, p + 1) ==> ConstantsBelow(r, p + 1)
  {
    var minusOne := p - 1;
    if fl.Constant? && fr.Constant? then Constant(Rem(fl.c * fr.c, p))
    else if !fl.Constant? && fr.Constant? && fr.c == 1 then fl
    else if fl.Constant? && !fr.Constant? && fl.c == 1 then fr
    else if !fl.Constant? && fr.Constant? && fr.c == 0 then Constant(0)
    else if fl.Constant? && !fr.Constant? && fl.c == 0 then Constant(0)
    else if !fl.Constant? && fr.Constant? && fr.c == minusOne then Negated(fl)
    else if fl.Constant? && !fr.Constant? && fl.c == minusOne then Negated(fr)
    else Product(fl, fr)
  }

  /**
   * The value of `e` in the prime field of order `p`, given the values of the
   * IO cells and of the challenges. This is the meaning folding must preserve.
   */
  function Eval(e: IRAexpr, p: Felt, io: FuncIO -> nat, challenge: ChallengeId -> nat): (v: nat)
    requires p > 0
    ensures v < p
  {
    match e
    case Constant(c) => c % p
    case IO(x) => io(x) % p
    case Challenge(ch) => challenge(ch) % p
    case Negated(x) => (p - Eval(x, p, io, challenge)) % p
    case Sum(l, r) => (Eval(l, p, io, challenge) + Eval(r, p, io, challenge)) % p
    case Product(l, r) => (Eval(l, p, io, challenge) * Eval(r, p, io, challenge)) % p
  }

  lemma MulZeroBound(d: int, p: int)
    requires p > 0 && -p < d * p < p
    ensures d == 0
  {
  }

  lemma ModOfMultiplePlus(q: nat, r: nat, p: nat)
    requires 0 <= r < p
    ensures (q * p + r) % p == r
  {
    var n := q * p + r;
    var m := n / p;
    assert n == m * p + n % p;
    assert (m - q) * p == r - n % p;
    MulZeroBound(m - q, p);
  }

  lemma ModAddMultiple(k: nat, x: nat, p: nat)
    requires p > 0
    ensures (k * p + x) % p == x % p
  {
    var t := x / p;
    assert x == t * p + x % p;
    assert k * p + x == (k + t) * p + x % p;
    ModOfMultiplePlus(k + t, x % p, p);
  }

  lemma ModMulLeft(a: nat, b: nat, p: nat)
    requires p > 0
    ensures ((a % p) * b) % p == (a * b) % p
  {
    var qa, ra := a / p, a % p;
    assert a == qa * p + ra;
    assert a * b == (qa * b) * p + ra * b;
    ModAddMultiple(qa * b, ra * b, p);
  }

  lemma ModMulEither(a: nat, b: nat, p: nat)
    requires p > 0
    ensures ((a % p) * (b % p)) % p == (a * b) % p
  {
    ModMulLeft(a, b % p, p);
    ModMulLeft(b, a, p);
    assert a * (b % p) == (b % p) * a;
    assert a * b == b * a;
  }

  lemma ModAddEither(a: nat, b: nat, p: nat)
    requires p > 0
    ensures (a % p + b % p) % p == (a + b) % p
  {
    var qa, qb := a / p, b / p;
    assert a == qa * p + a % p && b == qb * p + b % p;
    MulDistributes(qa, qb, p);
    assert a + b == (qa + qb) * p + (a % p + b % p);
    ModAddMultiple(qa + qb, a % p + b % p, p);
  }

  lemma ModOfSmall(x: nat, p: nat)
    requires x < p
    ensures x % p == x
  {
    ModOfMultiplePlus(0, x, p);
  }

  /** Multiplying by `p - 1` is negation modulo `p`. */
  lemma TimesMinusOne(x: nat, p: nat)
    requires x < p
    ensures (x * (p - 1)) % p == (p - x) % p && ((p - 1) * x) % p == (p - x) % p
  {
    MulCommutes(x, p - 1);
    var n := x * (p - 1);
    if x == 0 {
      assert n == 0;
      ModOfSmall(0, p);
      ModOfMultiplePlus(1, 0, p);
      assert 1 * p + 0 == p - x;
    } else {
      MulPredecessor(x, p);
      ModOfMultiplePlus(x - 1, p - x, p);
      assert n % p == p - x;
      ModOfSmall(p - x, p);
    }
  }

  lemma MulDistributes(a: int, b: int, c: int)
    ensures (a + b) * c == a * c + b * c
  {
  }

  lemma MulCommutes(a: int, b: int)
    ensures a * b == b * a
  {
  }

  lemma MulPredecessor(x: nat, p: nat)
    requires 0 < x < p
    ensures x * (p - 1) == (x - 1) * p + (p - x)
  {
    var m: int := p - 1;
    assert x * m == x * p - x * 1;
    var k: int := x - 1;
    assert k * p == x * p - 1 * p;
  }

  /** Constant folding, with either `%=`, preserves the value of the expression in the field. */
  lemma {:induction false} FoldPreservesEval(e: IRAexpr, p: Felt, asWritten: bool, io: FuncIO -> nat,
                                             challenge: ChallengeId -> nat)
    requires p > 0
    ensures Eval(Fold(e, p, asWritten), p, io, challenge) == Eval(e, p, io, challenge)
  {
    match e
    case Constant(c) =>
      if asWritten {
        LeafAsWrittenEval(c, p);
      } else {
        assert Fold(e, p, asWritten) == Constant(c % p);
        ModOfSmall(c % p, p);
      }
    case IO(_) =>
    case Challenge(_) =>
    case Negated(x) =>
      FoldPreservesEval(x, p, asWritten, io, challenge);
      var fx := Fold(x, p, asWritten);
      assert Fold(e, p, asWritten) == FoldNegated(fx, p);
      FoldNegatedEval(fx, p, io, challenge);
    case Sum(l, r) =>
      FoldPreservesEval(l, p, asWritten, io, challenge);
      FoldPreservesEval(r, p, asWritten, io, challenge);
      FoldSumCase(l, r, p, asWritten, io, challenge);
    case Product(l, r) =>
      FoldPreservesEval(l, p, asWritten, io, challenge);
      FoldPreservesEval(r, p, asWritten, io, challenge);
      FoldProductCase(l, r, p, asWritten, io, challenge);
  }

  /** The as-written `%=` keeps a constant's residue, `p` included. */
  lemma LeafAsWrittenEval(c: Felt, p: Felt)
    requires p > 0
    ensures RemAssign(c, p) % p == c % p
  {
    if c <= p {
      assert RemAssign(c, p) == c;
    } else {
      ModOfSmall(c % p, p);
    }
  }

  lemma FoldSumCase(l: IRAexpr, r: IRAexpr, p: Felt, asWritten: bool, io: FuncIO -> nat, challenge: ChallengeId -> nat)
    requires p > 0
    requires Eval(Fold(l, p, asWritten), p, io, challenge) == Eval(l, p, io, challenge)
    requires Eval(Fold(r, p, asWritten), p, io, challenge) == Eval(r, p, io, challenge)
    ensures Eval(Fold(Sum(l, r), p, asWritten), p, io, challenge) == Eval(Sum(l, r), p, io, challenge)
  {
    var fl, fr := Fold(l, p, asWritten), Fold(r, p, asWritten);
    var x, y := Eval(l, p, io, challenge), Eval(r, p, io, challenge);
    assert Fold(Sum(l, r), p, asWritten) == FoldSum(fl, fr, p);
    FoldSumEval(fl, fr, p, io, challenge);
    assert Eval(FoldSum(fl, fr, p), p, io, challenge) == (x + y) % p;
  }

  lemma FoldProductCase(l: IRAexpr, r: IRAexpr, p: Felt, asWritten: bool, io: FuncIO -> nat,
                        challenge: ChallengeId -> nat)
    requires p > 0
    requires Eval(Fold(l, p, asWritten), p, io, challenge) == Eval(l, p, io, challenge)
    requires Eval(Fold(r, p, asWritten), p, io, challenge) == Eval(r, p, io, challenge)
    ensures Eval(Fold(Product(l, r), p, asWritten), p, io, challenge) == Eval(Product(l, r), p, io, challenge)
  {
    var fl, fr := Fold(l, p, asWritten), Fold(r, p, asWritten);
    var x, y := Eval(l, p, io, challenge), Eval(r, p, io, challenge);
    assert Fold(Product(l, r), p, asWritten) == FoldProduct(fl, fr, p);
    FoldProductEval(fl, fr, p, io, challenge);
    assert Eval(FoldProduct(fl, fr, p), p, io, challenge) == (x * y) % p;
  }

  /** Negating a folded constant gives the field negation of its value. */
  lemma FoldNegatedEval(fx: IRAexpr, p: Felt, io: FuncIO -> nat, challenge: ChallengeId -> nat)
    requires p > 0
    ensures Eval(FoldNegated(fx, p), p, io, challenge) == (p - Eval(fx, p, io, challenge)) % p
  {
    if fx.Constant? && fx.c <= p {
      assert Eval(fx, p, io, challenge) == fx.c % p;
      assert FoldNegated(fx, p) == Constant(Rem(p - fx.c, p));
      NegationResidue(fx.c, p);
    } else {
      assert FoldNegated(fx, p) == Negated(fx);
    }
  }

  /** The sum rules (constants add, a zero operand drops out) keep the value. */
  lemma FoldSumEval(fl: IRAexpr, fr: IRAexpr, p: Felt, io: FuncIO -> nat, challenge: ChallengeId -> nat)
    requires p > 0
    ensures Eval(FoldSum(fl, fr, p), p, io, challenge) == (Eval(fl, p, io, challenge) + Eval(fr, p, io, challenge)) % p
  {
    var x, y := Eval(fl, p, io, challenge), Eval(fr, p, io, challenge);
    if fl.Constant? && fr.Constant? {
      assert x == fl.c % p && y == fr.c % p;
      SumResidue(fl.c, fr.c, p);
    } else if !fl.Constant? && fr.Constant? && fr.c == 0 {
      ModOfSmall(0, p);
      assert y == 0;
      ModOfSmall(x, p);
      assert FoldSum(fl, fr, p) == fl;
    } else if fl.Constant? && !fr.Constant? && fl.c == 0 {
      ModOfSmall(0, p);
      assert x == 0;
      ModOfSmall(y, p);
      assert FoldSum(fl, fr, p) == fr;
    } else {
      assert FoldSum(fl, fr, p) == Sum(fl, fr);
    }
  }

  lemma NegationResidue(a: nat, p: nat)
    requires 0 < p && a <= p
    ensures Rem(p - a, p) % p == (p - a % p) % p
  {
    ModOfSmall(Rem(p - a, p), p);
    if a < p {
      ModOfSmall(a, p);
    } else {
      ModOfMultiplePlus(1, 0, p);
      ModOfSmall(0, p);
    }
  }

  lemma SumResidue(a: nat, b: nat, p: nat)
    requires p > 0
    ensures Rem(a + b, p) % p == (a % p + b % p) % p
  {
    ModAddEither(a, b, p);
    ModOfSmall(Rem(a + b, p), p);
  }

  lemma ProductResidue(a: nat, b: nat, p: nat)
    requires p > 0
    ensures Rem(a * b, p) % p == ((a % p) * (b % p)) % p
  {
    ModMulEither(a, b, p);
    ModOfSmall(Rem(a * b, p), p);
  }

  lemma ProductWithZero(x: nat, y: nat, p: nat)
    requires p > 0 && (x == 0 || y == 0)
    ensures (x * y) % p == 0 % p
  {
    assert x * y == 0;
  }

  /** The product rules (constants multiply, unit, zero and minus one) keep the value. */
  lemma FoldProductEval(fl: IRAexpr, fr: IRAexpr, p: Felt, io: FuncIO -> nat, challenge: ChallengeId -> nat)
    requires p > 0
    ensures Eval(FoldProduct(fl, fr, p), p, io, challenge) == (Eval(fl, p, io, challenge) * Eval(fr, p, io, challenge)) % p
  {
    var x, y := Eval(fl, p, io, challenge), Eval(fr, p, io, challenge);
    if fl.Constant? && fr.Constant? {
      assert x == fl.c % p && y == fr.c % p;
      ProductResidue(fl.c, fr.c, p);
    } else if !fl.Constant? && fr.Constant? && fr.c == 1 {
      assert y == 1 % p;
      ProductWithUnit(x, y, p);
      assert FoldProduct(fl, fr, p) == fl;
    } else if fl.Constant? && !fr.Constant? && fl.c == 1 {
      assert x == 1 % p;
      ProductWithUnit(y, x, p);
      MulCommutes(x, y);
      assert FoldProduct(fl, fr, p) == fr;
    } else if !fl.Constant? && fr.Constant? && fr.c == 0 {
      ModOfSmall(0, p);
      assert y == 0;
      ProductWithZero(x, y, p);
      assert FoldProduct(fl, fr, p) == Constant(0);
    } else if fl.Constant? && !fr.Constant? && fl.c == 0 {
      ModOfSmall(0, p);
      assert x == 0;
      ProductWithZero(x, y, p);
      assert FoldProduct(fl, fr, p) == Constant(0);
    } else if !fl.Constant? && fr.Constant? && fr.c == p - 1 {
      ModOfSmall(fr.c, p);
      assert y == p - 1;
      TimesMinusOne(x, p);
      assert FoldProduct(fl, fr, p) == Negated(fl);
    } else if fl.Constant? && !fr.Constant? && fl.c == p - 1 {
      ModOfSmall(fl.c, p);
      assert x == p - 1;
      TimesMinusOne(y, p);
      assert FoldProduct(fl, fr, p) == Negated(fr);
    } else {
      assert FoldProduct(fl, fr, p) == Product(fl, fr);
    }
  }

  lemma ProductWithUnit(x: nat, y: nat, p: nat)
    requires x < p && y == 1 % p
    ensures (x * y) % p == x
  {
    if p == 1 {
      assert x == 0;
    } else {
      ModOfSmall(1, p);
      ModOfSmall(x, p);
    }
  }

  /**
   * The fold of a constant is the constant reduced modulo `p`; with `%=` as
   * written, the modulus itself stays `p`.
   */
  lemma ConstantFoldConstant(c: Felt, p: Felt)
    requires p > 0
    ensures ConstantFold(Constant(c), p) == Constant(c % p)
    ensures ConstantFoldAsWritten(Constant(c), p) == Constant(if c == p then p else c % p)
  {
  }

  /** The two folding tests on constants, for `p = 7`. */
  lemma ConstantFoldExamples()
    ensures ConstantFold(Constant(5), 7) == Constant(5)
    ensures ConstantFold(Constant(8), 7) == Constant(1)
  {
  }

  lemma ConstantFoldSumOfConstants(a: Felt, b: Felt, p: Felt)
    requires p > 0
    ensures ConstantFold(Sum(Constant(a), Constant(b)), p) == Constant((a + b) % p)
  {
    var ra, rb := a % p, b % p;
    assert Fold(Constant(a), p, false) == Constant(ra) && Fold(Constant(b), p, false) == Constant(rb);
    assert ConstantFold(Sum(Constant(a), Constant(b)), p) == FoldSum(Constant(ra), Constant(rb), p);
    ModAddEither(a, b, p);
  }

  lemma ConstantFoldProductOfConstants(a: Felt, b: Felt, p: Felt)
    requires p > 0
    ensures ConstantFold(Product(Constant(a), Constant(b)), p) == Constant((a * b) % p)
  {
    var ra, rb := a % p, b % p;
    assert Fold(Constant(a), p, false) == Constant(ra) && Fold(Constant(b), p, false) == Constant(rb);
    assert ConstantFold(Product(Constant(a), Constant(b)), p) == FoldProduct(Constant(ra), Constant(rb), p);
    assert FoldProduct(Constant(ra), Constant(rb), p) == Constant(Rem(ra * rb, p));
    ModMulEither(a, b, p);
  }

  /** A negated constant folds to its additive inverse. */
  lemma ConstantFoldNegatedConstant(c: Felt, p: Felt)
    requires p > 0
    ensures ConstantFold(Negated(Constant(c)), p) == Constant((p - c % p) % p)
  {
    assert Fold(Constant(c), p, false) == Constant(c % p);
  }

  /** A sum with a folded-away zero on either side collapses to the other side. */
  lemma ConstantFoldSumWithZero(x: IRAexpr, z: IRAexpr, p: Felt)
    requires p > 0
    requires !ConstantFold(x, p).Constant? && ConstantFold(z, p) == Constant(0)
    ensures ConstantFold(Sum(x, z), p) == ConstantFold(x, p)
    ensures ConstantFold(Sum(z, x), p) == ConstantFold(x, p)
  {
    var fx, fz := ConstantFold(x, p), ConstantFold(z, p);
    assert ConstantFold(Sum(x, z), p) == FoldSum(fx, fz, p);
    assert ConstantFold(Sum(z, x), p) == FoldSum(fz, fx, p);
  }

  /**
   * Product rewrites for a non-constant side `x`: a folded 1 is the identity, a
   * folded 0 annihilates and a folded `p - 1` becomes negation (1 and 0 take
   * precedence, which matters only for `p <= 2`).
   */
  lemma ConstantFoldProductRules(x: IRAexpr, k: IRAexpr, p: Felt)
    requires p > 0
    requires !ConstantFold(x, p).Constant? && ConstantFold(k, p).Constant?
    ensures ConstantFold(k, p).c == 1 ==>
      ConstantFold(Product(x, k), p) == ConstantFold(x, p) && ConstantFold(Product(k, x), p) == ConstantFold(x, p)
    ensures ConstantFold(k, p).c == 0 ==>
      ConstantFold(Product(x, k), p) == Constant(0) && ConstantFold(Product(k, x), p) == Constant(0)
    ensures ConstantFold(k, p).c == p - 1 > 1 ==>
      ConstantFold(Product(x, k), p) == Negated(ConstantFold(x, p)) &&
      ConstantFold(Product(k, x), p) == Negated(ConstantFold(x, p))
  {
    var fx, fk := ConstantFold(x, p), ConstantFold(k, p);
    assert ConstantFold(Product(x, k), p) == FoldProduct(fx, fk, p);
    assert ConstantFold(Product(k, x), p) == FoldProduct(fk, fx, p);
  }

  /**
   * `try_map_io`: applies `f` to the IO leaves left to right, in place, and stops
   * at the first error. The result is the expression as left behind (IO leaves
   * before the failing one already rewritten) and the error, if any.
   */
  function TryMapIo(e: IRAexpr, f: FuncIO -> Result<FuncIO>): (IRAexpr, Option<string>)
  {
    match e
    case IO(x) => if f(x).Ok? then (IO(f(x).value), None) else (e, Some(f(x).error))
    case Negated(x) =>
      var mx := TryMapIo(x, f);
      (Negated(mx.0), mx.1)
    case Sum(l, r) =>
      var ml := TryMapIo(l, f);
      if ml.1.Some? then (Sum(ml.0, r), ml.1) else
      var mr := TryMapIo(r, f);
      (Sum(ml.0, mr.0), mr.1)
    case Product(l, r) =>
      var ml := TryMapIo(l, f);
      if ml.1.Some? then (Product(ml.0, r), ml.1) else
      var mr := TryMapIo(r, f);
      (Product(ml.0, mr.0), mr.1)
    case _ => (e, None)
  }

  /** The IO leaves of `e`, left to right. */
  function IOs(e: IRAexpr): seq<FuncIO>
  {
    match e
    case IO(x) => [x]
    case Negated(x) => IOs(x)
    case Sum(l, r) => IOs(l) + IOs(r)
    case Product(l, r) => IOs(l) + IOs(r)
    case _ => []
  }

  /** Replaces every IO leaf by `g` of it; the reference for a successful `TryMapIo`. */
  function MapIo(e: IRAexpr, g: FuncIO -> FuncIO): IRAexpr
  {
    match e
    case IO(x) => IO(g(x))
    case Negated(x) => Negated(MapIo(x, g))
    case Sum(l, r) => Sum(MapIo(l, g), MapIo(r, g))
    case Product(l, r) => Product(MapIo(l, g), MapIo(r, g))
    case _ => e
  }

  /** `f` succeeds on every IO leaf in `s`. */
  predicate AllOk(s: seq<FuncIO>, f: FuncIO -> Result<FuncIO>)
  {
    forall i :: 0 <= i < |s| ==> f(s[i]).Ok?
  }

  /**
   * `try_map_io` succeeds exactly when `f` succeeds on every IO leaf, and then
   * rewrites every IO leaf with `f` and leaves everything else as it was.
   */
  lemma {:induction false} TryMapIoSucceeds(e: IRAexpr, f: FuncIO -> Result<FuncIO>)
    ensures TryMapIo(e, f).1.None? <==> AllOk(IOs(e), f)
    ensures TryMapIo(e, f).1.None? ==>
      TryMapIo(e, f).0 == MapIo(e, x => if f(x).Ok? then f(x).value else x)
  {
    match e
    case IO(x) => assert IOs(e)[0] == x;
    case Negated(x) =>
      TryMapIoSucceeds(x, f);
    case Sum(l, r) =>
      TryMapIoSucceeds(l, f);
      TryMapIoSucceeds(r, f);
      AllOkConcat(IOs(l), IOs(r), f);
      assert TryMapIo(e, f).1.None? <==> TryMapIo(l, f).1.None? && TryMapIo(r, f).1.None?;
    case Product(l, r) =>
      TryMapIoSucceeds(l, f);
      TryMapIoSucceeds(r, f);
      AllOkConcat(IOs(l), IOs(r), f);
      assert TryMapIo(e, f).1.None? <==> TryMapIo(l, f).1.None? && TryMapIo(r, f).1.None?;
    case _ =>
  }

  lemma AllOkConcat(a: seq<FuncIO>, b: seq<FuncIO>, f: FuncIO -> Result<FuncIO>)
    ensures AllOk(a + b, f) <==> AllOk(a, f) && AllOk(b, f)
  {
    if AllOk(a + b, f) {
      forall i | 0 <= i < |a| ensures f(a[i]).Ok? { assert (a + b)[i] == a[i]; }
      forall i | 0 <= i < |b| ensures f(b[i]).Ok? { assert (a + b)[|a| + i] == b[i]; }
    }
    if AllOk(a, f) && AllOk(b, f) {
      forall i | 0 <= i < |a + b| ensures f((a + b)[i]).Ok? {
        if i < |a| { assert (a + b)[i] == a[i]; } else { assert (a + b)[i] == b[i - |a|]; }
      }
    }
  }

  /**
   * `SymbolicEqv` on arithmetic expressions: the same constructors, equal
   * constants and challenges, and IO leaves related by `ioEqv` (the relation
   * the backend defines on `FuncIO`).
   */
  predicate SymbolicEqv(a: IRAexpr, b: IRAexpr, ioEqv: (FuncIO, FuncIO) -> bool)
  {
    match (a, b)
    case (Constant(x), Constant(y)) => x == y
    case (IO(x), IO(y)) => ioEqv(x, y)
    case (Challenge(x), Challenge(y)) => x == y
    case (Negated(x), Negated(y)) => SymbolicEqv(x, y, ioEqv)
    case (Sum(l1, r1), Sum(l2, r2)) => SymbolicEqv(l1, l2, ioEqv) && SymbolicEqv(r1, r2, ioEqv)
    case (Product(l1, r1), Product(l2, r2)) => SymbolicEqv(l1, l2, ioEqv) && SymbolicEqv(r1, r2, ioEqv)
    case _ => false
  }

  /** Same constructors, constants and challenges; IO leaves may differ. */
  predicate SameShape(a: IRAexpr, b: IRAexpr)
  {
    SymbolicEqv(a, b, (x, y) => true)
  }

  /** With plain equality on IO, symbolic equivalence is structural equality. */
  lemma {:induction false} SymbolicEqvWithEquality(a: IRAexpr, b: IRAexpr, ioEqv: (FuncIO, FuncIO) -> bool)
    requires forall x, y :: ioEqv(x, y) <==> x == y
    ensures SymbolicEqv(a, b, ioEqv) <==> a == b
  {
    match (a, b)
    case (Negated(x), Negated(y)) => SymbolicEqvWithEquality(x, y, ioEqv);
    case (Sum(l1, r1), Sum(l2, r2)) =>
      SymbolicEqvWithEquality(l1, l2, ioEqv);
      SymbolicEqvWithEquality(r1, r2, ioEqv);
    case (Product(l1, r1), Product(l2, r2)) =>
      SymbolicEqvWithEquality(l1, l2, ioEqv);
      SymbolicEqvWithEquality(r1, r2, ioEqv);
    case _ =>
  }

  /** Symbolic equivalence implies the same shape and the same IO leaves up to `ioEqv`. */
  lemma {:induction false} SymbolicEqvShape(a: IRAexpr, b: IRAexpr, ioEqv: (FuncIO, FuncIO) -> bool)
    requires SymbolicEqv(a, b, ioEqv)
    ensures SameShape(a, b)
    ensures |IOs(a)| == |IOs(b)| && forall i :: 0 <= i < |IOs(a)| ==> ioEqv(IOs(a)[i], IOs(b)[i])
  {
    match (a, b)
    case (Negated(x), Negated(y)) => SymbolicEqvShape(x, y, ioEqv);
    case (Sum(l1, r1), Sum(l2, r2)) =>
      SymbolicEqvShape(l1, l2, ioEqv);
      SymbolicEqvShape(r1, r2, ioEqv);
      PairwiseConcat(IOs(l1), IOs(r1), IOs(l2), IOs(r2), ioEqv);
    case (Product(l1, r1), Product(l2, r2)) =>
      SymbolicEqvShape(l1, l2, ioEqv);
      SymbolicEqvShape(r1, r2, ioEqv);
      PairwiseConcat(IOs(l1), IOs(r1), IOs(l2), IOs(r2), ioEqv);
    case _ =>
  }

  lemma PairwiseConcat(a: seq<FuncIO>, b: seq<FuncIO>, c: seq<FuncIO>, d: seq<FuncIO>, rel: (FuncIO, FuncIO) -> bool)
    requires |a| == |c| && forall i :: 0 <= i < |a| ==> rel(a[i], c[i])
    requires |b| == |d| && forall i :: 0 <= i < |b| ==> rel(b[i], d[i])
    ensures |a + b| == |c + d| && forall i :: 0 <= i < |a + b| ==> rel((a + b)[i], (c + d)[i])
  {
    forall i | 0 <= i < |a + b| ensures rel((a + b)[i], (c + d)[i]) {
      if i >= |a| { assert (a + b)[i] == b[i - |a|] && (c + d)[i] == d[i - |a|]; }
    }
  }

  /** Symmetric and transitive whenever `ioEqv` is. */
  lemma {:induction false} SymbolicEqvSymmetric(a: IRAexpr, b: IRAexpr, ioEqv: (FuncIO, FuncIO) -> bool)
    requires forall x, y :: ioEqv(x, y) ==> ioEqv(y, x)
    requires SymbolicEqv(a, b, ioEqv)
    ensures SymbolicEqv(b, a, ioEqv)
  {
    match (a, b)
    case (Negated(x), Negated(y)) => SymbolicEqvSymmetric(x, y, ioEqv);
    case (Sum(l1, r1), Sum(l2, r2)) =>
      SymbolicEqvSymmetric(l1, l2, ioEqv);
      SymbolicEqvSymmetric(r1, r2, ioEqv);
    case (Product(l1, r1), Product(l2, r2)) =>
      SymbolicEqvSymmetric(l1, l2, ioEqv);
      SymbolicEqvSymmetric(r1, r2, ioEqv);
    case _ =>
  }

  lemma {:induction false} SymbolicEqvTransitive(a: IRAexpr, b: IRAexpr, c: IRAexpr, ioEqv: (FuncIO, FuncIO) -> bool)
    requires forall x, y, z :: ioEqv(x, y) && ioEqv(y, z) ==> ioEqv(x, z)
    requires SymbolicEqv(a, b, ioEqv) && SymbolicEqv(b, c, ioEqv)
    ensures SymbolicEqv(a, c, ioEqv)
  {
    match (a, b, c)
    case (Negated(x), Negated(y), Negated(z)) => SymbolicEqvTransitive(x, y, z, ioEqv);
    case (Sum(l1, r1), Sum(l2, r2), Sum(l3, r3)) =>
      SymbolicEqvTransitive(l1, l2, l3, ioEqv);
      SymbolicEqvTransitive(r1, r2, r3, ioEqv);
    case (Product(l1, r1), Product(l2, r2), Product(l3, r3)) =>
      SymbolicEqvTransitive(l1, l2, l3, ioEqv);
      SymbolicEqvTransitive(r1, r2, r3, ioEqv);
    case _ =>
  }

  /** `try_map_io` never changes the shape, the constants or the challenges, even when it fails midway. */
  lemma {:induction false} TryMapIoKeepsShape(e: IRAexpr, f: FuncIO -> Result<FuncIO>)
    ensures SameShape(e, TryMapIo(e, f).0)
  {
    match e
    case Negated(x) => TryMapIoKeepsShape(x, f);
    case Sum(l, r) =>
      TryMapIoKeepsShape(l, f);
      TryMapIoKeepsShape(r, f);
      SameShapeReflexive(r);
    case Product(l, r) =>
      TryMapIoKeepsShape(l, f);
      TryMapIoKeepsShape(r, f);
      SameShapeReflexive(r);
    case _ =>
  }

  lemma {:induction false} SameShapeReflexive(e: IRAexpr)
    ensures SameShape(e, e)
  {
    match e
    case Negated(x) => SameShapeReflexive(x);
    case Sum(l, r) => SameShapeReflexive(l); SameShapeReflexive(r);
    case Product(l, r) => SameShapeReflexive(l); SameShapeReflexive(r);
    case _ =>
  }
}
