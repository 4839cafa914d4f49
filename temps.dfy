/**
 * Temporaries created while generating IR: a generator hands out temporaries
 * with increasing indices, and expressions can be wrapped to hold either a
 * temporary or an expression.
 */
module Temps {
  /** A temporary variable, named and ordered by its index. */
  datatype Temp = Temp(index: nat)

  /** The derived order on `Temp` compares the index. */
  predicate Before(a: Temp, b: Temp)
  {
    a.index < b.index
  }

  lemma BeforeIsStrictTotalOrder(a: Temp, b: Temp, c: Temp)
    ensures !Before(a, a)
    ensures Before(a, b) && Before(b, c) ==> Before(a, c)
    ensures a == b || Before(a, b) || Before(b, a)
    ensures !(Before(a, b) && Before(b, a))
  {
  }

  /** An expression slot that may instead hold a temporary. */
  datatype ExprOrTemp<E> = TempSlot(temp: Temp) | Expr(expr: E)

  /** `ExprOrTemp::map`: temporaries pass through, expressions are mapped. */
  function Map<E, O>(e: ExprOrTemp<E>, f: E -> O): (r: ExprOrTemp<O>)
    ensures e.TempSlot? <==> r.TempSlot?
    ensures e.TempSlot? ==> r.temp == e.temp
    ensures e.Expr? ==> r.expr == f(e.expr)
  {
    match e
    case TempSlot(t) => TempSlot(t)
    case Expr(x) => Expr(f(x))
  }

  lemma MapIdentity<E>(e: ExprOrTemp<E>)
    ensures Map(e, x => x) == e
  {
  }

  lemma MapCompose<E, M, O>(e: ExprOrTemp<E>, f: E -> M, g: M -> O)
    ensures Map(Map(e, f), g) == Map(e, x => g(f(x)))
  {
  }

  /** The temporaries `Temp(0)`, ..., `Temp(n - 1)`. */
  function Issued(n: nat): (r: seq<Temp>)
    ensures |r| == n
    ensures forall i :: 0 <= i < n ==> r[i] == Temp(i)
  {
    if n == 0 then [] else Issued(n - 1) + [Temp(n - 1)]
  }

  /** Issued temporaries are strictly increasing, hence pairwise distinct. */
  lemma IssuedIncreasing(n: nat, i: nat, j: nat)
    requires i < j < n
    ensures Before(Issued(n)[i], Issued(n)[j])
    ensures Issued(n)[i] != Issued(n)[j]
  {
  }

  /** Generator of temporaries; it never runs out. */
  class Temps {
    var count: nat
    /** The temporaries handed out so far, in order. */
    ghost var issued: seq<Temp>

    ghost predicate Valid()
      reads this
    {
      issued == Issued(count)
    }

    /** `Temps::new`: nothing handed out, the first temporary is `Temp(0)`. */
    constructor ()
      ensures Valid() && count == 0 && issued == []
    {
      count := 0;
      issued := [];
    }

    /** `next`: always yields the next index, which is above every earlier one. */
    method Next() returns (t: Temp)
      requires Valid()
      modifies this
      ensures Valid()
      ensures t == Temp(old(count)) && count == old(count) + 1
      ensures issued == old(issued) + [t]
      ensures forall u :: u in old(issued) ==> Before(u, t)
    {
      t := Temp(count);
      count := count + 1;
      issued := issued + [t];
    }
  }

  /** The generator's first three temporaries are 0, 1, 2. */
  method FirstThree() returns (a: Temp, b: Temp, c: Temp)
    ensures a == Temp(0) && b == Temp(1) && c == Temp(2)
  {
    var temps := new Temps();
    a := temps.Next();
    b := temps.Next();
    c := temps.Next();
  }
}
