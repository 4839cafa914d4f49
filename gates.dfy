/**
 * Gate lowering support: the row scope a gate is called in, the dispatch over
 * a list of rewrite patterns, and the ordering of column queries.
 */
module Gates {
  import opened Wrappers

  /** A gate's row bounds `[start, end)`. */
  datatype GateScope = GateScope(start: nat, end: nat)

  function StartRow(g: GateScope): nat
  {
    g.start
  }

  /** `end_row`: the last row, `end - 1`; zero when `end` is zero. */
  function EndRow(g: GateScope): (r: nat)
    ensures g.end == 0 ==> r == 0
    ensures g.end > 0 ==> r + 1 == g.end
  {
    if g.end == 0 then 0 else g.end - 1
  }

  /** `rows` contains a row. */
  predicate InRows(g: GateScope, row: nat)
  {
    g.start <= row < g.end
  }

  /** For a non-empty scope, the start and end rows are its first and last rows. */
  lemma EndRowIsLastRow(g: GateScope)
    requires g.start < g.end
    ensures InRows(g, StartRow(g)) && InRows(g, EndRow(g)) && !InRows(g, EndRow(g) + 1)
    ensures forall row: nat :: InRows(g, row) ==> StartRow(g) <= row <= EndRow(g)
  {
  }

  /** `region_row`: the row inside the scope, or an error for rows outside `[start, end)`. */
  function RegionRow(g: GateScope, row: nat): (r: Result<nat>)
    ensures r.Ok? <==> InRows(g, row)
    ensures r.Ok? ==> r.value == row
  {
    if !InRows(g, row) then Err("Row is not within the rows of the scope") else Ok(row)
  }

  /** What a rewrite pattern does with a gate. */
  datatype Rewrite<T> = Rewritten(out: T) | NoMatch | Failed(msg: string)

  /** The default `match_and_rewrite`: the match's failure, else the rewrite's outcome. */
  function MatchThenRewrite<T>(matched: Rewrite<()>, rewrite: Result<T>): (r: Rewrite<T>)
    ensures matched.NoMatch? ==> r.NoMatch?
    ensures matched.Failed? ==> r == Failed(matched.msg)
    ensures matched.Rewritten? ==> (r.Rewritten? <==> rewrite.Ok?)
    ensures matched.Rewritten? && rewrite.Ok? ==> r.out == rewrite.value
    ensures matched.Rewritten? && rewrite.Err? ==> r == Failed(rewrite.error)
  {
    match matched
    case NoMatch => NoMatch
    case Failed(m) => Failed(m)
    case Rewritten(_) => if rewrite.Ok? then Rewritten(rewrite.value) else Failed(rewrite.error)
  }

  function Apply<P, T>(ps: seq<P>, f: P -> Rewrite<T>): (r: seq<Rewrite<T>>)
    ensures |r| == |ps| && forall i :: 0 <= i < |ps| ==> r[i] == f(ps[i])
  {
    if ps == [] then [] else [f(ps[0])] + Apply(ps[1..], f)
  }

  /** The index of the first pattern that rewrote the gate. */
  function FirstRewritten<T>(outs: seq<Rewrite<T>>): (r: Option<nat>)
    ensures r.None? <==> forall i :: 0 <= i < |outs| ==> !outs[i].Rewritten?
    ensures r.Some? ==> r.value < |outs| && outs[r.value].Rewritten? &&
                        forall i :: 0 <= i < r.value ==> !outs[i].Rewritten?
  {
    if outs == [] then None
    else if outs[0].Rewritten? then Some(0)
    else
      var r := FirstRewritten(outs[1..]);
      if r.None? then None else Some(r.value + 1)
  }

  /** The messages of the failed patterns, in order. */
  function Errors<T>(outs: seq<Rewrite<T>>): (r: seq<string>)
    ensures r == [] <==> forall i :: 0 <= i < |outs| ==> !outs[i].Failed?
    ensures |r| <= |outs|
  {
    if outs == [] then [] else ErrorOf(outs[0]) + Errors(outs[1..])
  }

  /** The message of one pattern's outcome, if it failed. */
  function ErrorOf<T>(o: Rewrite<T>): (r: seq<string>)
    ensures r == [] <==> !o.Failed?
    ensures o.Failed? ==> r == [o.msg]
  {
    if o.Failed? then [o.msg] else []
  }

  /** Every message followed by a newline. */
  function JoinErrors(es: seq<string>): (r: string)
    ensures |r| >= |es|
  {
    if es == [] then [] else es[0] + "\n" + JoinErrors(es[1..])
  }

  /** The pattern set's outcome: the first rewrite; `NoMatch` only if nothing failed; else every failure. */
  function Dispatch<T>(outs: seq<Rewrite<T>>): (r: Rewrite<T>)
    ensures r.Rewritten? <==> exists i :: 0 <= i < |outs| && outs[i].Rewritten?
    ensures r.Rewritten? ==> exists i :: 0 <= i < |outs| && outs[i] == r &&
                                 forall j :: 0 <= j < i ==> !outs[j].Rewritten?
    ensures r.NoMatch? <==> forall i :: 0 <= i < |outs| ==> outs[i].NoMatch?
    ensures r.Failed? ==> r.msg == JoinErrors(Errors(outs)) && Errors(outs) != []
  {
    var first := FirstRewritten(outs);
    if first.Some? then outs[first.value]
    else if Errors(outs) == [] then NoMatch
    else Failed(JoinErrors(Errors(outs)))
  }

  /** `RewritePatternSet::match_and_rewrite`: tries the patterns in order, collecting failures. */
  method MatchAndRewrite<P, T>(patterns: seq<P>, apply: P -> Rewrite<T>) returns (r: Rewrite<T>)
    ensures r == Dispatch(Apply(patterns, apply))
  {
    ghost var outs := Apply(patterns, apply);
    var errors: seq<string> := [];
    var i := 0;
    while i < |patterns|
      invariant 0 <= i <= |patterns|
      invariant NoneRewritten(outs, i)
      invariant errors == Errors(outs[..i])
    {
      var o := apply(patterns[i]);
      assert outs[i] == o;
      ErrorsStep(outs, i, errors);
      if o.Rewritten? {
        DispatchFirst(outs, i);
        return o;
      } else if o.Failed? {
        errors := errors + [o.msg];
      }
      NoneRewrittenStep(outs, i);
      i := i + 1;
    }
    assert outs[..i] == outs;
    DispatchNone(outs);
    if errors == [] {
      r := NoMatch;
    } else {
      r := Failed(JoinErrors(errors));
    }
  }

  lemma {:induction false} ErrorsAppend<T>(outs: seq<Rewrite<T>>, o: Rewrite<T>)
    ensures Errors(outs + [o]) == Errors(outs) + ErrorOf(o)
  {
    if outs == [] {
      assert [o][1..] == [];
      assert Errors([o]) == ErrorOf(o) + Errors([o][1..]);
    } else {
      var head := ErrorOf(outs[0]);
      assert (outs + [o])[0] == outs[0];
      assert (outs + [o])[1..] == outs[1..] + [o];
      ErrorsAppend(outs[1..], o);
      assert Errors(outs + [o]) == head + Errors(outs[1..] + [o]);
      assert Errors(outs) == head + Errors(outs[1..]);
      ConcatAssoc(head, Errors(outs[1..]), ErrorOf(o));
    }
  }

  lemma ConcatAssoc<X>(a: seq<X>, b: seq<X>, c: seq<X>)
    ensures a + (b + c) == (a + b) + c
  {
  }

  /** One loop step of `match_and_rewrite`: a failure appends its message, anything else keeps the list. */
  lemma ErrorsStep<T>(outs: seq<Rewrite<T>>, i: nat, errors: seq<string>)
    requires i < |outs| && errors == Errors(outs[..i])
    ensures outs[i].Failed? ==> Errors(outs[..i + 1]) == errors + [outs[i].msg]
    ensures !outs[i].Failed? ==> Errors(outs[..i + 1]) == errors
  {
    assert outs[..i + 1] == outs[..i] + [outs[i]];
    ErrorsAppend(outs[..i], outs[i]);
    if !outs[i].Failed? {
      assert errors + ErrorOf(outs[i]) == errors;
    }
  }

  /** None of the first `n` patterns rewrote the gate. */
  predicate NoneRewritten<T>(outs: seq<Rewrite<T>>, n: nat)
  {
    forall j :: 0 <= j < n && j < |outs| ==> !outs[j].Rewritten?
  }

  lemma NoneRewrittenStep<T>(outs: seq<Rewrite<T>>, i: nat)
    requires i < |outs| && NoneRewritten(outs, i) && !outs[i].Rewritten?
    ensures NoneRewritten(outs, i + 1)
  {
  }

  lemma DispatchFirst<T>(outs: seq<Rewrite<T>>, i: nat)
    requires i < |outs| && outs[i].Rewritten?
    requires NoneRewritten(outs, i)
    ensures Dispatch(outs) == outs[i]
  {
    FirstRewrittenAt(outs, i);
  }

  lemma DispatchNone<T>(outs: seq<Rewrite<T>>)
    requires NoneRewritten(outs, |outs|)
    ensures Dispatch(outs) == if Errors(outs) == [] then NoMatch else Failed(JoinErrors(Errors(outs)))
  {
    assert FirstRewritten(outs).None?;
  }

  lemma FirstRewrittenAt<T>(outs: seq<Rewrite<T>>, i: nat)
    requires i < |outs| && outs[i].Rewritten?
    requires forall j :: 0 <= j < i ==> !outs[j].Rewritten?
    ensures FirstRewritten(outs) == Some(i)
  {
  }

  /** The source's column query kinds; only advice queries carry a phase. */
  datatype AnyQuery =
    | Advice(column: nat, rotation: int, phase: nat)
    | Instance(column: nat, rotation: int)
    | Fixed(column: nat, rotation: int)

  function ColumnIndex(q: AnyQuery): nat
  {
    q.column
  }

  function TypeId(q: AnyQuery): (r: nat)
    ensures r < 3
  {
    match q
    case Advice(_, _, _) => 0
    case Instance(_, _) => 1
    case Fixed(_, _) => 2
  }

  function Phase(q: AnyQuery): Option<nat>
  {
    if q.Advice? then Some(q.phase) else None
  }

  datatype Ordering = Less | Equal | Greater

  function Flip(o: Ordering): Ordering
  {
    match o
    case Less => Greater
    case Equal => Equal
    case Greater => Less
  }

  function CmpInt(a: int, b: int): (r: Ordering)
    ensures r.Less? <==> a < b
    ensures r.Equal? <==> a == b
  {
    if a < b then Less else if a == b then Equal else Greater
  }

  /** `Option`'s order: `None` first, then by the value. */
  function CmpOption(a: Option<nat>, b: Option<nat>): Ordering
  {
    match (a, b)
    case (None, None) => Equal
    case (None, Some(_)) => Less
    case (Some(_), None) => Greater
    case (Some(x), Some(y)) => CmpInt(x, y)
  }

  function Then(first: Ordering, next: Ordering): Ordering
  {
    if first.Equal? then next else first
  }

  /** `AnyQuery::cmp`: the order of the tuples `(type_id, column, rotation, phase)`. */
  function Compare(a: AnyQuery, b: AnyQuery): Ordering
  {
    Then(CmpInt(TypeId(a), TypeId(b)),
      Then(CmpInt(a.column, b.column),
        Then(CmpInt(a.rotation, b.rotation), CmpOption(Phase(a), Phase(b)))))
  }

  /** `a < b` exactly when the first differing tuple component is smaller in `a`. */
  lemma CompareIsLexicographic(a: AnyQuery, b: AnyQuery)
    ensures Compare(a, b).Less? <==>
      TypeId(a) < TypeId(b)
      || (TypeId(a) == TypeId(b) && a.column < b.column)
      || (TypeId(a) == TypeId(b) && a.column == b.column && a.rotation < b.rotation)
      || (TypeId(a) == TypeId(b) && a.column == b.column && a.rotation == b.rotation
          && a.Advice? && b.Advice? && a.phase < b.phase)
  {
  }

  /** The order agrees with equality and is antisymmetric. */
  lemma CompareTotal(a: AnyQuery, b: AnyQuery)
    ensures Compare(a, b).Equal? <==> a == b
    ensures Compare(b, a) == Flip(Compare(a, b))
  {
  }

  lemma CompareTransitive(a: AnyQuery, b: AnyQuery, c: AnyQuery)
    requires Compare(a, b).Less? && Compare(b, c).Less?
    ensures Compare(a, c).Less?
  {
    CompareIsLexicographic(a, b);
    CompareIsLexicographic(b, c);
    CompareIsLexicographic(a, c);
  }
}
