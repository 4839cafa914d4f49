/**
 * Fixed-column data recorded during synthesis: explicit cell assignments and
 * blanket fills ("every row from `start` on holds `v`"), in chronological
 * order, and the resolution of a fixed cell from both.
 */
module Fixed {
  import opened Wrappers

  /** A halo2 `Value`: a known field element or an unknown witness. */
  datatype Value = Known(v: nat) | Unknown

  /** `steal`: the element of a known value. */
  function Steal(v: Value): (r: Option<nat>)
    ensures r.Some? <==> v.Known?
    ensures r.Some? ==> r.value == v.v
  {
    if v.Known? then Some(v.v) else None
  }

  /** Blanket fills of one column: `(start, value)` for the rows `start..`, oldest first. */
  type BlanketFills = seq<(nat, Value)>

  /** The index `rfind` stops at: the last fill whose range contains `row`. */
  function LatestCoveringIndex(fills: BlanketFills, row: nat): (r: Option<nat>)
    ensures r.None? <==> forall k :: 0 <= k < |fills| ==> row < fills[k].0
    ensures r.Some? ==> r.value < |fills| && fills[r.value].0 <= row &&
                        forall j :: r.value < j < |fills| ==> row < fills[j].0
  {
    if fills == [] then None
    else if fills[|fills| - 1].0 <= row then Some(|fills| - 1)
    else
      var r := LatestCoveringIndex(fills[..|fills| - 1], row);
      assert forall k :: 0 <= k < |fills| - 1 ==> fills[..|fills| - 1][k] == fills[k];
      r
  }

  /** `rfind` of a fill whose range contains `row`: the most recent one covering it. */
  function LatestCovering(fills: BlanketFills, row: nat): (r: Option<Value>)
    ensures r.None? <==> forall k :: 0 <= k < |fills| ==> row < fills[k].0
    ensures r.Some? ==> exists k :: 0 <= k < |fills| && fills[k].0 <= row && fills[k].1 == r.value &&
                                 forall j :: k < j < |fills| ==> row < fills[j].0
  {
    var k := LatestCoveringIndex(fills, row);
    if k.None? then None else Some(fills[k.value].1)
  }

  /** The cells assigned explicitly: column, then row. */
  type Assigned = map<nat, map<nat, Value>>

  predicate HasExplicit(fixed: Assigned, col: nat, row: nat)
  {
    col in fixed && row in fixed[col]
  }

  /** `resolve_fixed`: the explicit value first, then the latest covering blanket fill, else zero. */
  function Resolve(fixed: Assigned, blankets: map<nat, BlanketFills>, col: nat, row: nat): (r: Value)
    ensures HasExplicit(fixed, col, row) ==> r == fixed[col][row]
    ensures !HasExplicit(fixed, col, row) && col in blankets && LatestCovering(blankets[col], row).Some? ==>
      r == LatestCovering(blankets[col], row).value
    ensures !HasExplicit(fixed, col, row) && (col !in blankets || LatestCovering(blankets[col], row).None?) ==>
      r == Known(0)
  {
    if HasExplicit(fixed, col, row) then fixed[col][row]
    else if col in blankets && LatestCovering(blankets[col], row).Some? then LatestCovering(blankets[col], row).value
    else Known(0)
  }

  /** A blanket fill covers every later row that has no explicit value, unless a newer fill does. */
  lemma {:induction false} NewestFillWins(fixed: Assigned, blankets: map<nat, BlanketFills>, col: nat, start: nat, v: Value, row: nat)
    requires start <= row && !HasExplicit(fixed, col, row)
    ensures var old_ := if col in blankets then blankets[col] else [];
      Resolve(fixed, blankets[col := old_ + [(start, v)]], col, row) == v
  {
    var old_ := if col in blankets then blankets[col] else [];
    var fills := old_ + [(start, v)];
    assert fills[|fills| - 1] == (start, v);
    assert LatestCovering(fills, row) == Some(v);
  }

  /** The selection of `subset`: only the given columns. */
  function Restrict<X>(m: map<nat, X>, cols: set<nat>): (r: map<nat, X>)
    ensures forall c :: c in r <==> c in m && c in cols
    ensures forall c :: c in r ==> r[c] == m[c]
  {
    map c | c in m && c in cols :: m[c]
  }

  /** Every selected column resolves as before. */
  lemma SubsetResolvesAlike(fixed: Assigned, blankets: map<nat, BlanketFills>, cols: set<nat>, col: nat, row: nat)
    requires col in cols
    ensures Resolve(Restrict(fixed, cols), Restrict(blankets, cols), col, row) == Resolve(fixed, blankets, col, row)
  {
    assert HasExplicit(Restrict(fixed, cols), col, row) <==> HasExplicit(fixed, col, row);
    assert col in Restrict(blankets, cols) <==> col in blankets;
  }

  /** `take`: the explicit cells keyed by `(column, row)`. */
  function Flatten(fixed: Assigned): (r: map<(nat, nat), Value>)
    ensures forall c: nat, row: nat :: (c, row) in r <==> HasExplicit(fixed, c, row)
    ensures forall c: nat, row: nat :: (c, row) in r ==> HasExplicit(fixed, c, row) && r[(c, row)] == fixed[c][row]
  {
    map k | k in (set c, row | c in fixed && row in fixed[c] :: (c, row)) :: fixed[k.0][k.1]
  }

  class FixedData {
    var fixed: Assigned
    /** The columns for which there is data. */
    var columns: set<nat>
    var blanketFills: map<nat, BlanketFills>

    /** `default`: no data. */
    constructor ()
      ensures fixed == map[] && columns == {} && blanketFills == map[]
    {
      fixed, columns, blanketFills := map[], {}, map[];
    }

    function ResolveFixed(col: nat, row: nat): Value
      reads this
    {
      Resolve(fixed, blanketFills, col, row)
    }

    /** `blanket_fill`: appends the fill in chronological order and records the column. */
    method BlanketFill(col: nat, row: nat, v: Value)
      modifies this
      ensures columns == old(columns) + {col}
      ensures blanketFills == old(blanketFills)[col := (if col in old(blanketFills) then old(blanketFills)[col] else []) + [(row, v)]]
      ensures fixed == old(fixed)
      ensures forall r :: row <= r && !HasExplicit(fixed, col, r) ==> ResolveFixed(col, r) == v
      ensures forall c, r :: c != col ==> ResolveFixed(c, r) == old(ResolveFixed(c, r))
    {
      var old_ := if col in blanketFills then blanketFills[col] else [];
      columns := columns + {col};
      blanketFills := blanketFills[col := old_ + [(row, v)]];
      forall r | row <= r && !HasExplicit(fixed, col, r)
        ensures ResolveFixed(col, r) == v
      {
        NewestFillWins(fixed, old(blanketFills), col, row, v, r);
      }
    }

    /** `assign_fixed`: records the column and overwrites the cell's value. */
    method AssignFixed(col: nat, row: nat, v: Value)
      modifies this
      ensures columns == old(columns) + {col}
      ensures fixed == old(fixed)[col := (if col in old(fixed) then old(fixed)[col] else map[])[row := v]]
      ensures blanketFills == old(blanketFills)
      ensures ResolveFixed(col, row) == v
      ensures forall c: nat, r: nat :: (c, r) != (col, row) ==> ResolveFixed(c, r) == old(ResolveFixed(c, r))
    {
      var cells := if col in fixed then fixed[col] else map[];
      columns := columns + {col};
      fixed := fixed[col := cells[row := v]];
    }

    /** `subset`: fails unless every requested column has data; keeps only the requested ones. */
    method Subset(cols: set<nat>) returns (r: Result<FixedData>)
      ensures r.Err? <==> !(cols <= columns)
      ensures r.Ok? ==> fresh(r.value) && r.value.columns == cols
      ensures r.Ok? ==> r.value.fixed == Restrict(fixed, cols) && r.value.blanketFills == Restrict(blanketFills, cols)
      ensures r.Ok? ==> forall c, row :: c in cols ==> r.value.ResolveFixed(c, row) == ResolveFixed(c, row)
    {
      if !(cols <= columns) {
        return Err("Fixed data does not have all the required columns.");
      }
      var selected := new FixedData();
      selected.columns := cols;
      selected.fixed := Restrict(fixed, cols);
      selected.blanketFills := Restrict(blanketFills, cols);
      forall c, row | c in cols
        ensures selected.ResolveFixed(c, row) == ResolveFixed(c, row)
      {
        SubsetResolvesAlike(fixed, blanketFills, cols, c, row);
      }
      r := Ok(selected);
    }

    /** `take`: the explicit cells by `(column, row)` and the blanket fills. */
    method Take() returns (cells: map<(nat, nat), Value>, blankets: map<nat, BlanketFills>)
      ensures cells == Flatten(fixed) && blankets == blanketFills
    {
      cells, blankets := Flatten(fixed), blanketFills;
    }
  }
}
