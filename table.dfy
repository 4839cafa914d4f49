/**
 * Lookup-table data: per column, a map from fill keys to values, where a key
 * is an explicit single row or the start of a blanket fill, and the keys
 * compare by row alone. `fill_table` densifies one column up to a row limit.
 */
module Table {
  import opened Wrappers
  import opened Fixed
  import opened Gates

  datatype FillKind = Single | Many

  /** `Fill`: equality and order look only at the row. */
  datatype Fill = Fill(kind: FillKind, row: nat)

  function FillCompare(a: Fill, b: Fill): (r: Ordering)
    ensures r.Equal? <==> a.row == b.row
    ensures r.Less? <==> a.row < b.row
  {
    CmpInt(a.row, b.row)
  }

  datatype Entry = Entry(fill: Fill, value: Value)

  /** A column's `BTreeMap<Fill, Value>`, as its entries in key order. */
  type ColumnTable = seq<Entry>

  predicate Sorted(t: ColumnTable)
  {
    forall i, j :: 0 <= i < j < |t| ==> t[i].fill.row < t[j].fill.row
  }

  /** The rows holding an entry. */
  function Rows(t: ColumnTable): set<nat>
  {
    if t == [] then {} else {t[0].fill.row} + Rows(t[1..])
  }

  lemma {:induction false} RowsMembers(t: ColumnTable)
    ensures forall i :: 0 <= i < |t| ==> t[i].fill.row in Rows(t)
    ensures forall x :: x in Rows(t) ==> exists i :: 0 <= i < |t| && t[i].fill.row == x
  {
    if t != [] {
      RowsMembers(t[1..]);
      assert forall i :: 1 <= i < |t| ==> t[i] == t[1..][i - 1];
      forall x | x in Rows(t)
        ensures exists i :: 0 <= i < |t| && t[i].fill.row == x
      {
        if x != t[0].fill.row {
          var i :| 0 <= i < |t[1..]| && t[1..][i].fill.row == x;
          assert t[i + 1].fill.row == x;
        }
      }
    }
  }

  /** Each row has one entry, so a sorted table's first row is below all the others. */
  lemma SortedHead(t: ColumnTable)
    requires Sorted(t) && t != []
    ensures Sorted(t[1..]) && forall x :: x in Rows(t[1..]) ==> t[0].fill.row < x
  {
    RowsMembers(t[1..]);
    forall x | x in Rows(t[1..])
      ensures t[0].fill.row < x
    {
      var i :| 0 <= i < |t[1..]| && t[1..][i].fill.row == x;
      assert t[1..][i] == t[i + 1];
    }
  }

  lemma SortedCons(e: Entry, t: ColumnTable)
    requires Sorted(t) && forall x :: x in Rows(t) ==> e.fill.row < x
    ensures Sorted([e] + t)
  {
    var s := [e] + t;
    RowsMembers(t);
    forall i, j | 0 <= i < j < |s|
      ensures s[i].fill.row < s[j].fill.row
    {
      if i == 0 {
        assert s[j] == t[j - 1];
        assert t[j - 1].fill.row in Rows(t);
      } else {
        assert s[i] == t[i - 1] && s[j] == t[j - 1];
      }
    }
  }

  /**
   * `BTreeMap::insert`: a new row adds the entry in order; an existing row
   * keeps its key, so its kind, and takes the new value.
   */
  function Insert(t: ColumnTable, f: Fill, v: Value): (r: ColumnTable)
    requires Sorted(t)
    ensures Sorted(r)
    ensures Rows(r) == Rows(t) + {f.row}
  {
    if t == [] then [Entry(f, v)]
    else if f.row < t[0].fill.row then
      SortedHead(t);
      SortedCons(Entry(f, v), t);
      [Entry(f, v)] + t
    else if f.row == t[0].fill.row then
      SortedHead(t);
      SortedCons(Entry(t[0].fill, v), t[1..]);
      assert t == [t[0]] + t[1..];
      assert forall e :: e in t && e.fill.row == f.row ==> e == t[0];
      [Entry(t[0].fill, v)] + t[1..]
    else
      SortedHead(t);
      var rest := Insert(t[1..], f, v);
      SortedCons(t[0], rest);
      assert t == [t[0]] + t[1..];
      [t[0]] + rest
  }

  /** A new row gets the entry; an existing row keeps its key with the new value; other entries stay. */
  lemma {:induction false} InsertEntries(t: ColumnTable, f: Fill, v: Value)
    requires Sorted(t)
    ensures f.row !in Rows(t) ==> Entry(f, v) in Insert(t, f, v) && |Insert(t, f, v)| == |t| + 1
    ensures forall e :: e in t && e.fill.row == f.row ==> Entry(e.fill, v) in Insert(t, f, v) && |Insert(t, f, v)| == |t|
    ensures forall e :: e in t && e.fill.row != f.row ==> e in Insert(t, f, v)
  {
    if t != [] {
      SortedHead(t);
      assert t == [t[0]] + t[1..];
      if f.row > t[0].fill.row {
        InsertEntries(t[1..], f, v);
      } else if f.row == t[0].fill.row {
        RowsMembers(t[1..]);
        assert forall e :: e in t[1..] ==> e.fill.row in Rows(t[1..]);
      }
    }
  }

  /** Because keys compare by row, a blanket fill starting on an explicit cell's row keeps the cell's kind. */
  lemma SameRowKeepsKind(row: nat, a: Value, b: Value)
    ensures Insert([Entry(Fill(Single, row), a)], Fill(Many, row), b) == [Entry(Fill(Single, row), b)]
  {
  }

  /** The value of the explicit entry on `row`, if any. */
  function SingleAt(t: ColumnTable, row: nat): (r: Option<Value>)
    ensures r.Some? ==> exists i :: 0 <= i < |t| && t[i] == Entry(Fill(Single, row), r.value)
    ensures r.None? ==> forall i :: 0 <= i < |t| ==> t[i].fill != Fill(Single, row)
  {
    if t == [] then None
    else if t[|t| - 1].fill == Fill(Single, row) then Some(t[|t| - 1].value)
    else
      var r := SingleAt(t[..|t| - 1], row);
      assert forall i :: 0 <= i < |t| - 1 ==> t[..|t| - 1][i] == t[i];
      r
  }

  /** The value of the blanket fill with the latest start at or before `row`. */
  function BlanketAt(t: ColumnTable, row: nat): (r: Option<Value>)
    ensures r.None? <==> forall i :: 0 <= i < |t| && t[i].fill.kind.Many? ==> row < t[i].fill.row
  {
    if t == [] then None
    else if t[|t| - 1].fill.kind.Many? && t[|t| - 1].fill.row <= row then Some(t[|t| - 1].value)
    else
      var r := BlanketAt(t[..|t| - 1], row);
      assert forall i :: 0 <= i < |t| - 1 ==> t[..|t| - 1][i] == t[i];
      r
  }

  /** A blanket entry covers `row` when no later blanket entry starts at or before it. */
  lemma {:induction false} BlanketAtHit(t: ColumnTable, k: nat, row: nat)
    requires k < |t| && t[k].fill.kind.Many? && t[k].fill.row <= row
    requires forall j :: k < j < |t| && t[j].fill.kind.Many? ==> row < t[j].fill.row
    ensures BlanketAt(t, row) == Some(t[k].value)
  {
    if k < |t| - 1 {
      var s := t[..|t| - 1];
      assert forall j :: 0 <= j < |s| ==> s[j] == t[j];
      BlanketAtHit(s, k, row);
    }
  }

  /** The dense value of a row: an explicit value wins over the blanket fills. */
  function TableValue(t: ColumnTable, row: nat): Option<Value>
  {
    if SingleAt(t, row).Some? then SingleAt(t, row) else BlanketAt(t, row)
  }

  /** Writes `v` into the rows `from..to`, marking them covered. */
  method FillRange(dense: array<Value>, check: array<bool>, from: nat, to: nat, v: Value)
    requires dense.Length == check.Length && to <= dense.Length
    modifies dense, check
    ensures forall row :: 0 <= row < dense.Length && from <= row < to ==> dense[row] == v && check[row]
    ensures forall row :: 0 <= row < dense.Length && !(from <= row < to) ==>
      dense[row] == old(dense[row]) && check[row] == old(check[row])
  {
    var i := from;
    while i < to
      invariant from <= i && (from <= to ==> i <= to) && (to < from ==> i == from)
      invariant forall row :: 0 <= row < dense.Length && from <= row < i ==> dense[row] == v && check[row]
      invariant forall row :: 0 <= row < dense.Length && !(from <= row < i) ==>
        dense[row] == old(dense[row]) && check[row] == old(check[row])
    {
      dense[i] := v;
      check[i] := true;
      i := i + 1;
    }
  }

  /** The blanket pass, latest start first: each fill reaches up to where the previous one began. */
  method BlanketPass(t: ColumnTable, limit: nat, dense: array<Value>, check: array<bool>) returns (last: nat)
    requires Sorted(t) && dense.Length == check.Length == limit + 1
    requires forall row :: 0 <= row <= limit ==> !check[row]
    modifies dense, check
    ensures last <= limit + 1
    ensures forall row :: 0 <= row <= limit ==> (check[row] <==> last <= row)
    ensures forall row: nat :: last <= row <= limit ==> BlanketAt(t, row) == Some(dense[row])
    ensures forall row: nat :: row < last ==> BlanketAt(t, row).None?
  {
    last := limit + 1;
    var k := |t|;
    while k > 0
      invariant 0 <= k <= |t| && last <= limit + 1
      invariant forall row :: 0 <= row <= limit ==> (check[row] <==> last <= row)
      invariant forall row: nat :: last <= row <= limit ==> BlanketAt(t, row) == Some(dense[row])
      invariant forall j :: k <= j < |t| && t[j].fill.kind.Many? ==> last <= t[j].fill.row
    {
      k := k - 1;
      if t[k].fill.kind.Many? {
        var start := t[k].fill.row;
        FillRange(dense, check, start, last, t[k].value);
        forall row | start <= row < last
          ensures BlanketAt(t, row) == Some(t[k].value)
        {
          BlanketAtHit(t, k, row);
        }
        last := Min(last, start);
      }
    }
  }

  /** The explicit values, written over the blanket fills. */
  method SinglePass(t: ColumnTable, limit: nat, last: nat, dense: array<Value>, check: array<bool>)
    requires dense.Length == check.Length == limit + 1
    requires forall i :: 0 <= i < |t| && t[i].fill.kind.Single? ==> t[i].fill.row <= limit
    requires forall row :: 0 <= row <= limit ==> (check[row] <==> last <= row)
    requires forall row: nat :: last <= row <= limit ==> BlanketAt(t, row) == Some(dense[row])
    requires forall row: nat :: row < last ==> BlanketAt(t, row).None?
    modifies dense, check
    ensures forall row :: 0 <= row <= limit ==> (check[row] <==> TableValue(t, row).Some?)
    ensures forall row :: 0 <= row <= limit && check[row] ==> dense[row] == TableValue(t, row).value
  {
    var j := 0;
    while j < |t|
      invariant 0 <= j <= |t|
      invariant forall row :: 0 <= row <= limit ==> (check[row] <==> last <= row || SingleAt(t[..j], row).Some?)
      invariant forall row :: 0 <= row <= limit && check[row] ==>
        dense[row] == (if SingleAt(t[..j], row).Some? then SingleAt(t[..j], row).value else BlanketAt(t, row).value)
    {
      assert t[..j + 1][..j] == t[..j];
      if t[j].fill.kind.Single? {
        dense[t[j].fill.row] := t[j].value;
        check[t[j].fill.row] := true;
      }
      j := j + 1;
    }
    assert t[..|t|] == t;
  }

  /** `all`: every row is covered. */
  method AllCovered(check: array<bool>) returns (ok: bool)
    ensures ok <==> forall row :: 0 <= row < check.Length ==> check[row]
  {
    ok := true;
    var i := 0;
    while i < check.Length
      invariant 0 <= i <= check.Length
      invariant ok <==> forall row :: 0 <= row < i ==> check[row]
    {
      if !check[i] {
        ok := false;
        break;
      }
      i := i + 1;
    }
  }

  /**
   * `fill_table`: every blanket fill is written from its start up to the next
   * blanket fill's start (capped at the limit), then explicit values override;
   * a row left uncovered is an error.
   */
  method FillTable(t: ColumnTable, limit: nat) returns (r: Result<seq<Value>>)
    requires Sorted(t)
    requires forall i :: 0 <= i < |t| && t[i].fill.kind.Single? ==> t[i].fill.row <= limit
    ensures r.Ok? <==> forall row :: 0 <= row <= limit ==> TableValue(t, row).Some?
    ensures r.Ok? ==> |r.value| == limit + 1
    ensures r.Ok? ==> forall row :: 0 <= row <= limit ==> r.value[row] == TableValue(t, row).value
  {
    var dense := new Value[limit + 1](_ => Unknown);
    var check := new bool[limit + 1](_ => false);
    var last := BlanketPass(t, limit, dense, check);
    SinglePass(t, limit, last, dense, check);
    var ok := AllCovered(check);
    if !ok {
      return Err("Detected gaps in table!");
    }
    forall row | 0 <= row <= limit
      ensures TableValue(t, row).Some? && dense[row] == TableValue(t, row).value
    {
      assert row < check.Length && check[row];
    }
    r := Ok(dense[..]);
  }

  /** The blanket rows, latest start first, as `rev().filter(Many)` visits them. */
  function ManyRowsDesc(t: ColumnTable): (r: seq<nat>)
    ensures forall x :: x in r <==> exists i :: 0 <= i < |t| && t[i].fill == Fill(Many, x)
  {
    if t == [] then []
    else
      var rest := ManyRowsDesc(t[..|t| - 1]);
      assert forall i :: 0 <= i < |t| - 1 ==> t[..|t| - 1][i] == t[i];
      if t[|t| - 1].fill.kind.Many? then [t[|t| - 1].fill.row] + rest else rest
  }

  /** The ranges `start..last` the blanket pass writes as written, where `last` becomes the start. */
  function BlanketRangesAsWritten(rows: seq<nat>, last: nat): (r: seq<(nat, nat)>)
    ensures |r| == |rows|
    ensures forall i :: 0 <= i < |r| ==> r[i].0 == rows[i] && r[i].1 == (if i == 0 then last else rows[i - 1])
  {
    if rows == [] then [] else [(rows[0], last)] + BlanketRangesAsWritten(rows[1..], rows[0])
  }

  /** The same ranges with `last` lowered only, as the pass in `FillTable` does. */
  function BlanketRanges(rows: seq<nat>, last: nat): (r: seq<(nat, nat)>)
    ensures |r| == |rows|
    ensures forall i :: 0 <= i < |r| ==> r[i].0 == rows[i] && r[i].1 <= last
  {
    if rows == [] then [] else [(rows[0], last)] + BlanketRanges(rows[1..], Min(last, rows[0]))
  }

  /**
   * As written, a blanket fill starting beyond `limit + 1` followed by one
   * below it makes the pass write past the end of the dense column: for the
   * fills from rows 0 and 10 around an explicit row 3, the limit is 3, the
   * column has 4 rows, and the lower fill writes the rows `0..10`.
   */
  lemma FillTableOutOfBounds()
    ensures var t := [Entry(Fill(Many, 0), Known(1)), Entry(Fill(Single, 3), Known(2)), Entry(Fill(Many, 10), Known(3))];
      Sorted(t) && TableLimit(t) == Some(3) && ManyRowsDesc(t) == [10, 0] &&
      BlanketRangesAsWritten(ManyRowsDesc(t), 3 + 1)[1] == (0, 10) &&
      BlanketRanges(ManyRowsDesc(t), 3 + 1)[1] == (0, 4)
  {
    var t := [Entry(Fill(Many, 0), Known(1)), Entry(Fill(Single, 3), Known(2)), Entry(Fill(Many, 10), Known(3))];
    assert t[..2] == [Entry(Fill(Many, 0), Known(1)), Entry(Fill(Single, 3), Known(2))];
    assert t[..2][..1] == [Entry(Fill(Many, 0), Known(1))];
    assert ManyRowsDesc(t[..2][..1]) == [0];
    assert ManyRowsDesc(t[..2]) == [0];
    assert LastRowOfKind(t, Single) == Some(3);
  }

  /** The last row holding an entry of the given kind. */
  function LastRowOfKind(t: ColumnTable, kind: FillKind): (r: Option<nat>)
    ensures r.None? <==> forall i :: 0 <= i < |t| ==> t[i].fill.kind != kind
    ensures r.Some? ==> exists i :: 0 <= i < |t| && t[i].fill == Fill(kind, r.value)
    ensures r.Some? && Sorted(t) ==> forall i :: 0 <= i < |t| && t[i].fill.kind == kind ==> t[i].fill.row <= r.value
  {
    if t == [] then None
    else if t[|t| - 1].fill.kind == kind then Some(t[|t| - 1].fill.row)
    else
      var r := LastRowOfKind(t[..|t| - 1], kind);
      assert forall i :: 0 <= i < |t| - 1 ==> t[..|t| - 1][i] == t[i];
      r
  }

  /** One column's contribution to `find_upper_limit`: its last explicit row, else its last blanket start. */
  function TableLimit(t: ColumnTable): (r: Option<nat>)
    ensures r.None? <==> t == []
    ensures r.Some? && Sorted(t) ==> forall i :: 0 <= i < |t| && t[i].fill.kind.Single? ==> t[i].fill.row <= r.value
  {
    if LastRowOfKind(t, Single).Some? then LastRowOfKind(t, Single)
    else
      assert t != [] ==> t[0].fill.kind.Many?;
      LastRowOfKind(t, Many)
  }

  /** `find_upper_limit`: the largest column limit; none for an empty column or no columns. */
  function FindUpperLimit(tables: seq<ColumnTable>): (r: Option<nat>)
    ensures r.None? <==> tables == [] || exists i :: 0 <= i < |tables| && tables[i] == []
    ensures r.Some? ==> forall i :: 0 <= i < |tables| ==> TableLimit(tables[i]).value <= r.value
    ensures r.Some? ==> exists i :: 0 <= i < |tables| && TableLimit(tables[i]) == r
  {
    if tables == [] then None
    else
      var a := TableLimit(tables[0]);
      if |tables| == 1 then a
      else
        var b := FindUpperLimit(tables[1..]);
        assert forall i :: 1 <= i < |tables| ==> tables[i] == tables[1..][i - 1];
        if a.None? || b.None? then None else Some(Max(a.value, b.value))
  }

  /** The limit covers every explicit row of every column. */
  lemma UpperLimitCoversSingles(tables: seq<ColumnTable>, i: nat, j: nat)
    requires FindUpperLimit(tables).Some? && i < |tables| && Sorted(tables[i])
    requires j < |tables[i]| && tables[i][j].fill.kind.Single?
    ensures tables[i][j].fill.row <= FindUpperLimit(tables).value
  {
  }

  datatype ColumnMatch = Contained | Missing(queries: seq<AnyQuery>)

  function MatchOne(present: set<nat>, q: AnyQuery): ColumnMatch
  {
    if ColumnIndex(q) in present then Contained else Missing([q])
  }

  /** The fold step of `check_columns`: missing queries accumulate in order. */
  function Combine(acc: ColumnMatch, m: ColumnMatch): ColumnMatch
  {
    match (acc, m)
    case (Contained, Contained) => Contained
    case (Contained, Missing(items)) => Missing(items)
    case (Missing(items), Contained) => Missing(items)
    case (Missing(items), Missing(q)) => Missing(items + q)
  }

  function FoldMatches(acc: ColumnMatch, present: set<nat>, cols: seq<AnyQuery>): ColumnMatch
    decreases cols
  {
    if cols == [] then acc else FoldMatches(Combine(acc, MatchOne(present, cols[0])), present, cols[1..])
  }

  /** The queries whose column is absent, in order. */
  function MissingOf(present: set<nat>, cols: seq<AnyQuery>): seq<AnyQuery>
  {
    if cols == [] then [] else Items(MatchOne(present, cols[0])) + MissingOf(present, cols[1..])
  }

  lemma {:induction false} MissingOfMembers(present: set<nat>, cols: seq<AnyQuery>)
    ensures forall q :: q in MissingOf(present, cols) <==> q in cols && ColumnIndex(q) !in present
    ensures MissingOf(present, cols) == [] <==> forall i :: 0 <= i < |cols| ==> ColumnIndex(cols[i]) in present
  {
    if cols != [] {
      MissingOfMembers(present, cols[1..]);
      assert cols == [cols[0]] + cols[1..];
      assert forall i :: 1 <= i < |cols| ==> cols[i] == cols[1..][i - 1];
    }
  }

  function Items(m: ColumnMatch): seq<AnyQuery>
  {
    if m.Missing? then m.queries else []
  }

  lemma CombineItems(acc: ColumnMatch, m: ColumnMatch)
    ensures Combine(acc, m).Contained? <==> acc.Contained? && m.Contained?
    ensures Items(Combine(acc, m)) == Items(acc) + Items(m)
  {
  }

  lemma {:induction false} FoldMatchesFilters(acc: ColumnMatch, present: set<nat>, cols: seq<AnyQuery>)
    ensures FoldMatches(acc, present, cols).Contained? <==> acc.Contained? && |MissingOf(present, cols)| == 0
    ensures Items(FoldMatches(acc, present, cols)) == Items(acc) + MissingOf(present, cols)
    decreases cols
  {
    if cols == [] {
      assert Items(acc) + [] == Items(acc);
    } else {
      var m := MatchOne(present, cols[0]);
      var next := Combine(acc, m);
      CombineItems(acc, m);
      FoldMatchesFilters(next, present, cols[1..]);
      var rest := MissingOf(present, cols[1..]);
      assert Items(acc) + (Items(m) + rest) == (Items(acc) + Items(m)) + rest;
    }
  }

  /** `check_columns`: `Contained` iff every queried column has data, else the queries that miss, in order. */
  function CheckColumns(present: set<nat>, cols: seq<AnyQuery>): (r: ColumnMatch)
    requires cols != []
    ensures r.Contained? <==> forall i :: 0 <= i < |cols| ==> ColumnIndex(cols[i]) in present
    ensures r.Missing? ==> r.queries == MissingOf(present, cols) && r.queries != []
  {
    FoldMatchesFilters(Contained, present, cols);
    MissingOfMembers(present, cols);
    FoldMatches(Contained, present, cols)
  }

  /** `collect` of `steal`: the known values, or nothing if one is unknown. */
  function StealAll(vs: seq<Value>): (r: Option<seq<nat>>)
    ensures r.Some? <==> forall i :: 0 <= i < |vs| ==> vs[i].Known?
    ensures r.Some? ==> |r.value| == |vs| && forall i :: 0 <= i < |vs| ==> r.value[i] == vs[i].v
  {
    if vs == [] then Some([])
    else
      var rest := StealAll(vs[1..]);
      assert forall i :: 1 <= i < |vs| ==> vs[i] == vs[1..][i - 1];
      if vs[0].Known? && rest.Some? then Some([vs[0].v] + rest.value) else None
  }

  /** The tables of the queried columns. */
  function TablesOf(values: map<nat, ColumnTable>, cols: seq<AnyQuery>): (r: seq<ColumnTable>)
    requires forall i :: 0 <= i < |cols| ==> ColumnIndex(cols[i]) in values
    ensures |r| == |cols| && forall i :: 0 <= i < |cols| ==> r[i] == values[ColumnIndex(cols[i])]
  {
    if cols == [] then [] else [values[ColumnIndex(cols[0])]] + TablesOf(values, cols[1..])
  }

  /** Every row of one column up to the limit is covered and known. */
  predicate ColumnResolvable(t: ColumnTable, limit: nat)
  {
    forall row: nat :: row <= limit ==> TableValue(t, row).Some? && TableValue(t, row).value.Known?
  }

  /** Every queried row up to the limit is covered and known. */
  predicate Resolvable(tables: seq<ColumnTable>, limit: nat)
  {
    forall i :: 0 <= i < |tables| ==> ColumnResolvable(tables[i], limit)
  }

  /** `o` holds the column's known values for the rows `0..=limit`. */
  predicate DenseColumn(t: ColumnTable, limit: nat, o: seq<nat>)
  {
    |o| == limit + 1 &&
    forall row: nat :: row <= limit ==>
      TableValue(t, row).Some? && TableValue(t, row).value.Known? && o[row] == TableValue(t, row).value.v
  }

  /** `out` holds every table's known values for the rows `0..=limit`. */
  predicate DenseOf(tables: seq<ColumnTable>, limit: nat, out: seq<seq<nat>>)
  {
    |out| == |tables| && forall i :: 0 <= i < |tables| ==> DenseColumn(tables[i], limit, out[i])
  }

  lemma DenseSnoc(tables: seq<ColumnTable>, limit: nat, out: seq<seq<nat>>, t: ColumnTable, v: seq<nat>)
    requires Resolvable(tables, limit) && DenseOf(tables, limit, out)
    requires ColumnResolvable(t, limit) && DenseColumn(t, limit, v)
    ensures Resolvable(tables + [t], limit) && DenseOf(tables + [t], limit, out + [v])
  {
    var ts, os := tables + [t], out + [v];
    forall i | 0 <= i < |ts|
      ensures ColumnResolvable(ts[i], limit) && DenseColumn(ts[i], limit, os[i])
    {
      if i < |tables| {
        assert ts[i] == tables[i] && os[i] == out[i];
      } else {
        assert ts[i] == t && os[i] == v;
      }
    }
  }

  /** Densifies every table up to `limit`, stopping at the first gap or unknown value. */
  method FillAll(tables: seq<ColumnTable>, limit: nat) returns (r: Result<seq<seq<nat>>>)
    requires forall i :: 0 <= i < |tables| ==> Sorted(tables[i])
    requires forall i, j :: 0 <= i < |tables| && 0 <= j < |tables[i]| && tables[i][j].fill.kind.Single? ==>
      tables[i][j].fill.row <= limit
    ensures r.Ok? <==> Resolvable(tables, limit)
    ensures r.Ok? ==> DenseOf(tables, limit, r.value)
  {
    var out: seq<seq<nat>> := [];
    var i := 0;
    while i < |tables|
      invariant 0 <= i <= |tables|
      invariant Resolvable(tables[..i], limit) && DenseOf(tables[..i], limit, out)
    {
      var dense := FillTable(tables[i], limit);
      if dense.Err? {
        assert !ColumnResolvable(tables[i], limit) by {
          var row :| 0 <= row <= limit && TableValue(tables[i], row).None?;
        }
        return Err(dense.error);
      }
      var known := StealAll(dense.value);
      if known.None? {
        assert !ColumnResolvable(tables[i], limit) by {
          var row :| 0 <= row <= limit && !dense.value[row].Known?;
        }
        return Err("Table value filled with unknown value!");
      }
      assert tables[..i + 1] == tables[..i] + [tables[i]];
      assert ColumnResolvable(tables[i], limit) && DenseColumn(tables[i], limit, known.value);
      DenseSnoc(tables[..i], limit, out, tables[i], known.value);
      out := out + [known.value];
      i := i + 1;
    }
    assert tables[..i] == tables;
    r := Ok(out);
  }

  /**
   * `get_rows`: nothing when a queried column is missing; otherwise every
   * queried column densified up to the common limit, or an error when there
   * is no limit, a row is uncovered or a value is unknown.
   */
  method GetRows(values: map<nat, ColumnTable>, cols: seq<AnyQuery>) returns (r: Option<Result<seq<seq<nat>>>>)
    requires cols != [] && forall c :: c in values ==> Sorted(values[c])
    ensures r.None? <==> CheckColumns(values.Keys, cols).Missing?
    ensures r.Some? ==> forall i :: 0 <= i < |cols| ==> ColumnIndex(cols[i]) in values
    ensures r.Some? ==> (r.value.Ok? <==> FindUpperLimit(TablesOf(values, cols)).Some? &&
                                          Resolvable(TablesOf(values, cols), FindUpperLimit(TablesOf(values, cols)).value))
    ensures r.Some? && r.value.Ok? ==>
      DenseOf(TablesOf(values, cols), FindUpperLimit(TablesOf(values, cols)).value, r.value.value)
  {
    if CheckColumns(values.Keys, cols).Missing? {
      return None;
    }
    var tables := TablesOf(values, cols);
    var upper := FindUpperLimit(tables);
    if upper.None? {
      return Some(Err("Could not get the largest row fill of table"));
    }
    forall i, j | 0 <= i < |tables| && 0 <= j < |tables[i]| && tables[i][j].fill.kind.Single?
      ensures tables[i][j].fill.row <= upper.value
    {
      UpperLimitCoversSingles(tables, i, j);
    }
    var rows := FillAll(tables, upper.value);
    r := Some(rows);
  }
}
