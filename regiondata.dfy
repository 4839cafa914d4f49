/**
 * Per-region bookkeeping during synthesis: the row extent, the columns
 * touched, the selectors enabled per row and the namespace stack.
 */
module RegionData {
  import opened Wrappers
  import opened Columns

  /** `rposition`: the last index holding `x`. */
  function LastPosition(s: seq<string>, x: string): (r: Option<nat>)
    ensures r.None? <==> x !in s
    ensures r.Some? ==> r.value < |s| && s[r.value] == x && forall j :: r.value < j < |s| ==> s[j] != x
  {
    if s == [] then None
    else if s[|s| - 1] == x then Some(|s| - 1)
    else LastPosition(s[..|s| - 1], x)
  }

  /** `Vec::remove`: drops the element at `i`, keeping the order of the rest. */
  function RemoveAt<X>(s: seq<X>, i: nat): (r: seq<X>)
    requires i < |s|
    ensures |r| == |s| - 1
    ensures forall j :: 0 <= j < i ==> r[j] == s[j]
    ensures forall j :: i <= j < |r| ==> r[j] == s[j + 1]
  {
    s[..i] + s[i + 1..]
  }

  class RegionDataImpl {
    var name: string
    var index: Option<nat>
    var enabledSelectors: map<nat, set<nat>>
    var columns: set<Column>
    /** The first and last row, once known. */
    var rows: Option<(nat, nat)>
    var namespaces: seq<string>

    ghost predicate Valid()
      reads this
    {
      rows.Some? ==> rows.value.0 <= rows.value.1
    }

    /** `new`: a known start gives the one-row extent (start, start). */
    constructor (name: string, index: nat, regionStart: Option<nat>)
      ensures Valid()
      ensures this.name == name && this.index == Some(index)
      ensures enabledSelectors == map[] && columns == {} && namespaces == []
      ensures rows == (if regionStart.Some? then Some((regionStart.value, regionStart.value)) else None)
    {
      this.name := name;
      this.index := Some(index);
      enabledSelectors := map[];
      columns := {};
      rows := if regionStart.Some? then Some((regionStart.value, regionStart.value)) else None;
      namespaces := [];
    }

    function Start(): (r: Option<nat>)
      reads this
      ensures r.Some? <==> rows.Some?
      ensures r.Some? ==> r.value == rows.value.0
    {
      if rows.Some? then Some(rows.value.0) else None
    }

    /** The region's extent reaches `row`. */
    predicate Covers(row: nat)
      reads this
    {
      rows.Some? && rows.value.0 <= row <= rows.value.1
    }

    /** `rows`: the half-open row range, empty when the extent is unknown. */
    function Rows(): (r: (nat, nat))
      reads this
      requires Valid()
      ensures r.0 <= r.1
      ensures rows.None? ==> r == (0, 0)
      ensures rows.Some? ==> r.0 == rows.value.0 && r.1 == rows.value.1 + 1
      ensures forall row: nat :: Covers(row) <==> r.0 <= row < r.1
    {
      if rows.Some? then (rows.value.0, rows.value.1 + 1) else (0, 0)
    }

    /** `relativize`: the offset of `row` from the start, only for rows inside the region. */
    function Relativize(row: nat): (r: Option<nat>)
      reads this
      requires Valid()
      ensures r.Some? <==> Rows().0 <= row < Rows().1
      ensures r.Some? ==> Start().Some? && Start().value + r.value == row && r.value < Rows().1 - Rows().0
    {
      var (lo, hi) := Rows();
      if lo <= row < hi then Some(row - lo) else None
    }

    /** `selectors_enabled_for_row`: the enabled selectors, none for an untouched row. */
    function SelectorsEnabledForRow(row: nat): (r: set<nat>)
      reads this
      ensures row in enabledSelectors ==> r == enabledSelectors[row]
      ensures row !in enabledSelectors ==> r == {}
    {
      if row in enabledSelectors then enabledSelectors[row] else {}
    }

    /** The columns of one type. */
    function ColumnsOfKind(k: ColumnKind): (r: set<Column>)
      reads this
      ensures forall c :: c in r <==> c in columns && c.kind == k
    {
      set c | c in columns && c.kind == k
    }

    /** `update_extent`: records the column and widens the extent to cover `row`. */
    method UpdateExtent(column: Column, row: nat)
      requires Valid()
      modifies this
      ensures Valid()
      ensures columns == old(columns) + {column}
      ensures rows == Some(if old(rows).None? then (row, row)
                           else (Min(old(rows).value.0, row), Max(old(rows).value.1, row)))
      ensures Rows().0 <= row < Rows().1
      ensures Covers(row)
      ensures forall r: nat :: old(Covers(r)) ==> Covers(r)
      ensures name == old(name) && index == old(index) && enabledSelectors == old(enabledSelectors)
      ensures namespaces == old(namespaces)
    {
      columns := columns + {column};
      rows := Some(if rows.None? then (row, row) else (Min(rows.value.0, row), Max(rows.value.1, row)));
    }

    /** `enable_selector`: adds the selector to the row's set. */
    method EnableSelector(selector: nat, row: nat)
      requires Valid()
      modifies this
      ensures Valid()
      ensures enabledSelectors == old(enabledSelectors)[row := old(SelectorsEnabledForRow(row)) + {selector}]
      ensures SelectorsEnabledForRow(row) == old(SelectorsEnabledForRow(row)) + {selector}
      ensures forall r :: r != row ==> SelectorsEnabledForRow(r) == old(SelectorsEnabledForRow(r))
      ensures name == old(name) && index == old(index) && columns == old(columns) && rows == old(rows)
      ensures namespaces == old(namespaces)
    {
      enabledSelectors := enabledSelectors[row := SelectorsEnabledForRow(row) + {selector}];
    }

    /** `take_index`: hands the index out and leaves the region without one. */
    method TakeIndex() returns (r: Option<nat>)
      modifies this
      ensures r == old(index) && index == None
      ensures name == old(name) && enabledSelectors == old(enabledSelectors) && columns == old(columns)
      ensures rows == old(rows) && namespaces == old(namespaces)
    {
      r := index;
      index := None;
    }

    method PushNamespace(n: string)
      modifies this
      ensures namespaces == old(namespaces) + [n]
      ensures name == old(name) && index == old(index) && enabledSelectors == old(enabledSelectors)
      ensures columns == old(columns) && rows == old(rows)
    {
      namespaces := namespaces + [n];
    }

    /**
     * `pop_namespace`: a name removes its last occurrence (nothing if absent);
     * no name pops the top (nothing if the stack is empty).
     */
    method PopNamespace(n: Option<string>)
      modifies this
      ensures n.Some? && n.value in old(namespaces) ==>
        namespaces == RemoveAt(old(namespaces), LastPosition(old(namespaces), n.value).value)
      ensures n.Some? && n.value !in old(namespaces) ==> namespaces == old(namespaces)
      ensures n.None? ==> namespaces == if old(namespaces) == [] then [] else old(namespaces)[..|old(namespaces)| - 1]
      ensures name == old(name) && index == old(index) && enabledSelectors == old(enabledSelectors)
      ensures columns == old(columns) && rows == old(rows)
    {
      match n
      case Some(x) =>
        var idx := LastPosition(namespaces, x);
        if idx.Some? {
          namespaces := RemoveAt(namespaces, idx.value);
        }
      case None =>
        if namespaces != [] {
          namespaces := namespaces[..|namespaces| - 1];
        }
    }
  }

  /** Pushing then popping the same name, or popping the top, restores the namespace stack. */
  lemma PushPopNamespace(ns: seq<string>, n: string)
    ensures LastPosition(ns + [n], n) == Some(|ns|)
    ensures RemoveAt(ns + [n], |ns|) == ns
    ensures (ns + [n])[..|ns + [n]| - 1] == ns
  {
  }

  /** Removing the last occurrence of a name keeps every other element, in order. */
  lemma {:induction false} PopNamespaceRemovesLast(ns: seq<string>, n: string)
    requires n in ns
    ensures var r := RemoveAt(ns, LastPosition(ns, n).value);
      |r| == |ns| - 1 && multiset(r) == multiset(ns) - multiset{n}
  {
    var i := LastPosition(ns, n).value;
    assert ns == ns[..i] + [n] + ns[i + 1..];
    assert multiset(ns) == multiset(ns[..i]) + multiset{n} + multiset(ns[i + 1..]);
  }
}
