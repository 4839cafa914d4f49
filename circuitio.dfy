/**
 * Which cells of one column type (advice or instance) are the circuit's
 * inputs and which its outputs. A cell is `(column, row)`; a cell may not be
 * both an input and an output.
 */
module CircuitIO {
  import opened Wrappers

  type IOCell = (nat, nat)

  datatype CircuitIO = CircuitIO(inputs: seq<IOCell>, outputs: seq<IOCell>)

  /** `empty`: no inputs and no outputs. */
  function Empty(): (r: CircuitIO)
    ensures InputsCount(r) == 0 && OutputsCount(r) == 0
  {
    CircuitIO([], [])
  }

  function InputsCount(io: CircuitIO): (n: nat)
    ensures n == |io.inputs|
  {
    |io.inputs|
  }

  function OutputsCount(io: CircuitIO): (n: nat)
    ensures n == |io.outputs|
  {
    |io.outputs|
  }

  /** The cells of one column, in the given row order. */
  function ColumnCells(col: nat, rows: seq<nat>): (r: seq<IOCell>)
    ensures |r| == |rows| && forall j :: 0 <= j < |rows| ==> r[j] == (col, rows[j])
  {
    if rows == [] then [] else [(col, rows[0])] + ColumnCells(col, rows[1..])
  }

  /** `map`: every column's rows as cells, column by column, each in the given row order. */
  function MapCells(m: seq<(nat, seq<nat>)>): seq<IOCell>
  {
    if m == [] then [] else ColumnCells(m[0].0, m[0].1) + MapCells(m[1..])
  }

  /** Listing columns one after the other lists their cells one after the other. */
  lemma {:induction false} MapCellsConcat(a: seq<(nat, seq<nat>)>, b: seq<(nat, seq<nat>)>)
    ensures MapCells(a + b) == MapCells(a) + MapCells(b)
  {
    if a == [] {
      assert a + b == b;
    } else {
      assert (a + b)[1..] == a[1..] + b;
      MapCellsConcat(a[1..], b);
    }
  }

  lemma {:induction false} MapCellsMembers(m: seq<(nat, seq<nat>)>, cell: IOCell)
    ensures cell in MapCells(m) <==> exists i :: 0 <= i < |m| && m[i].0 == cell.0 && cell.1 in m[i].1
  {
    if m != [] {
      MapCellsMembers(m[1..], cell);
      assert forall i :: 1 <= i < |m| ==> m[i] == m[1..][i - 1];
      var head := ColumnCells(m[0].0, m[0].1);
      if cell.0 == m[0].0 && cell.1 in m[0].1 {
        var j :| 0 <= j < |m[0].1| && m[0].1[j] == cell.1;
        assert head[j] == cell;
      }
    }
  }

  /** No cell is both an input and an output. */
  predicate Disjoint(io: CircuitIO)
  {
    forall c :: c in io.inputs ==> c !in io.outputs
  }

  /** `validated`: the IO itself, or an error when the input and output sets meet. */
  function Validated(io: CircuitIO): (r: Result<CircuitIO>)
    ensures r.Ok? <==> Disjoint(io)
    ensures r.Ok? ==> r.value == io
  {
    if exists c :: c in io.inputs && c in io.outputs then Err("Sets are not disjoint") else Ok(io)
  }

  /** `new`: the cells of the listed columns, validated. */
  function New(inputs: seq<(nat, seq<nat>)>, outputs: seq<(nat, seq<nat>)>): (r: Result<CircuitIO>)
    ensures r.Ok? ==> r.value == CircuitIO(MapCells(inputs), MapCells(outputs))
  {
    Validated(CircuitIO(MapCells(inputs), MapCells(outputs)))
  }

  /** Column `i` of the inputs and column `j` of the outputs share a cell. */
  predicate SharedCell(inputs: seq<(nat, seq<nat>)>, outputs: seq<(nat, seq<nat>)>, i: nat, j: nat)
  {
    i < |inputs| && j < |outputs| && inputs[i].0 == outputs[j].0 &&
    exists row :: row in inputs[i].1 && row in outputs[j].1
  }

  /** `new` fails exactly when some row of some column is listed as both an input and an output. */
  lemma NewFailsOnSharedCell(inputs: seq<(nat, seq<nat>)>, outputs: seq<(nat, seq<nat>)>)
    ensures New(inputs, outputs).Err? <==> exists i: nat, j: nat :: SharedCell(inputs, outputs, i, j)
  {
    var io := CircuitIO(MapCells(inputs), MapCells(outputs));
    if exists i: nat, j: nat :: SharedCell(inputs, outputs, i, j) {
      var i: nat, j: nat :| SharedCell(inputs, outputs, i, j);
      var row :| row in inputs[i].1 && row in outputs[j].1;
      var c := (inputs[i].0, row);
      MapCellsMembers(inputs, c);
      MapCellsMembers(outputs, c);
      assert c in io.inputs && c in io.outputs;
    }
    if New(inputs, outputs).Err? {
      var c :| c in io.inputs && c in io.outputs;
      MapCellsMembers(inputs, c);
      MapCellsMembers(outputs, c);
      var i :| 0 <= i < |inputs| && inputs[i].0 == c.0 && c.1 in inputs[i].1;
      var j :| 0 <= j < |outputs| && outputs[j].0 == c.0 && c.1 in outputs[j].1;
      assert SharedCell(inputs, outputs, i, j);
    }
  }

  /** `from_inputs` and `from_outputs` never fail, and keep the other side empty. */
  lemma OneSidedAlwaysValid(cells: seq<(nat, seq<nat>)>)
    ensures New(cells, []) == Ok(CircuitIO(MapCells(cells), []))
    ensures New([], cells) == Ok(CircuitIO([], MapCells(cells)))
  {
  }

  /** The cells of `[(0, [2, 1]), (3, [5])]`. */
  lemma MapCellsExample()
    ensures MapCells([(0, [2, 1]), (3, [5])]) == [(0, 2), (0, 1), (3, 5)]
  {
    MapCellsConcat([(0, [2, 1])], [(3, [5])]);
    assert MapCells([(3, [5])]) == [(3, 5)];
    assert MapCells([(0, [2, 1])]) == [(0, 2), (0, 1)];
  }
}
