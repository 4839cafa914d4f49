/**
 * Resolution of queries at a row: a rotation moves the row, and a queried
 * cell that is part of the circuit's IO becomes a function argument or field,
 * numbered by its position in the IO lists (advice after instance).
 */
module Row {
  import opened Wrappers
  import opened Names
  import opened Func
  import opened CircuitIO

  /** Which kind wins when a cell is both an input and an output; outputs by default. */
  datatype ResolutionPriority = InputFirst | OutputFirst

  datatype Row = Row(row: nat, adviceIO: CircuitIO, instanceIO: CircuitIO, priority: ResolutionPriority)

  /** `Row::new`: the default priority is outputs. */
  function NewRow(row: nat, adviceIO: CircuitIO, instanceIO: CircuitIO): (r: Row)
    ensures r.priority == OutputFirst && r.row == row && r.adviceIO == adviceIO && r.instanceIO == instanceIO
  {
    Row(row, adviceIO, instanceIO, OutputFirst)
  }

  function PrioritizeInputs(r: Row): (r': Row)
    ensures r' == r.(priority := InputFirst)
  {
    r.(priority := InputFirst)
  }

  function PrioritizeOutputs(r: Row): (r': Row)
    ensures r' == r.(priority := OutputFirst)
  {
    r.(priority := OutputFirst)
  }

  /** `resolve_rotation`: the rotated row, or an underflow error before row 0. */
  function ResolveRotation(r: Row, rot: int): (res: Result<nat>)
    ensures res.Err? <==> r.row + rot < 0
    ensures res.Err? ==> res.error == "Row underflow"
    ensures res.Ok? ==> res.value == r.row + rot
  {
    if -rot > r.row then Err("Row underflow") else Ok(r.row + rot)
  }

  /** Rotating forward and back returns to the original row. */
  lemma RotationRoundTrip(r: Row, rot: int)
    requires ResolveRotation(r, rot).Ok?
    ensures ResolveRotation(r.(row := ResolveRotation(r, rot).value), -rot) == Ok(r.row)
  {
  }

  /** `resolve_as`: the position of the first cell `(col, row)` in the list. */
  function ResolveAs(io: seq<IOCell>, col: nat, row: nat): (r: Option<nat>)
    ensures r.None? <==> (col, row) !in io
    ensures r.Some? ==> r.value < |io| && io[r.value] == (col, row) &&
                        forall k :: 0 <= k < r.value ==> io[k] != (col, row)
  {
    if io == [] then None
    else if io[0] == (col, row) then Some(0)
    else
      var r := ResolveAs(io[1..], col, row);
      if r.None? then None else Some(r.value + 1)
  }

  /** `resolve`: an input becomes an argument, an output a field, with the priority breaking ties. */
  function Resolve(r: Row, io: CircuitIO, col: nat, row: nat, fallback: Option<FuncIO>, kind: string): (res: Result<FuncIO>)
    ensures (col, row) in io.inputs && (col, row) !in io.outputs ==>
      res == Ok(Arg(ResolveAs(io.inputs, col, row).value))
    ensures (col, row) !in io.inputs && (col, row) in io.outputs ==>
      res == Ok(Field(ResolveAs(io.outputs, col, row).value))
    ensures (col, row) in io.inputs && (col, row) in io.outputs ==>
      res == Ok(if r.priority == InputFirst then Arg(ResolveAs(io.inputs, col, row).value)
                else Field(ResolveAs(io.outputs, col, row).value))
    ensures (col, row) !in io.inputs && (col, row) !in io.outputs ==>
      (fallback.Some? ==> res == Ok(fallback.value)) && (fallback.None? ==> res.Err?)
  {
    var asInput := ResolveAs(io.inputs, col, row);
    var asOutput := ResolveAs(io.outputs, col, row);
    if asInput.None? && asOutput.None? then
      if fallback.Some? then Ok(fallback.value)
      else Err("Failed to resolve " + kind + " cell (" + NatToString(col) + ", " + NatToString(row) +
               "): Fallback value was required but was not present.")
    else if asInput.None? then Ok(Field(asOutput.value))
    else if asOutput.None? then Ok(Arg(asInput.value))
    else if r.priority == InputFirst then Ok(Arg(asInput.value))
    else Ok(Field(asOutput.value))
  }

  /** `step_advice_io`: advice arguments and fields follow the instance ones. */
  function StepAdviceIO(r: Row, io: FuncIO): (res: FuncIO)
    ensures io.Arg? ==> res == Arg(io.argNo + InputsCount(r.instanceIO))
    ensures io.Field? ==> res == Field(io.fieldId + OutputsCount(r.instanceIO))
    ensures !io.Arg? && !io.Field? ==> res == io
  {
    match io
    case Arg(n) => Arg(n + |r.instanceIO.inputs|)
    case Field(n) => Field(n + |r.instanceIO.outputs|)
    case _ => io
  }

  /** `resolve_advice_query` on a `Row`: an advice cell outside the IO stays an absolute advice cell. */
  function ResolveAdviceQuery(r: Row, col: nat, rot: int): (res: Result<FuncIO>)
    ensures res.Err? <==> r.row + rot < 0
  {
    var row := ResolveRotation(r, rot);
    if row.Err? then Err(row.error)
    else
      var resolved := Resolve(r, r.adviceIO, col, row.value, Some(Advice(col, row.value)), "Advice");
      Ok(StepAdviceIO(r, resolved.value))
  }

  /** `resolve_instance_query`: an instance cell must be part of the IO. */
  function ResolveInstanceQuery(r: Row, col: nat, rot: int): (res: Result<FuncIO>)
    ensures res.Err? <==> r.row + rot < 0 || ((col, r.row + rot) !in r.instanceIO.inputs &&
                                              (col, r.row + rot) !in r.instanceIO.outputs)
  {
    var row := ResolveRotation(r, rot);
    if row.Err? then Err(row.error)
    else Resolve(r, r.instanceIO, col, row.value, None, "Instance")
  }

  /** `resolve_challenge`: challenges are arguments after all advice and instance inputs. */
  function ResolveChallenge(r: Row, index: nat, phase: nat): (res: FuncIO)
    ensures res.Challenge? && res.index == index && res.phase == phase
    ensures res.chArg == InputsCount(r.adviceIO) + InputsCount(r.instanceIO) + index
  {
    Challenge(index, phase, |r.adviceIO.inputs| + |r.instanceIO.inputs| + index)
  }

  /**
   * Instance arguments and fields take the first numbers and advice ones the
   * numbers after them, so the two never share an argument or field number.
   */
  lemma ArgumentNumbering(r: Row, col: nat, rot: int, col': nat, rot': int)
    requires ResolveInstanceQuery(r, col, rot).Ok? && ResolveAdviceQuery(r, col', rot').Ok?
    ensures var i := ResolveInstanceQuery(r, col, rot).value;
      (i.Arg? ==> i.argNo < InputsCount(r.instanceIO)) && (i.Field? ==> i.fieldId < OutputsCount(r.instanceIO))
    ensures var a := ResolveAdviceQuery(r, col', rot').value;
      (a.Arg? ==> InputsCount(r.instanceIO) <= a.argNo < InputsCount(r.instanceIO) + InputsCount(r.adviceIO)) &&
      (a.Field? ==> OutputsCount(r.instanceIO) <= a.fieldId < OutputsCount(r.instanceIO) + OutputsCount(r.adviceIO))
    ensures ResolveInstanceQuery(r, col, rot).value != ResolveAdviceQuery(r, col', rot').value
  {
    InstanceNumbering(r, col, rot);
    AdviceNumbering(r, col', rot');
  }

  /** An instance cell resolves to an argument or field numbered within the instance IO. */
  lemma InstanceNumbering(r: Row, col: nat, rot: int)
    requires ResolveInstanceQuery(r, col, rot).Ok?
    ensures var i := ResolveInstanceQuery(r, col, rot).value;
      (i.Arg? || i.Field?) &&
      (i.Arg? ==> i.argNo < InputsCount(r.instanceIO)) && (i.Field? ==> i.fieldId < OutputsCount(r.instanceIO))
  {
    var i := ResolveInstanceQuery(r, col, rot).value;
    assert i == Resolve(r, r.instanceIO, col, r.row + rot, None, "Instance").value;
  }

  /** An advice cell resolves past the instance numbering, or to an absolute advice cell. */
  lemma AdviceNumbering(r: Row, col: nat, rot: int)
    requires ResolveAdviceQuery(r, col, rot).Ok?
    ensures var a := ResolveAdviceQuery(r, col, rot).value;
      (a.Arg? ==> InputsCount(r.instanceIO) <= a.argNo < InputsCount(r.instanceIO) + InputsCount(r.adviceIO)) &&
      (a.Field? ==> OutputsCount(r.instanceIO) <= a.fieldId < OutputsCount(r.instanceIO) + OutputsCount(r.adviceIO))
  {
    var row := r.row + rot;
    var resolved := Resolve(r, r.adviceIO, col, row, Some(Advice(col, row)), "Advice").value;
    assert ResolveAdviceQuery(r, col, rot).value == StepAdviceIO(r, resolved);
  }

  /** A cell that is an input only resolves to its argument number in every priority. */
  lemma PriorityOnlyMattersForShared(r: Row, io: CircuitIO, col: nat, row: nat, fallback: Option<FuncIO>, kind: string)
    requires (col, row) !in io.inputs || (col, row) !in io.outputs
    ensures Resolve(PrioritizeInputs(r), io, col, row, fallback, kind) ==
            Resolve(PrioritizeOutputs(r), io, col, row, fallback, kind)
  {
  }

  lemma ResolveExample()
    ensures var io := CircuitIO([(0, 1)], [(0, 1), (2, 3)]);
      var r := NewRow(1, io, Empty());
      Resolve(r, io, 0, 1, None, "Advice") == Ok(Field(0)) &&
      Resolve(PrioritizeInputs(r), io, 0, 1, None, "Advice") == Ok(Arg(0)) &&
      Resolve(r, io, 2, 3, None, "Advice") == Ok(Field(1)) &&
      ResolveRotation(r, -2) == Err("Row underflow")
  {
    var io := CircuitIO([(0, 1)], [(0, 1), (2, 3)]);
    assert io.outputs[1] == (2, 3) && io.outputs[0] != (2, 3);
    assert (2, 3) !in io.inputs;
  }
}
