/**
 * Vocabulary shared by the IR: the inputs and outputs of a generated function
 * (`FuncIO`: argument and field numbers, advice cells that are not part of the
 * IO, temporaries and challenges) and the comparison operators of constraints.
 */
module Func {
  datatype FuncIO =
    | Arg(argNo: nat)
    | Field(fieldId: nat)
    | Advice(col: nat, row: nat)
    | Temp(tcol: nat, trow: nat)
    | Challenge(index: nat, phase: nat, chArg: nat)

  datatype CmpOp = Eq | Lt | Le | Gt | Ge | Ne

  /** The comparison on (reduced) field values, ordered as natural numbers. */
  predicate CmpHolds(op: CmpOp, a: nat, b: nat)
  {
    match op
    case Eq => a == b
    case Lt => a < b
    case Le => a <= b
    case Gt => a > b
    case Ge => a >= b
    case Ne => a != b
  }

  /** The operator canonicalisation puts in place of a negated comparison. */
  function Complement(op: CmpOp): (r: CmpOp)
    ensures forall a: nat, b: nat :: CmpHolds(r, a, b) <==> !CmpHolds(op, a, b)
  {
    match op
    case Eq => Ne
    case Lt => Ge
    case Le => Gt
    case Gt => Le
    case Ge => Lt
    case Ne => Eq
  }

  lemma ComplementInvolutive(op: CmpOp)
    ensures Complement(Complement(op)) == op
  {
  }
}
