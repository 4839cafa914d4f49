/** Columns of a PLONK table: an index and a column type. */
module Columns {
  datatype ColumnKind = Fixed | Advice | Instance

  datatype Column = Column(index: nat, kind: ColumnKind)
}
