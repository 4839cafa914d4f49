# A Dafny model of the halo2 frontend and the Picus crate of llzk-rs

llzk-rs translates halo2 circuits into an intermediate representation. It
simplifies that representation and emits it either as LLZK (an MLIR dialect)
or as Picus programs. The `llzk` crates are foreign-function wrappers over a
native MLIR library. This project models the Rust logic around them:

- **Arithmetic IR.** Field constants and their `%`, `%=` and `-`, constant
  folding of `IRAexpr` (proved to preserve the value in the field),
  `try_map_io`, and symbolic equivalence (`aexpr.dfy`).
- **Boolean IR.** Atoms, DNF, the `&`/`|`/`!` operators, `map`/`try_map`,
  canonicalisation and constant folding (both proved to preserve meaning),
  equality and equivalence (`bexpr.dfy`, `canon.dfy`, `func.dfy`).
- **Statements.** The flattening iterator, `map`/`try_map`, equality and
  equivalence (`stmt.dfy`).
- **Synthesis bookkeeping.**
  - The equality-constraint graph (`eqgraph.dfy`).
  - Region data, the range and set trackers and the region-name state
    machine (`regiondata.dfy`, `trackers.dfy`, `regionname.dfy`).
  - Fixed and table data (`fixed.dfy`, `table.dfy`).
  - Circuit IO (`circuitio.dfy`).
  - The group builder and group-tree flattening (`groups.dfy`).
  - Row and cell resolution (`row.dfy`) and gate scopes, pattern dispatch and
    query ordering (`gates.dfy`).
  - Temporaries (`temps.dfy`).
- **Code generation strategy.** Grouping by key, equivalence classes and
  leaders, fresh group names, renaming and retaining (`strats.dfy`). The
  disjoint-set structure it uses is modelled by its behaviour
  (`disjoint.dfy`). The callsite validation it relies on is in `irgroups.dfy`.
- **Picus.** Identifiers and the variable table (`vars.dfy`), and the
  merging of programs with renaming of colliding modules (`program.dfy`).
- **Shared pieces.** `names.dfy` renders `usize` values in decimal and finds
  the first free `name{k}`. `wrappers.dfy` has `Option` and `Result`.
  `columns.dfy` has column kinds.

Code that works by changing state is modelled as classes with `modifies`
frames whose methods are proved against specification functions. Examples
are the region data, trackers, region names, fixed data, the constraint
graph, the group builder, the variable table, Picus programs and the
temporaries generator. Loops are kept as `while` loops with invariants. Pure
code is modelled as datatypes, functions and lemmas.

## Model

| member | source | states |
|---|---|---|
| AExpr.Rem | frontends/halo2/src/ir/expr/aexpr.rs:80-89 | `a % m` is `a` below `m` and otherwise the remainder; either way it equals `a mod m` and is below `m` |
| AExpr.RemAssign | frontends/halo2/src/ir/expr/aexpr.rs:91-97 | `%=` reduces exactly when `a != m` (strictly greater under the guard), and leaves `m` itself unreduced |
| AExpr.RemAssignKeepsModulus | frontends/halo2/src/ir/expr/aexpr.rs:91-97 | as written, `m %= m` stays `m` although `m mod m` is 0 |
| AExpr.RemAssignReduced | frontends/halo2/src/ir/expr/aexpr.rs:91-97 | the corrected `%=` always yields `a mod m` below `m` |
| AExpr.Sub | frontends/halo2/src/ir/expr/aexpr.rs:99-109 | subtraction is `None` exactly when the left operand is smaller, otherwise the difference |
| AExpr.ConstValue | frontends/halo2/src/ir/expr/aexpr.rs:194-199 | a value exactly for constants, and that value is the constant |
| AExpr.Fold | frontends/halo2/src/ir/expr/aexpr.rs:202-263 | after folding, with either `%=`, no constant exceeds `p`; with the intended `%=` every constant lies in `[0, p)` |
| AExpr.ConstantFold | frontends/halo2/src/ir/expr/aexpr.rs:202-263 | folding with the intended `%=` leaves every constant in `[0, p)` |
| AExpr.ConstantFoldAsWritten | frontends/halo2/src/ir/expr/aexpr.rs:202-263 | folding with `%=` as written leaves every constant at most `p`, so a constant `p` can survive |
| AExpr.Eval | frontends/halo2/src/ir/expr/aexpr.rs:202-263 | the value of an expression in the field of size `p`, below `p` (the reference meaning folding must keep) |
| AExpr.FoldPreservesEval | frontends/halo2/src/ir/expr/aexpr.rs:202-263 | folding, with `%=` as written or as intended, never changes the value of an expression in the field |
| AExpr.LeafAsWrittenEval | frontends/halo2/src/ir/expr/aexpr.rs:91-97 | the as-written `%=` keeps a constant's residue modulo `p`, for the constant `p` too |
| AExpr.FoldNegatedEval | frontends/halo2/src/ir/expr/aexpr.rs:207-212 | the negation rule, applied to a folded operand, gives the field negation of its value |
| AExpr.FoldSumEval | frontends/halo2/src/ir/expr/aexpr.rs:214-229 | the sum rules (constants add mod p, a zero side collapses), applied to folded operands, give the field sum of their values |
| AExpr.FoldProductEval | frontends/halo2/src/ir/expr/aexpr.rs:231-261 | the product rules (multiply mod p, unit, zero, minus one), applied to folded operands, give the field product of their values |
| AExpr.ConstantFoldConstant | frontends/halo2/src/ir/expr/aexpr.rs:204 | a constant folds to itself reduced modulo `p`; with `%=` as written the constant `p` stays `p` |
| AExpr.ConstantFoldExamples | frontends/halo2/src/ir/expr/aexpr.rs:358-372 | for `p = 7`, 5 stays 5 and 8 becomes 1 |
| AExpr.ConstantFoldSumOfConstants | frontends/halo2/src/ir/expr/aexpr.rs:219-221 | two constants fold to `(a + b) mod p` |
| AExpr.ConstantFoldProductOfConstants | frontends/halo2/src/ir/expr/aexpr.rs:236-238 | two constants fold to `(a * b) mod p` |
| AExpr.ConstantFoldNegatedConstant | frontends/halo2/src/ir/expr/aexpr.rs:207-212 | a negated constant `c` folds to `(p - c mod p) mod p` |
| AExpr.ConstantFoldSumWithZero | frontends/halo2/src/ir/expr/aexpr.rs:222-227 | a sum with a side that folds to zero folds to the other side, either way round |
| AExpr.ConstantFoldProductRules | frontends/halo2/src/ir/expr/aexpr.rs:239-259 | a side that folds to 1 gives the other side, 0 gives 0, `p - 1` gives the negation of the other side |
| AExpr.TryMapIoSucceeds | frontends/halo2/src/ir/expr/aexpr.rs:267-281 | `try_map_io` succeeds exactly when `f` succeeds on every IO leaf, and then every IO leaf is replaced by its image and nothing else changes |
| AExpr.TryMapIoKeepsShape | frontends/halo2/src/ir/expr/aexpr.rs:267-281 | even a failing `try_map_io` keeps constructors, constants and challenges |
| AExpr.SymbolicEqvWithEquality | frontends/halo2/src/ir/expr/aexpr.rs:297-315 | with equality on IO, equivalence is structural equality |
| AExpr.SymbolicEqvShape | frontends/halo2/src/ir/expr/aexpr.rs:297-315 | equivalent expressions have the same shape and constants, and IO leaves related pairwise |
| AExpr.SymbolicEqvSymmetric | frontends/halo2/src/ir/expr/aexpr.rs:297-315 | equivalence is symmetric when the IO relation is |
| AExpr.SymbolicEqvTransitive | frontends/halo2/src/ir/expr/aexpr.rs:297-315 | equivalence is transitive when the IO relation is |
| BExpr.FromBool | frontends/halo2-ir/src/expr/bexpr.rs:505-510 | `bool` into a formula gives the literal of that value |
| BExpr.ConstValue | frontends/halo2-ir/src/expr/bexpr.rs:496-502 | a value exactly for `True` and `False`, `true` exactly for `True` |
| BExpr.AtomIsDnf | frontends/halo2-ir/src/expr/bexpr.rs:43-60 | atoms are in DNF; `And`/`Or`/`Implies`/`Iff` are never atoms; a negation is an atom exactly when its operand is |
| BExpr.IsDnfAccepts | frontends/halo2-ir/src/expr/bexpr.rs:705-732 | the DNF test cases that are accepted |
| BExpr.IsDnfRejects | frontends/halo2-ir/src/expr/bexpr.rs:705-732 | the test cases `!(A|B)`, `!(A&B)|C` and `A|(B&(C|D))` are rejected |
| BExpr.BitAnd | frontends/halo2-ir/src/expr/bexpr.rs:546-565 | `a & b` is an `And` of the conjuncts of `a` followed by those of `b` |
| BExpr.BitOr | frontends/halo2-ir/src/expr/bexpr.rs:546-578 | `a | b` is an `Or` of the disjuncts of `a` followed by those of `b` |
| BExpr.Negate | frontends/halo2-ir/src/expr/bexpr.rs:580-589 | `!` removes one negation if present and otherwise adds one |
| BExpr.OperatorsMeaning | frontends/halo2-ir/src/expr/bexpr.rs:546-589 | `&`, `|` and `!` mean conjunction, disjunction and negation under every interpretation |
| BExpr.MapIdentity | frontends/halo2-ir/src/expr/bexpr.rs:119-133 | mapping the identity changes nothing |
| BExpr.MapCompose | frontends/halo2-ir/src/expr/bexpr.rs:119-133 | mapping twice is mapping the composition, so the tree shape is kept |
| BExpr.MapMeaning | frontends/halo2-ir/src/expr/bexpr.rs:119-133 | a mapped formula holds exactly when the original holds with its leaves read through `f` |
| BExpr.CollectResults | frontends/halo2-ir/src/expr/bexpr.rs:155-182 | collecting results is `Ok` exactly when all are, with the values in order |
| BExpr.TryMapIsMap | frontends/halo2-ir/src/expr/bexpr.rs:155-182 | `try_map` succeeds exactly when `f` succeeds on every leaf, and then equals `map` |
| BExpr.CanonCmp | frontends/halo2-ir/src/expr/bexpr.rs:315-319 | a comparison stays a comparison after `canonicalize_constraint` is applied |
| BExpr.CanonicalizeNegatedCmp | frontends/halo2-ir/src/expr/bexpr.rs:330-352 | a negated comparison becomes the comparison with the complementary operator |
| BExpr.CanonicalizeNoNegatedAtoms | frontends/halo2-ir/src/expr/bexpr.rs:311-359 | after canonicalisation no negation sits over a literal or a comparison |
| BExpr.CanonCmpSound | frontends/halo2-ir/src/expr/bexpr.rs:315-319 | rewriting a comparison keeps whether it holds |
| BExpr.CanonicalizePreservesHolds | frontends/halo2-ir/src/expr/bexpr.rs:311-359 | canonicalisation never changes whether a formula holds |
| BExpr.DropLiteral | frontends/halo2-ir/src/expr/bexpr.rs:419-446 | `retain` keeps no literal `b` and never grows the list |
| BExpr.DropLiteralMembers | frontends/halo2-ir/src/expr/bexpr.rs:419-446 | it keeps exactly the formulas that are not the literal `b` |
| BExpr.DropTrueAll | frontends/halo2-ir/src/expr/bexpr.rs:401-429 | dropping literal trues keeps whether all of a list hold |
| BExpr.DropFalseAny | frontends/halo2-ir/src/expr/bexpr.rs:430-453 | dropping literal falses keeps whether some of a list holds |
| BExpr.FoldAndHolds | frontends/halo2-ir/src/expr/bexpr.rs:401-429 | the folded conjunction of folded operands holds exactly when all of them hold |
| BExpr.FoldOrHolds | frontends/halo2-ir/src/expr/bexpr.rs:430-453 | the folded disjunction of folded operands holds exactly when some of them holds |
| BExpr.ConstantFoldAsWrittenNegation | frontends/halo2-ir/src/expr/bexpr.rs:454-460 | as written `!true` folds to `true` and `!false` to `false`, which changes the meaning; the corrected fold gives `false` and `true` |
| BExpr.ConstantFoldPreservesHolds | frontends/halo2-ir/src/expr/bexpr.rs:376-479 | the corrected fold never changes whether a formula holds |
| BExpr.ConstantFoldAnd | frontends/halo2-ir/src/expr/bexpr.rs:401-429 | an `And` with a literal false folds to `False`; literal trues are dropped; an empty result is `True` |
| BExpr.ConstantFoldOr | frontends/halo2-ir/src/expr/bexpr.rs:430-453 | an `Or` with a literal true folds to `True`; literal falses are dropped; an empty result is `False` |
| BExpr.ConstantFoldCmpConstants | frontends/halo2-ir/src/expr/bexpr.rs:385-399 | a comparison of two constants folds to the literal result on their residues; as written, on the constants after the as-written `%=` |
| BExpr.ConstantFoldAsWrittenModulus | frontends/halo2-ir/src/expr/bexpr.rs:385-399 | as written, `p == 0` on constants folds to `false` although it holds in the field; the corrected fold gives `true` |
| BExpr.ConstantFoldImpliesIff | frontends/halo2-ir/src/expr/bexpr.rs:462-475 | with literal sides, `Implies` folds to `!a | b` and `Iff` to `a == b` |
| BExpr.EqAsWrittenMeaning | frontends/halo2-ir/src/expr/bexpr.rs:623-642 | as written, equality is identity on formulas without a `False`, and false otherwise |
| BExpr.EqAsWrittenNotReflexive | frontends/halo2-ir/src/expr/bexpr.rs:633 | `False == False` is false as written, so equality is not reflexive |
| BExpr.EqualIsIdentity | frontends/halo2-ir/src/expr/bexpr.rs:623-642 | the corrected equality is exactly identity |
| BExpr.SymbolicEqvWithEquality | frontends/halo2-ir/src/expr/bexpr.rs:512-544 | with identity on IO, equivalence is identity on formulas without literals, and formulas with literals are never equivalent |
| BExpr.SymbolicEqvSymmetric | frontends/halo2-ir/src/expr/bexpr.rs:512-544 | equivalence is symmetric when the relation on leaves is |
| Func.Complement | frontends/halo2-ir/src/expr/bexpr.rs:330-356 | the complementary operator holds exactly when the original does not |
| Func.ComplementInvolutive | frontends/halo2-ir/src/expr/bexpr.rs:330-356 | complementing twice gives the operator back |
| Canon.CanonicalizeConstraint | frontends/halo2/src/ir/canon.rs:5-35 | a rewrite always yields an `Eq` constraint |
| Canon.CanonicalizeConstraintCases | frontends/halo2/src/ir/canon.rs:10-34 | a rewrite happens exactly for `(= (+ X (- Y)) 0)` and `(= (* 1 (+ X (- Y))) 0)`, and gives `(= X Y)`; any other shape, operator or right side gives `None` |
| Canon.DifferenceEval | frontends/halo2/src/ir/canon.rs:11-17 | `X + (-Y)` is 0 in the field exactly when `X` and `Y` have the same value |
| Canon.CanonicalizeConstraintSound | frontends/halo2/src/ir/canon.rs:5-35 | a rewritten constraint holds exactly when the original does |
| CircuitIO.Empty | frontends/halo2/src/io.rs:26-31 | no inputs and no outputs |
| CircuitIO.InputsCount | frontends/halo2/src/io.rs:49-52 | the number of inputs is the length of the input list |
| CircuitIO.OutputsCount | frontends/halo2/src/io.rs:59-62 | the number of outputs is the length of the output list |
| CircuitIO.ColumnCells | frontends/halo2/src/io.rs:64-71 | one column's cells, one per row in the given order |
| CircuitIO.MapCellsConcat | frontends/halo2/src/io.rs:64-71 | the cells are listed column after column |
| CircuitIO.MapCellsMembers | frontends/halo2/src/io.rs:64-71 | a cell is listed exactly when its row is listed for its column |
| CircuitIO.MapCellsExample | frontends/halo2/src/io.rs:64-71 | `[(0,[2,1]),(3,[5])]` gives `(0,2),(0,1),(3,5)` in that order |
| CircuitIO.Validated | frontends/halo2/src/io.rs:100-108 | `Ok` of the IO itself exactly when no cell is both input and output |
| CircuitIO.New | frontends/halo2/src/io.rs:77-82 | a successful `new` holds the listed cells |
| CircuitIO.NewFailsOnSharedCell | frontends/halo2/src/io.rs:77-108 | `new` fails exactly when some row of some column is both an input and an output |
| CircuitIO.OneSidedAlwaysValid | frontends/halo2/src/io.rs:85-98 | `from_inputs` and `from_outputs` never fail and leave the other side empty |
| Stmt.FlattenListConcat | frontends/halo2/src/ir/stmt.rs:264-279 | flattening a list of statements flattens them one after the other |
| Stmt.FlattenHasNoSeq | frontends/halo2/src/ir/stmt.rs:264-279 | iteration never yields a `Seq` node |
| Stmt.FlattenExamples | frontends/halo2/src/ir/stmt.rs:46-52 | a leaf flattens to itself, `Seq([a])` to `[a]`, `Seq([a, Seq([b, c])])` to `[a, b, c]`; the empty `Seq` is empty and a `Seq` holding it is not |
| Stmt.IsEmptyFlatten | frontends/halo2/src/ir/stmt.rs:125-130 | an empty statement yields nothing; a non-`Seq` statement is never empty and yields exactly itself |
| Stmt.StmtIter.constructor | frontends/halo2/src/ir/stmt.rs:190-197 | a new iterator has the whole flattening still to yield |
| Stmt.StmtIter.Next | frontends/halo2/src/ir/stmt.rs:264-279 | `next` pops and expands `Seq` nodes (children reversed on the stack) until it yields the next non-`Seq` statement of the flattening, or `None` exactly when nothing is left |
| Stmt.Collect | frontends/halo2/src/ir/stmt.rs:290-317 | draining the iterator yields exactly the flattening, left to right |
| Stmt.MapKeepsStructure | frontends/halo2/src/ir/stmt.rs:133-143 | `map` keeps every node's kind, the callee and outputs of calls, emptiness and the `Seq` structure |
| Stmt.FlattenMap | frontends/halo2/src/ir/stmt.rs:133-143 | mapping commutes with flattening |
| Stmt.TryMapIsMap | frontends/halo2/src/ir/stmt.rs:157-172 | `try_map` succeeds exactly when `f` succeeds on every expression, and then equals `map` |
| Stmt.EqAsWrittenTruncates | frontends/halo2/src/ir/stmt.rs:53-63 | as written, `zip` stops at the shorter flattening: `Seq([a])` equals `Seq([a, b])` and the empty `Seq` equals anything |
| Stmt.EqualMeansSameFlattening | frontends/halo2/src/ir/stmt.rs:46-63 | the corrected equality holds exactly when the flattenings are equal, so `a == Seq([a])` |
| Stmt.CommentsEquivalent | frontends/halo2/src/ir/stmt.rs:239-257 | any two comments are equivalent; as written a one-comment `Seq` is equivalent to a two-comment one, and the corrected equivalence rejects that |
| Stmt.EquivalentWithIdentity | frontends/halo2/src/ir/stmt.rs:239-257 | with identity as the relation on statements, the corrected equivalence is the corrected equality |
| EqGraph.Position | frontends/halo2/src/synthesis/constraint.rs:21 | the first index holding a value, `None` exactly when it is absent |
| EqGraph.ToStoRo | frontends/halo2/src/synthesis/constraint.rs:36-45 | `None` exactly for a constant never stored; otherwise a storage form standing for the same node |
| EqGraph.ToStoRoInjective | frontends/halo2/src/synthesis/constraint.rs:36-45 | over duplicate-free storage, two nodes have the same storage form exactly when they are equal |
| EqGraph.EqConstraintGraph.constructor | frontends/halo2/src/synthesis/constraint.rs:181-189 | an empty graph with empty storage |
| EqGraph.EqConstraintGraph.ToSto | frontends/halo2/src/synthesis/constraint.rs:17-34 | a stored constant reuses its first index, a new one is appended at the end; cells leave storage alone; storage stays duplicate-free |
| EqGraph.EqConstraintGraph.Add | frontends/halo2/src/synthesis/constraint.rs:133-143 | a self-loop is an error (the panic); otherwise the edge is found afterwards, both endpoints become vertices, and a new edge is inserted exactly once in the given direction |
| EqGraph.ContainsSymmetric | frontends/halo2/src/synthesis/constraint.rs:146-162 | lookup finds an edge stored in either direction |
| EqGraph.ContainsNeedsStoredConstant | frontends/halo2/src/synthesis/constraint.rs:146-162 | an edge to a constant that was never stored is never found |
| RegionData.LastPosition | frontends/halo2/src/synthesis/regions/data.rs:117-128 | the last index holding the name, `None` exactly when it is absent |
| RegionData.RemoveAt | frontends/halo2/src/synthesis/regions/data.rs:117-128 | removing index `i` drops that element and keeps the others in order |
| RegionData.RegionDataImpl.constructor | frontends/halo2/src/synthesis/regions/data.rs:28-41 | a new region has its name and index, no selectors, columns or namespaces, and rows `(start, start)` when the start is known |
| RegionData.RegionDataImpl.Start | frontends/halo2/src/synthesis/regions/data.rs:56-58 | the start is the first row of the extent, when there is one |
| RegionData.RegionDataImpl.Rows | frontends/halo2/src/synthesis/regions/data.rs:105-107 | `start..end+1`, or `0..0` without an extent; a row is in it exactly when the extent covers it |
| RegionData.RegionDataImpl.Relativize | frontends/halo2/src/synthesis/regions/data.rs:210-217 | a value exactly for rows inside the region, and then `row - start` |
| RegionData.RegionDataImpl.SelectorsEnabledForRow | frontends/halo2/src/synthesis/regions/data.rs:72-77 | the row's enabled selectors, none for a row never touched |
| RegionData.RegionDataImpl.ColumnsOfKind | frontends/halo2/src/synthesis/regions/data.rs:130-140 | exactly the recorded columns of that type |
| RegionData.RegionDataImpl.UpdateExtent | frontends/halo2/src/synthesis/regions/data.rs:79-96 | records the column and sets the extent to `(min(start,row), max(end,row))`, or `(row,row)` when there was none; rows covered before stay covered; nothing else changes |
| RegionData.RegionDataImpl.EnableSelector | frontends/halo2/src/synthesis/regions/data.rs:98-103 | adds the selector to that row's set and changes no other row |
| RegionData.RegionDataImpl.TakeIndex | frontends/halo2/src/synthesis/regions/data.rs:68-70 | returns the index and leaves none behind |
| RegionData.RegionDataImpl.PushNamespace | frontends/halo2/src/synthesis/regions/data.rs:109-115 | appends the namespace |
| RegionData.RegionDataImpl.PopNamespace | frontends/halo2/src/synthesis/regions/data.rs:117-128 | a given name removes its last occurrence (nothing when absent); no name pops the top |
| RegionData.PushPopNamespace | frontends/halo2/src/synthesis/regions/data.rs:109-128 | pushing a name and then popping it, by name or as the top, restores the stack |
| RegionData.PopNamespaceRemovesLast | frontends/halo2/src/synthesis/regions/data.rs:117-128 | popping by name keeps every other element in order, and earlier occurrences of the name stay |
| Trackers.RangeAfter | frontends/halo2/src/support/regions/trackers.rs:33-39 | the range after an update holds the index and the old range |
| Trackers.RangeTracker.constructor | frontends/halo2/src/support/regions/trackers.rs:27-30 | a new tracker has no range |
| Trackers.RangeTracker.Update | frontends/halo2/src/support/regions/trackers.rs:33-39 | widens the range to include the index; what was contained stays contained |
| Trackers.RangeTracker.Indices | frontends/halo2/src/support/regions/trackers.rs:55-63 | every index of the range, consecutive and increasing; nothing before any update |
| Trackers.TrackRange | frontends/halo2/src/support/regions/trackers.rs:133-145 | updating with `xs` yields `min(xs)..=max(xs)`, or nothing for no updates |
| Trackers.SetTracker.constructor | frontends/halo2/src/support/regions/trackers.rs:66-69 | a new tracker is empty |
| Trackers.SetTracker.BinarySearch | frontends/halo2/src/support/regions/trackers.rs:72-76 | the position of a present index, or for an absent one the position that keeps the list sorted |
| Trackers.SetTracker.Update | frontends/halo2/src/support/regions/trackers.rs:72-76 | inserts the index in sorted position exactly when it is new; the list stays strictly sorted |
| Trackers.SetTracker.Indices | frontends/halo2/src/support/regions/trackers.rs:88-94 | the recorded indices, strictly increasing |
| Trackers.StrictlySortedUnique | frontends/halo2/src/support/regions/trackers.rs:72-76 | a strictly sorted list is determined by its elements |
| Trackers.TrackSet | frontends/halo2/src/support/regions/trackers.rs:148-159 | updating with `xs` yields the elements of `xs` sorted and without repeats |
| Trackers.SetTrackerExamples | frontends/halo2/src/support/regions/trackers.rs:148-159 | `[2,1,3]` gives `[1,2,3]` and `[1,1,2]` gives `[1,2]` |
| Trackers.RangeTrackerExamples | frontends/halo2/src/support/regions/trackers.rs:133-145 | `[2,1,3]` and `[1,3]` give `1..=3`, `[1,1]` gives `1..=1` |
| RegionName.AutoStep | frontends/halo2/src/support/regions/name.rs:79-89 | `auto` names an unassigned region and changes nothing otherwise |
| RegionName.AssignStep | frontends/halo2/src/support/regions/name.rs:91-105 | a manual name replaces an unassigned or automatic one; a second manual name is an error |
| RegionName.AsStr | frontends/halo2/src/support/regions/name.rs:25-35 | the name when there is one, `"<Unassigned>"` when unassigned; consistent states never fail |
| RegionName.StepsKeepConsistent | frontends/halo2/src/support/regions/name.rs:79-105 | both transitions keep status and name consistent and leave a value |
| RegionName.DefaultIsUnassigned | frontends/halo2/src/support/regions/name.rs:13-17 | a fresh name is unassigned, has no value and reads `"<Unassigned>"` |
| RegionName.AutoIdempotent | frontends/halo2/src/support/regions/name.rs:79-89 | only the first `auto` counts |
| RegionName.AssignOverrides | frontends/halo2/src/support/regions/name.rs:148-166 | a manual name overrides unassigned and automatic names, and `auto` afterwards does nothing |
| RegionName.NameExamples | frontends/halo2/src/support/regions/name.rs:118-174 | the source's tests: `auto` names, a second `auto` keeps the first, `auto` leaves a manual name, a second manual name fails |
| RegionName.RegionName.constructor | frontends/halo2/src/support/regions/name.rs:19-23 | a new name is the unassigned default |
| RegionName.RegionName.AutoName | frontends/halo2/src/support/regions/name.rs:79-89 | the new state is `auto` applied to the old one |
| RegionName.RegionName.AssignFromRef | frontends/halo2/src/support/regions/name.rs:96-105 | the new state is the manual assignment; the double-assignment panic is an error that changes nothing |
| RegionName.RegionName.AsRef | frontends/halo2/src/support/regions/name.rs:25-35 | the name, or `"<Unassigned>"` without one; never the inconsistency panic |
| Fixed.Steal | frontends/halo2/src/synthesis/regions/fixed.rs:113-117 | a field element exactly for known values |
| Fixed.LatestCovering | frontends/halo2/src/synthesis/regions/fixed.rs:66-74 | `None` exactly when no fill starts at or before the row; otherwise the value of the latest such fill |
| Fixed.LatestCoveringIndex | frontends/halo2/src/synthesis/regions/fixed.rs:66-74 | the search from the back stops at a fill starting at or before the row, and every later fill starts after it; none exactly when no fill covers the row |
| Fixed.Resolve | frontends/halo2/src/synthesis/regions/fixed.rs:76-88 | the explicit value first, then the latest covering blanket fill, else zero |
| Fixed.NewestFillWins | frontends/halo2/src/synthesis/regions/fixed.rs:41-47 | after appending a fill, it decides every later row that has no explicit value |
| Fixed.Restrict | frontends/halo2/src/synthesis/regions/fixed.rs:99-106 | exactly the selected columns, with their data unchanged |
| Fixed.SubsetResolvesAlike | frontends/halo2/src/synthesis/regions/fixed.rs:93-109 | a selected column resolves in the subset as in the original |
| Fixed.Flatten | frontends/halo2/src/synthesis/regions/fixed.rs:27-39 | the explicit cells keyed by `(column, row)`, exactly those present and with their values |
| Fixed.FixedData.constructor | frontends/halo2/src/synthesis/regions/fixed.rs:11-21 | the default has no data |
| Fixed.FixedData.BlanketFill | frontends/halo2/src/synthesis/regions/fixed.rs:41-47 | records the column and appends the fill last; every later row of that column without an explicit value now resolves to it; other columns resolve as before |
| Fixed.FixedData.AssignFixed | frontends/halo2/src/synthesis/regions/fixed.rs:49-64 | records the column and overwrites the cell; that cell resolves to the new value and every other cell as before |
| Fixed.FixedData.Subset | frontends/halo2/src/synthesis/regions/fixed.rs:93-109 | fails exactly when a requested column has no data; otherwise a new object with just the requested columns, resolving them alike |
| Fixed.FixedData.Take | frontends/halo2/src/synthesis/regions/fixed.rs:27-39 | the explicit cells by `(column, row)` and the blanket fills |
| Table.FillCompare | frontends/halo2/src/synthesis/regions/table.rs:17-44 | `Fill` keys are equal and ordered exactly as their rows |
| Table.Insert | frontends/halo2/src/synthesis/regions/table.rs:68-74 | inserting keeps the table sorted and adds the row |
| Table.InsertEntries | frontends/halo2/src/synthesis/regions/table.rs:68-74 | a new row gets the entry; an existing row keeps its old key with the new value; other entries stay |
| Table.SameRowKeepsKind | frontends/halo2/src/synthesis/regions/table.rs:26-44 | a blanket fill inserted on an explicit cell's row overwrites the value but keeps the `Single` key |
| Table.SortedHead | frontends/halo2/src/synthesis/regions/table.rs:34-44 | in a sorted table the first row is below all other rows |
| Table.SingleAt | frontends/halo2/src/synthesis/regions/table.rs:178-181 | the explicit value on a row, when there is one |
| Table.BlanketAt | frontends/halo2/src/synthesis/regions/table.rs:166-176 | `None` exactly when no blanket fill starts at or before the row |
| Table.BlanketAtHit | frontends/halo2/src/synthesis/regions/table.rs:166-176 | a blanket entry decides a row when no later blanket entry starts at or before it |
| Table.FillRange | frontends/halo2/src/synthesis/regions/table.rs:171-174 | writes the value into rows `from..to` and marks them covered; other rows unchanged |
| Table.BlanketPass | frontends/halo2/src/synthesis/regions/table.rs:165-176 | after the blanket pass, the covered rows are exactly those from the lowest start on, each holding the latest covering fill |
| Table.SinglePass | frontends/halo2/src/synthesis/regions/table.rs:177-181 | after the explicit pass, a row is covered exactly when it has a value, and holds the explicit value if it has one, else the blanket value |
| Table.AllCovered | frontends/halo2/src/synthesis/regions/table.rs:183-185 | true exactly when every row is covered |
| Table.FillTable | frontends/halo2/src/synthesis/regions/table.rs:158-188 | `Ok` exactly when every row up to the limit has a value, and then the dense column holds those values; a gap is an error |
| Table.ManyRowsDesc | frontends/halo2/src/synthesis/regions/table.rs:166-170 | the blanket starts, as `rev().filter(Many)` visits them |
| Table.BlanketRangesAsWritten | frontends/halo2/src/synthesis/regions/table.rs:165-176 | as written, each blanket range ends where the previous (higher) one began, however high that was |
| Table.BlanketRanges | frontends/halo2/src/synthesis/regions/table.rs:165-176 | the corrected ranges never end above `limit + 1` |
| Table.FillTableOutOfBounds | frontends/halo2/src/synthesis/regions/table.rs:165-176 | fills from rows 0 and 10 around an explicit row 3 give limit 3 and a 4-row column, and as written the pass writes rows `0..10` |
| Table.LastRowOfKind | frontends/halo2/src/synthesis/regions/table.rs:108-112 | the last key of a kind, above every other key of that kind in a sorted table |
| Table.TableLimit | frontends/halo2/src/synthesis/regions/table.rs:107-113 | a column's limit: its last explicit row, else its last blanket start; none only for an empty column |
| Table.FindUpperLimit | frontends/halo2/src/synthesis/regions/table.rs:104-118 | the largest column limit; an error when there are no columns or one is empty |
| Table.UpperLimitCoversSingles | frontends/halo2/src/synthesis/regions/table.rs:104-118 | the limit covers every explicit row of every column |
| Table.MissingOfMembers | frontends/halo2/src/synthesis/regions/table.rs:78-102 | the missing queries are exactly those whose column is absent |
| Table.FoldMatchesFilters | frontends/halo2/src/synthesis/regions/table.rs:89-101 | the fold accumulates the missing queries in order |
| Table.CheckColumns | frontends/halo2/src/synthesis/regions/table.rs:78-102 | `Contained` exactly when every queried column exists, otherwise the missing queries in order |
| Table.StealAll | frontends/halo2/src/synthesis/regions/table.rs:132-138 | the known values, or nothing when one is unknown |
| Table.TablesOf | frontends/halo2/src/synthesis/regions/table.rs:121-124 | the table of each queried column, in order |
| Table.FillAll | frontends/halo2/src/synthesis/regions/table.rs:128-141 | `Ok` exactly when every row of every table up to the limit is covered and known, and then the dense rows |
| Table.GetRows | frontends/halo2/src/synthesis/regions/table.rs:120-151 | `None` exactly when `check_columns` reports missing columns; otherwise the dense rows or an error for an empty column, a gap or an unknown value |
| Gates.EndRow | frontends/halo2/src/gates.rs:203-210 | `end - 1`, or 0 when `end` is 0 |
| Gates.EndRowIsLastRow | frontends/halo2/src/gates.rs:198-216 | in a non-empty scope the start and end rows are the first and last rows |
| Gates.RegionRow | frontends/halo2/src/gates.rs:110-126 | `Ok` exactly for rows in `[start, end)` |
| Gates.MatchThenRewrite | frontends/halo2/src/gates.rs:277-292 | a pattern's outcome: the match failure, else the rewrite's result or error |
| Gates.FirstRewritten | frontends/halo2/src/gates.rs:354-369 | the first pattern that rewrote, `None` when none did |
| Gates.Errors | frontends/halo2/src/gates.rs:364-367 | empty exactly when no pattern failed |
| Gates.Dispatch | frontends/halo2/src/gates.rs:339-384 | the first rewrite wins; `NoMatch` exactly when every pattern did not match; otherwise an error joining every failure message, each followed by a newline |
| Gates.MatchAndRewrite | frontends/halo2/src/gates.rs:339-384 | trying the patterns in order, the loop returns the dispatch outcome |
| Gates.ErrorsStep | frontends/halo2/src/gates.rs:364-367 | a failing pattern appends its message to the collected errors; any other outcome leaves them as they are |
| Gates.TypeId | frontends/halo2/src/gates.rs:451-457 | advice, instance and fixed queries have type ids 0, 1, 2 |
| Gates.CompareIsLexicographic | frontends/halo2/src/gates.rs:459-508 | `a < b` exactly when the first differing component of `(type_id, column, rotation, phase)` is smaller |
| Gates.CompareTotal | frontends/halo2/src/gates.rs:495-508 | the order is equal exactly on equal queries and is antisymmetric |
| Gates.CompareTransitive | frontends/halo2/src/gates.rs:495-508 | the order is transitive |
| Groups.IsFixed | frontends/halo2/src/synthesis/groups.rs:80-85 | a cell is fixed exactly when it is an assigned cell of a fixed column |
| Groups.FromTuple | frontends/halo2/src/synthesis/groups.rs:70-77 | instance and advice columns give IO cells with that column and row; fixed columns give `None` |
| Groups.TreeName | frontends/halo2/src/synthesis/groups.rs:362-364 | the tree's name, `"<no name>"` without one |
| Groups.Name | frontends/halo2/src/synthesis/groups.rs:202-210 | `"Main"` for the top level, `"unnamed_group"` for a missing or empty name, else the name; never empty |
| Groups.HasChild | frontends/halo2/src/synthesis/groups.rs:198-200 | the first position of the child index, `None` exactly when it is not a child |
| Groups.FlattenTreeShape | frontends/halo2/src/synthesis/groups.rs:338-352 | flattening writes one group per node, children before their parent, and the tree's own group last |
| Groups.FlattenListShape | frontends/halo2/src/synthesis/groups.rs:338-352 | flattening children writes each child's block in order and returns indices inside the written block |
| Groups.FlattenedRootIsLast | frontends/halo2/src/synthesis/groups.rs:355-359 | the whole tree: the root is last with the root's kind, name and IO, and every child index points earlier |
| Groups.FlattenListSnoc | frontends/halo2/src/synthesis/groups.rs:338-352 | flattening one more child appends its block and its index, which the loop relies on |
| Groups.FlattenImpl | frontends/halo2/src/synthesis/groups.rs:338-352 | the vector after `flatten_impl` is the old vector followed by the tree's flattening from that offset |
| Groups.Flatten | frontends/halo2/src/synthesis/groups.rs:355-359 | `flatten` of a tree is its flattening from 0: one group per node, the root last, children earlier |
| Groups.TopLevelIndex | frontends/halo2/src/synthesis/groups.rs:251-256 | the last top-level group, `None` exactly when there is none |
| Groups.TopLevelIsRoot | frontends/halo2/src/synthesis/groups.rs:250-255 | flattening a top-level tree, `top_level` finds the root at the end |
| Groups.SetCurrent | frontends/halo2/src/synthesis/groups.rs:392-412 | replacing the current group keeps the stack height and everything under the top |
| Groups.PushStep | frontends/halo2/src/synthesis/groups.rs:420-427 | `push` puts a new group with that name and key on top and keeps the rest |
| Groups.PopStep | frontends/halo2/src/synthesis/groups.rs:432-436 | `pop` on an empty stack is an error (the panic); otherwise the top becomes the last child of the group below |
| Groups.AddInputStep | frontends/halo2/src/synthesis/groups.rs:441-447 | `add_input` ignores fixed cells and otherwise appends the cell to the current group's inputs |
| Groups.AddOutputStep | frontends/halo2/src/synthesis/groups.rs:451-456 | `add_output` ignores fixed cells and otherwise appends the cell to the current group's outputs |
| Groups.IntoRoot | frontends/halo2/src/synthesis/groups.rs:414-418 | the root exactly when no group is pending; an error (the panic) otherwise |
| Groups.StepsKeepBuilderValid | frontends/halo2/src/synthesis/groups.rs:312-336 | every builder step keeps the root the only top-level group |
| Groups.PushThenPop | frontends/halo2/src/synthesis/groups.rs:420-436 | a push followed by a pop succeeds and makes the new group the last child of the group that was current |
| Groups.RootIoOnFreshBuilder | frontends/halo2/src/synthesis/groups.rs:414-447 | on a fresh builder an added IO cell ends up in the root handed out |
| Groups.GroupBuilder.constructor | frontends/halo2/src/synthesis/groups.rs:382-390 | a new builder has a top-level root and no pending groups |
| Groups.GroupBuilder.Push | frontends/halo2/src/synthesis/groups.rs:420-427 | the new state is `push` applied to the old one |
| Groups.GroupBuilder.Pop | frontends/halo2/src/synthesis/groups.rs:432-436 | the new state is `pop` applied to the old one; an empty stack is an error that changes nothing |
| Groups.GroupBuilder.AddInput | frontends/halo2/src/synthesis/groups.rs:441-447 | the new state is `add_input` applied to the old one |
| Groups.GroupBuilder.AddOutput | frontends/halo2/src/synthesis/groups.rs:451-456 | the new state is `add_output` applied to the old one |
| Groups.GroupBuilder.AddRootInput | frontends/halo2/src/synthesis/groups.rs:459-464 | appends the IO cell to the current group's inputs, which is the root without pending groups |
| Groups.GroupBuilder.AddRootOutput | frontends/halo2/src/synthesis/groups.rs:467-472 | appends the IO cell to the current group's outputs, which is the root without pending groups |
| Vars.VarStrFrom | picus/src/vars.rs:16-25 | a string is accepted exactly when it is a non-empty run of `[A-Za-z0-9_]`, and is kept unchanged; any other string gives the error `String "s" is not a valid Picus identifier` |
| Vars.DropInvalid | picus/src/ident.rs:8-22 | drops exactly the leading characters outside the identifier alphabet; what is left is a suffix of the input that starts with an identifier character |
| Vars.SanitizeIsIdent | picus/src/ident.rs:8-22 | sanitising yields only identifier characters, is never longer than the input, and is empty exactly when the input is |
| Vars.SanitizeKeepsIdent | picus/src/ident.rs:8-22 | a string that is already made of identifier characters is left unchanged |
| Vars.SanitizedIsValid | picus/src/ident.rs:8-22 | the sanitised form of any non-empty text passes `VarStr::try_from` |
| Vars.SanitizeExamples | picus/src/ident.rs:8-22 | `:y` sanitises to `_y`; `a b` is rejected as a variable name |
| Vars.SuffixKeepsIdent | picus/src/vars.rs:197-201 | an identifier followed by a decimal counter is still a valid identifier |
| Vars.Filter | picus/src/vars.rs:93-120 | the names listed are exactly those of the keys satisfying the filter, all of them names in use |
| Vars.FiltersCover | picus/src/vars.rs:93-120 | when every key is an input, an output or a temporary, the three listings together are all the names in use |
| Vars.FreshNameUnique | picus/src/vars.rs:189-206 | the name picked for a new key (the seed, else the first free `seed2`, `seed3`, ...) is determined by the seed and the names in use |
| Vars.VarTable.constructor | picus/src/vars.rs:178-213 | a new table is empty |
| Vars.VarTable.Insert | picus/src/vars.rs:178-213 | a known key gets its cached name and the table is unchanged; a new key gets the fresh name derived from its seed and only that entry is added; names stay identifiers and stay pairwise distinct |
| Vars.VarTable.InsertWithValue | picus/src/vars.rs:122-125 | overwrites the key's name with the given identifier, like a map insert |
| Vars.VarTable.LookupKey | picus/src/vars.rs:89-91 | returns a key holding the name, and nothing exactly when no key holds it |
| Vars.VarTable.IsEmpty | picus/src/vars.rs:105-107 | true exactly when the table holds no key |
| IRGroups.ValidateCallsite | frontends/halo2/src/ir/groups.rs:311-354 | a call site validates exactly when its callee exists at its id, the callee's input and output counts match the call, and the output count matches the declared output variables; a missing callee gives `Callee with id N was not found` |
| IRGroups.CallsiteError | frontends/halo2/src/ir/groups.rs:361-363 | a call site contributes at most one error line, and none exactly when it validates |
| IRGroups.CallsiteErrorsCount | frontends/halo2/src/ir/groups.rs:357-380 | one error is reported per failing call site, and none exactly when every call site validates |
| IRGroups.CallsiteErrorsSnoc | frontends/halo2/src/ir/groups.rs:357-380 | checking one more call site appends its error, numbered by its position, exactly when it fails |
| IRGroups.ValidateStep | frontends/halo2/src/ir/groups.rs:360-364 | checking call site `i` appends `On callsite i: <error>` exactly when it fails |
| IRGroups.Validate | frontends/halo2/src/ir/groups.rs:357-380 | reports the per-call-site errors in order; fails exactly when there is one, with `Validation of group G failed with N errors` |
| IRGroups.ValidateOkIff | frontends/halo2/src/ir/groups.rs:357-380 | a group validates exactly when each of its call sites does |
| IRGroups.Equivalent | frontends/halo2/src/ir/groups.rs:387-418 | two groups are equivalent exactly when neither is main, their keys and IO counts agree and their bodies are equivalent |
| IRGroups.MainNeverEquivalent | frontends/halo2/src/ir/groups.rs:387-418 | the main group, the one without a key, is equivalent to no group, itself included |
| IRGroups.EquivalentSymmetric | frontends/halo2/src/ir/groups.rs:387-418 | exchanging the two groups does not change the verdict |
| DisjointSets.Singletons | frontends/halo2/src/backend/codegen/strats.rs:158-162 | every group starts in a class of its own |
| DisjointSets.Join | frontends/halo2/src/backend/codegen/strats.rs:171-172 | after a join the two elements share a class; two elements share a class exactly when they did before or both were in one of the two joined classes |
| DisjointSets.Members | frontends/halo2/src/backend/codegen/strats.rs:185 | a class listed from an element of it starts with that element |
| DisjointSets.MembersProps | frontends/halo2/src/backend/codegen/strats.rs:185 | a listed class holds exactly the elements with its label from the starting point on |
| DisjointSets.ClassesFromProps | frontends/halo2/src/backend/codegen/strats.rs:185 | every listed class is one label's elements, smallest first, the classes ordered by their smallest element, and every first element of a class starts one of them |
| DisjointSets.FirstOfClass | frontends/halo2/src/backend/codegen/strats.rs:185 | every element has a smallest element of its class at or before it |
| DisjointSets.ClassesPartition | frontends/halo2/src/backend/codegen/strats.rs:185 | `sets` lists every element in exactly one class, and each class is exactly one label's elements |
| DisjointSets.ClassesExample | frontends/halo2/src/backend/codegen/strats.rs:185 | with 0 and 2 joined, the classes of three elements are `[0, 2]` and `[1]` |
| Strats.IdsWithKeyMembers | frontends/halo2/src/backend/codegen/strats.rs:127-142 | a bucket holds the ids of exactly the groups with that key |
| Strats.KeyedIds | frontends/halo2/src/backend/codegen/strats.rs:127-142 | with ids as indices, bucket `k` holds exactly the indices of groups keyed `k`, so main is in no bucket |
| Strats.OrganizeGroupsByKey | frontends/halo2/src/backend/codegen/strats.rs:127-142 | a key has a bucket exactly when some non-main group has it, and the bucket lists those groups' ids in order |
| Strats.JoinKeepsOk | frontends/halo2/src/backend/codegen/strats.rs:163-175 | joining two non-main groups with the same key only merges classes, never mixes keys and leaves main alone |
| Strats.ConnectedTrans | frontends/halo2/src/backend/codegen/strats.rs:163-175 | chains of linked pairs compose |
| Strats.ConnectedSym | frontends/halo2/src/backend/codegen/strats.rs:163-175 | a chain of linked pairs read backwards is a chain |
| Strats.ConnectedLink | frontends/halo2/src/backend/codegen/strats.rs:163-175 | a linked pair (distinct non-main groups of one key that are equivalent in either order) is connected |
| Strats.ConnectedToJoined | frontends/halo2/src/backend/codegen/strats.rs:163-175 | in a justified labelling every member of the two classes being joined is connected to the first group |
| Strats.JoinKeepsJustified | frontends/halo2/src/backend/codegen/strats.rs:163-175 | joining a linked pair keeps every class connected by chains of linked pairs |
| Strats.ChainKeys | frontends/halo2/src/backend/codegen/strats.rs:163-175 | the ends of a chain are one group or two non-main groups with one key |
| Strats.ChainOfEquivalence | frontends/halo2/src/backend/codegen/strats.rs:163-175 | when the equivalence is symmetric and transitive, the ends of a chain are one group or equivalent |
| Strats.ClassesAreEquivalenceClasses | frontends/halo2/src/backend/codegen/strats.rs:149-175 | when the equivalence is symmetric and transitive, two distinct groups share a class of a justified labelling that joins every equivalent pair exactly when they are non-main, have one key and are equivalent |
| Strats.JoinBucket | frontends/halo2/src/backend/codegen/strats.rs:163-175 | after one bucket's product loop every equivalent pair of distinct ids shares a class, no class mixes keys, main stays alone, and, if every class was connected before, every class is connected by chains of linked pairs |
| Strats.ComputeLabels | frontends/halo2/src/backend/codegen/strats.rs:149-175 | any two equivalent non-main groups with the same key end in the same class, and two distinct groups share a class only if a chain of equivalent non-main same-key pairs connects them; no class mixes keys, and main is alone in its class |
| Strats.FreshGroupName | frontends/halo2/src/backend/codegen/strats.rs:215-231 | the name itself when unused, else the first unused `name{k}` with `k` from the class number on; the name is then marked used and starts with the group's name |
| Strats.MarkAll | frontends/halo2/src/backend/codegen/strats.rs:193-195 | every member of the class is recorded with the leader and the name, and no other entry changes |
| Strats.AnnotateClasses | frontends/halo2/src/backend/codegen/strats.rs:184-196 | each class's first member is its leader, every member records that leader and the class's name, the names come from the fresh-name rule and are pairwise distinct |
| Strats.ClassOf | frontends/halo2/src/backend/codegen/strats.rs:184-196 | each group lies in some class |
| Strats.LeaderFacts | frontends/halo2/src/backend/codegen/strats.rs:184-196 | a group's leader is no later than it, leads itself, shares its class, and is listed among the leaders |
| Strats.PairFacts | frontends/halo2/src/backend/codegen/strats.rs:184-196 | two groups have the same leader exactly when they share a class; the same leader means the same entry, different leaders mean different names |
| Strats.AnnotationFacts | frontends/halo2/src/backend/codegen/strats.rs:184-196 | every group is annotated, the leaders are exactly the groups leading themselves, and classes share key, leader and name while distinct classes get distinct names |
| Strats.SelectLeaders | frontends/halo2/src/backend/codegen/strats.rs:145-199 | equivalent non-main groups with the same key get the same leader and name, the leaders are exactly the self-led groups, distinct classes get distinct names, main leads only itself, and each leader's name starts with its old name; two distinct groups share a leader only if a chain of equivalent pairs connects them, and when the equivalence is symmetric and transitive they share one exactly when they are equivalent non-main groups of one key |
| Strats.Renamed | frontends/halo2/src/backend/codegen/strats.rs:201-213 | an annotated group takes its class's name and leader id, keeps its key and IO counts, and each call site is redirected to its callee's leader and name |
| Strats.UpdateNames | frontends/halo2/src/backend/codegen/strats.rs:201-213 | the group after the loop over its call sites is the renamed group |
| Strats.RetainLeaders | frontends/halo2/src/backend/codegen/strats.rs:78-86 | keeps exactly main and the leaders, renamed, in their original order |
| Strats.KeptMembers | frontends/halo2/src/backend/codegen/strats.rs:78-86 | a group is in the output exactly when it is the renamed form of a kept group |
| Strats.KeptGroupsAreConsistent | frontends/halo2/src/backend/codegen/strats.rs:70-86 | after leader selection the kept groups have pairwise distinct names, and every call site of a kept group calls a kept group by that group's name |
| Program.RedirectStmt | picus/src/program.rs:72-83 | a call to a renamed module now names the new module; every other statement is unchanged |
| Program.RedirectModule | picus/src/program.rs:72-83 | keeps the module's name and statement count and redirects each statement |
| Program.RedirectedCallsAvoidOldNames | picus/src/program.rs:72-83 | when no new name is itself renamed, no redirected call names a renamed module |
| Program.RenameAsWritten | picus/src/program.rs:51-59 | as written, picks the first `name{i}` that is not itself a collision |
| Program.MergeAsWrittenDuplicates | picus/src/program.rs:51-59 | merging `[a]` into `[a, a0]` renames the second `a` to `a0`, a name the first program already has |
| Program.RenameModules | picus/src/program.rs:43-67 | non-colliding modules are kept; a colliding one gets a name of the form `name{i}` not in use anywhere, with its statements kept; the new names are pairwise distinct and only colliding names are renamed |
| Program.Program.constructor | picus/src/program.rs:34-89 | a program holds the given modules |
| Program.Program.Merge | picus/src/program.rs:34-89 | appends the other program's modules after the existing ones, renamed away from collisions and with calls redirected; module names stay pairwise distinct |
| Program.AppendedModule | picus/src/program.rs:43-86 | each appended module is the other program's module, under its new name when it collided, with its calls redirected |
| Program.CallsAfterMerge | picus/src/program.rs:69-86 | a call inside an appended module to a renamed module calls it under its new name |
| Program.NamesAfterMerge | picus/src/program.rs:34-89 | any two modules of the merged program have different names |
| Program.NameAgainstSelf | picus/src/program.rs:34-89 | no appended module takes the name of a module that was already there |
| Row.NewRow | frontends/halo2/src/synthesis/regions/row.rs:21-27 | a new row keeps its index and IO and resolves shared cells as outputs |
| Row.PrioritizeInputs | frontends/halo2/src/synthesis/regions/row.rs:54-64 | only the priority changes, to inputs first |
| Row.PrioritizeOutputs | frontends/halo2/src/synthesis/regions/row.rs:54-64 | only the priority changes, to outputs first |
| Row.ResolveRotation | frontends/halo2/src/synthesis/regions/row.rs:66-73 | a rotation fails exactly when it moves above row 0, with `Row underflow`; otherwise it gives the offset row |
| Row.RotationRoundTrip | frontends/halo2/src/synthesis/regions/row.rs:66-73 | rotating by `r` and then by `-r` returns to the starting row |
| Row.ResolveAs | frontends/halo2/src/synthesis/regions/row.rs:75-94 | returns the first position of the cell in the IO list, and nothing exactly when the cell is not listed |
| Row.Resolve | frontends/halo2/src/synthesis/regions/row.rs:100-123 | an input-only cell is the argument at its position, an output-only cell the field at its position, a shared cell follows the priority, and any other cell is the fallback or the error that a fallback was required |
| Row.StepAdviceIO | frontends/halo2/src/synthesis/regions/row.rs:125-133 | advice arguments and fields are numbered after all the instance ones; other results are unchanged |
| Row.ResolveAdviceQuery | frontends/halo2/src/synthesis/regions/row.rs:149-163 | fails exactly on row underflow; a cell that is not IO is the advice cell itself |
| Row.ResolveInstanceQuery | frontends/halo2/src/synthesis/regions/row.rs:180-188 | fails exactly on row underflow or when the instance cell is not IO |
| Row.ResolveChallenge | frontends/halo2/src/synthesis/regions/row.rs:197-206 | a challenge is the argument numbered after all advice and instance inputs |
| Row.ArgumentNumbering | frontends/halo2/src/synthesis/regions/row.rs:100-163 | instance arguments are numbered below the instance count, advice arguments in the range after them, so an instance cell and an advice cell never resolve to the same argument |
| Row.InstanceNumbering | frontends/halo2/src/synthesis/regions/row.rs:180-188 | a resolved instance cell is an argument numbered below the instance inputs or a field numbered below the instance outputs |
| Row.AdviceNumbering | frontends/halo2/src/synthesis/regions/row.rs:149-163 | a resolved advice argument or field is numbered in the range after the instance ones |
| Row.PriorityOnlyMattersForShared | frontends/halo2/src/synthesis/regions/row.rs:100-123 | the priority changes the resolution only of cells that are both inputs and outputs |
| Row.ResolveExample | frontends/halo2/src/synthesis/regions/row.rs:100-163 | a worked example: a shared cell is a field by default and an argument once inputs come first, an output-only cell is the field at its position, and a rotation above row 0 underflows |
| Temps.BeforeIsStrictTotalOrder | frontends/halo2/src/temps.rs:5-7 | temporaries are strictly and totally ordered by their index |
| Temps.Map | frontends/halo2/src/temps.rs:25-32 | a temporary is kept as it is and an expression is replaced by its image |
| Temps.MapIdentity | frontends/halo2/src/temps.rs:25-32 | mapping the identity changes nothing |
| Temps.MapCompose | frontends/halo2/src/temps.rs:25-32 | mapping twice is mapping the composition |
| Temps.Issued | frontends/halo2/src/temps.rs:75-83 | after `n` draws the temporaries issued are those numbered 0 to n-1 |
| Temps.IssuedIncreasing | frontends/halo2/src/temps.rs:75-83 | the issued temporaries are strictly increasing, so pairwise distinct |
| Temps.Temps.constructor | frontends/halo2/src/temps.rs:69-72 | a new generator has issued nothing |
| Temps.Temps.Next | frontends/halo2/src/temps.rs:75-83 | returns the temporary numbered by the old count, which is above every earlier one, and advances the count by one |
| Temps.FirstThree | frontends/halo2/src/temps.rs:69-83 | a fresh generator yields temporaries 0, 1 and 2 |
| Names.NatToStringInjective | picus/src/vars.rs:189-206 | distinct counters render as distinct decimal strings |
| Names.SuffixedInjective | frontends/halo2/src/backend/codegen/strats.rs:216-231 | a base name with two different counters gives two different names |
| Names.SuffixedRangeMembers | frontends/halo2/src/backend/codegen/strats.rs:216-231 | `name{k}` is among the candidates from `lo` below `hi` exactly when `lo <= k < hi` |
| Names.FirstFreeSuffix | picus/src/program.rs:51-59 | returns the first counter from `lo` on whose suffixed name is not in use; every earlier candidate is in use |

## Left out

- The `llzk` and `llzk-sys` crates: foreign-function wrappers over the native MLIR/LLZK library, whose behaviour lives in native code.
- The LLZK and Picus lowering and emission backends, the IR lifting arena, the halo2 `Assignment` callbacks, Picus pretty-printing and pass pipelines: these are emission through external builders, global state or trait objects, not logic over the data modelled here.
- Logging (`log::debug!`) and all I/O: they have no effect on the results.
- `free_cells` and the group bounds: a fixpoint over region maps that sits outside the named core.
- Statement `constant_fold` and `canonicalize`: they only apply the expression-level rewrites, which are modelled on `IRBexpr` and `IRAexpr` themselves.
- Panics are modelled as `Err` results that leave the state unchanged: `pop` on an empty stack, `into_root` with pending groups, a self-loop in `EqConstraintGraph::add`, and a second manual region-name assignment.
- Three source assertions are modelled as preconditions instead, so the model says nothing about the inputs that would panic: `Groups.FlattenImpl` and `Groups.Flatten` require every node to pass the top-level sanity check of `Group::new` (groups.rs:128-137; `add_input`/`add_output` on a builder with no pushed group could break it); `Table.CheckColumns` and `Table.GetRows` require a non-empty query list (table.rs:79); and `AExpr.Rem`, `AExpr.RemAssign` and the folds require a non-zero modulus, where `BigUint` division by zero panics.
- Vars.Filter: returns a set of names, so one name entered under two different keys (possible through `insert_with_value`) is listed once, where the source's vector lists it twice.
- Column types are reduced to column indices with an instance/advice/fixed kind; field elements are natural numbers below the modulus.
- Iteration order of `HashMap` and `HashSet`: `organize_groups_by_key` is a map from key to ids, and the order in which keys are visited does not affect the result.
- DisjointSets: the `disjoint` crate is not part of this model; its `sets()` is assumed to list the classes ordered by their smallest element, each class in ascending order, which fixes the leader as the smallest member.
- Strats.SelectLeaders: `SymbolicEqv::equivalent` on groups is the parameter `eqv`; it is not required to be an equivalence, so in general the classes are the connected components of the equivalent pairs, and they are exactly the equivalence classes when `eqv` is symmetric and transitive.
- IRGroups.Equivalent: the comparison of gates, equality constraints, lookups and call sites is the boolean parameter `bodies`, because their equivalence relations are defined in files that are not part of this model.
- AExpr.SymbolicEqv: the equivalence of IO leaves is a parameter, because the `FuncIO` relation is not part of this model.
- Stmt.Equivalent: the equivalence of calls, constraints and assertions is a parameter, for the same reason.
- Vars.VarTable.Insert: does not model the wrap-around of the `i32` suffix counter, because it would need more than two billion names with one seed.
- Vars.VarTable.Insert: its seed is any string of identifier characters, the empty one included, because a `VarStr` converted from the `Ident` of an empty text is empty and is never checked against the identifier pattern.
- Row.ResolveRotation: does not model the failure to convert the row to `isize`, because rows below `isize::MAX` are the only ones a circuit can have.
- Row.Resolve: the type name in the "Failed to resolve" message is the parameter `kind`.
- Row: fixed-column queries go through a separate fixed-query resolver that is not part of this model; the `index` field of an advice query is not kept.
- Table.FillTable: requires every explicit row to be at most the limit, which `get_rows` guarantees by computing the limit with `find_upper_limit`.
- `TableData::new` as a whole: only its insertion and the per-column densification are modelled (`Table.Insert`, `Table.FillTable`).
- Groups: regions nested inside groups and the statement bodies of groups are not modelled; the lazy naming closure of `push` is a plain name.
- Groups.GroupBuilder.AddRootInput and Groups.GroupBuilder.AddRootOutput: they append to the current group, which is the root because the source only calls them on a fresh builder.
- AExpr.ConstantFold: `Felt` addition and multiplication are written as `(a + b) % p` and `(a * b) % p`, not as separate operations.
- `usize` overflow is not modelled anywhere; all counters and indices are unbounded naturals.

## Findings

| source | as written | input that shows it | evidently intended | confidence | as-written member | corrected member |
|---|---|---|---|---|---|---|
| frontends/halo2-ir/src/expr/bexpr.rs:454-460 | folding `Not` of a literal returns the literal itself | `!true` folds to `true` | `!true` folds to `false` and `!false` to `true`, so folding preserves meaning | high, not executed | BExpr.ConstantFoldAsWritten, BExpr.ConstantFoldAsWrittenNegation | BExpr.ConstantFold, BExpr.ConstantFoldPreservesHolds |
| frontends/halo2-ir/src/expr/bexpr.rs:623-642 | `PartialEq` maps the pair `(False, False)` to `false` | `False == False` is false, and so is `And([d, False]) == And([d, False])` | structural equality, reflexive on every formula | high, not executed | BExpr.EqAsWritten, BExpr.EqAsWrittenMeaning, BExpr.EqAsWrittenNotReflexive | BExpr.Equal, BExpr.EqualIsIdentity |
| frontends/halo2/src/ir/stmt.rs:46-63 | equality zips the two flattened sequences, which stops at the shorter one | `Seq([c"a"]) == Seq([c"a", c"b"])`, and `Seq([])` equals every statement | equal flattenings of equal length | high, not executed | Stmt.EqAsWritten, Stmt.EqAsWrittenTruncates, Stmt.EquivalentAsWritten, Stmt.CommentsEquivalent | Stmt.Equal, Stmt.EqualMeansSameFlattening, Stmt.Equivalent |
| picus/src/program.rs:51-59 | a colliding module's new name is only checked against the collision set | this program has `a` and `a0`, the other has `a`; the other's `a` is renamed `a0`, which already exists | the new name is unused in both programs | medium, not executed | Program.RenameAsWritten, Program.MergeAsWrittenDuplicates | Program.RenameModules, Program.Program.Merge, Program.NamesAfterMerge |
| frontends/halo2/src/ir/expr/aexpr.rs:91-97 | `%=` reduces only when the value is strictly greater than the modulus | `p %= p` leaves `p`, so folding the comparison `p == 0` of two constants gives `false` although it holds in the field | the value is reduced whenever it is not below the modulus, giving 0 | medium, not executed | AExpr.RemAssign, AExpr.RemAssignKeepsModulus, AExpr.ConstantFoldAsWritten, BExpr.ConstantFoldAsWrittenModulus | AExpr.RemAssignReduced, AExpr.ConstantFold, AExpr.FoldPreservesEval, BExpr.ConstantFoldPreservesHolds |
| frontends/halo2/src/synthesis/regions/table.rs:165-176 | the blanket pass sets `last` to the previous fill's start, which can lie beyond the limit | blanket fills at rows 0 and 10 around an explicit row 3: the limit is 3 and the fill from row 0 indexes rows 0 to 9 of a 4-row column, which panics | each blanket range stops at the limit | medium, not executed | Table.BlanketRangesAsWritten, Table.FillTableOutOfBounds | Table.BlanketRanges, Table.FillTable |
