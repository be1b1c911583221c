# Verified models of parts of herdtools7

This project models ten components of herdtools7 in Dafny and proves what they are for. Two programs are
concerned: the ASL reference implementation (`asllib/`) and the C runtime of litmus tests
(`litmus/libdir/`). `dafny verify dfyconfig.toml` checks everything.

* **Static normaliser** (`Polynomial`, `Constraint`, `Expression`, `ToIr`, `Substitution`, `Equations`,
  `EquationSets`, `Normalize`, `OfIr`, `Nonvanishing`, `Branches`, `NormalForm`, `Limits`, `Unprintable`,
  `Comparison`, `Completeness`, `Idempotence`). Integer expressions with conditionals are compiled to a
  disjunction of sign constraints on polynomials and a polynomial, simplified with the equations found in the
  constraints, compared, and printed again. The meaning is the value at every integer valuation. Reduction and
  comparison are only right under conditions on the equations; there are inputs that fail without them, and exact
  conditions for sets of equations. Printing asserts that a lone branch has no constraint: a lone branch could only
  hold everywhere if its polynomial had no root, but compiled branches leave no gap modulo any number either, and
  every polynomial that is not constant has a zero modulo some number prime to given ones.
* **Strongly connected components** (`Graph`, `SccSearch`, `TopoSort`, `ConnectedComponents`). The search with
  its mutable table, stack and counter is a class; the invariant is on an abstract view of that state.
* **Interval trees** (`Diet`, `DietCheck`). Height-balanced trees of disjoint, non-adjacent intervals denote sets of integers.
* **Bit vectors** (`Bits`, `Bitvector`, `BitvectorSlices`, `BitvectorInt`, `BitvectorText`). Packed bytes with
  zero padding denote sequences of bits and numbers.
* **Slices** (`Slices`). Disjointness of slices, decided by interval trees, makes writes readable again.
* **Litmus runtime** (`Counting`, `SpinBarrier`, `CondBarrier`, `OrFlag`, `ThreadPool`, `TaskTable`). Any number
  of threads take atomic steps in any order; a mutex section is one step up to the point where it sleeps.
* **Histogram tree** (`OutsTree`, `Outs`). Linked cells changed in place denote a map from key tuples to counts.
* **Outcome table** (`HashTable`). Linear probing in an array denotes a map with bounded capacity.
* **Scoped storage** (`Storage`, `Scopes`). Names lead to pointers and pointers to values; blocks and loops that
  drive this store agree with a stack of lexical frames.
* **Off-side lexer** (`Lexer`). A state machine inserts INDENT and DEDENT; an independent rule says where.

Exceptions are results: `None`, or a constructor such as `Stuck`, `Overlapping` or `BadInterval`. `Prelude` has
the option type. Where a function below is a fold over an OCaml `Map`, the model visits the keys in an
unspecified order, so what is proved does not depend on it.

## Model

| member | source | states |
|---|---|---|
| Polynomial.MultPolysValue | asllib/StaticInterpreter.ml:501-513 | multiplying polynomials as maps of monomials multiplies their values at every integer valuation, in whatever order the two folds visit the maps |
| Polynomial.AddPolysValue | asllib/StaticInterpreter.ml:497-499 | adding polynomials adds their values, also when zero factors are left in the map |
| Polynomial.AddMonoValue | asllib/StaticInterpreter.ml:488-495 | adding a monomial adds its value, whether it is new, merged, or cancels out and is removed |
| Constraint.SignAndSpec | asllib/StaticInterpreter.ml:408-449 | an integer satisfies two signs iff the combined sign exists and is satisfied; a refused combination is one no integer satisfies |
| Constraint.CtntsAndSpec | asllib/StaticInterpreter.ml:515-521 | the conjunction of two constraint maps holds at a valuation iff both hold |
| Expression.EvalMonotone | asllib/StaticInterpreter.ml:143-189 | what static evaluation finds does not change when more variables get values |
| Expression.StaticValue | asllib/StaticInterpreter.ml:143-189 | static evaluation finds the value of every expression over constants |
| Expression.DivisionSpec | asllib/StaticInterpreter.ml:63-69 | DIVRM rounds towards minus infinity, MOD is its remainder, DIV only divides exactly; all fail unless the divisor is positive |
| Expression.ShiftSpec | asllib/StaticInterpreter.ml:70-75 | SHR divides by a power of two rounding down, SHL multiplies by it, POW is repeated multiplication; negative amounts fail |
| Expression.ComparisonSpec | asllib/StaticInterpreter.ml:77-82 | the six comparisons are those of the order of the integers |
| Expression.BooleanSpec | asllib/StaticInterpreter.ml:84-89 | the truth tables of the Boolean operators |
| ToIr.CompileMeaning | asllib/StaticInterpreter.ml:559-613 | compilation terminates although MINUS rewrites to a larger term; when it succeeds the expression has an integer value at every valuation, some branch of the result holds there, and every branch that holds evaluates to that value |
| ToIr.CompileCondMeaning | asllib/StaticInterpreter.ml:615-639 | the two disjunctions of a compiled condition are the valuations where it is true and those where it is false |
| Completeness.FragmentCompiles | asllib/StaticInterpreter.ml:559-639 | integer variables and literals under sum, difference, product, negation, shifts by literals and conditionals on equalities always compile, and so do constant expressions |
| Substitution.ReducePolyValue | asllib/StaticInterpreter.ml:762-789 | reduce_poly is evaluation after substituting every equation except those read off the same polynomial |
| Substitution.ReduceCtntsSpec | asllib/StaticInterpreter.ml:791-817 | reduced constraints hold iff each constraint holds after substituting the equations of the others; trivial constraints are dropped and contradictions give Bottom |
| Equations.GetLinearMeaning | asllib/StaticInterpreter.ml:819-851 | what poly_get_linear recognises really is factor * x - c at every valuation; a reported contradiction is never zero |
| Completeness.LinearIff | asllib/StaticInterpreter.ml:819-851 | poly_get_linear finds the equation x == c exactly when the polynomial is factor * x - c at every valuation, for some factor other than zero |
| Completeness.ContradictionIff | asllib/StaticInterpreter.ml:819-851 | it reports a contradiction exactly when the polynomial is the same number other than zero at every valuation |
| Equations.EquationRightIff | asllib/StaticInterpreter.ml:819-851 | dropping the factor of x is right exactly when the factor is one, or c is zero, or the factor does not divide c |
| Equations.DeducePreserves | asllib/StaticInterpreter.ml:853-868 | when some equation has no integer solution, or all have factor one or value zero and no zero factors and none satisfies another one for the same atom: substituting all deduced equations into all other constraints changes no truth value, and the equations are true wherever the constraints hold |
| EquationSets.SolvableKeptIff | asllib/StaticInterpreter.ml:853-868 | for any equations with a common solution, deduction is right at every valuation exactly when their atoms are distinct, no factor is zero, and each factor is one or each value zero |
| EquationSets.SolvedIff | asllib/StaticInterpreter.ml:853-868 | the condition of Equations.DeducePreserves is exact for any equations on distinct atoms, and for any equations with a common solution |
| EquationSets.DistinctKeptIff | asllib/StaticInterpreter.ml:853-868 | for equations on distinct atoms, deduction is right at every valuation exactly when one has no integer solution, or all are free of zero factors and have factor one or value zero; their truth alone is kept exactly when one has no solution or all are free of zero factors |
| Equations.HarmlessRespected | asllib/StaticInterpreter.ml:853-868 | when some equation has no integer solution, or every factor is one or value zero, deduced equations are true wherever the constraints hold |
| Normalize.ReduceMeaning | asllib/StaticInterpreter.ml:870-891 | reduce keeps "some branch holds and every branch that holds has the value": dropping contradictory branches and collapsing on a branch that always holds is harmless, under the condition of Equations.DeducePreserves on each branch |
| Completeness.ReduceShape | asllib/StaticInterpreter.ml:870-891 | reduced constraints are on polynomials that are not constant and free of zero factors, and only the last branch may have none |
| Normalize.EqualModBranchesMeaning | asllib/StaticInterpreter.ml:908-941 | a positive answer on two disjunctions means they represent the same value |
| Normalize.EqualInEnvSound | asllib/StaticInterpreter.ml:944-966 | if equal_in_env answers true (that condition on the compiled branches, harmless factors in the compared ones), both expressions have the same value at every valuation |
| Comparison.EqualBranchesIff | asllib/StaticInterpreter.ml:908-941 | two branches are found equal exactly when their joint constraints are not found contradictory, and their polynomials have the same value at every valuation once the deduced values are substituted |
| Comparison.EqualInEnvCases | asllib/StaticInterpreter.ml:908-966 | expressions are found equal exactly when both compile and all pairs of their reduced branches agree in that sense |
| Completeness.ArithmeticEqualIff | asllib/StaticInterpreter.ml:893-966 | arithmetic expressions without conditionals are found equal, and have the same normal form, exactly when they have the same value at every valuation |
| Comparison.TotalExtendable | asllib/StaticInterpreter.ml:559-575 | the valuations of the variables extend to the local definitions when these always have an integer value |
| Comparison.SelfRefused | asllib/StaticInterpreter.ml:908-966 | "if x == 1 then 5 else 6" is not found equal to itself |
| Limits.ReduceDropsFactor | asllib/StaticInterpreter.ml:819-851 | a concrete failure without unit factors: "if 3 == x then x else -3" is reduced to something that is -3 where x is 3 |
| Limits.WithZeroIsSum | asllib/StaticInterpreter.ml:497-499 | add_polys leaves a zero factor in (x - 3 + y) - y |
| Limits.ReduceDropsConstraint | asllib/StaticInterpreter.ml:773-785 | a concrete failure without canonical polynomials: because of that zero factor a constraint is substituted by its own equation and vanishes |
| Limits.SingleEquationKeptIff | asllib/StaticInterpreter.ml:853-868 | a lone null constraint survives its own equation exactly when it has no zero factor or no integer solution |
| Limits.TwoEquationsVanish | asllib/StaticInterpreter.ml:853-868 | a concrete failure with two multiples of one equation: each makes the other trivial |
| Limits.CompileZeroExample | asllib/StaticInterpreter.ml:559-639 | "if x == 0 then 5 else 7" compiles to a constraint with a zero factor, because the literal 0 does |
| Limits.ReduceDropsZeroTest | asllib/StaticInterpreter.ml:876-891 | a concrete failure on compiled input: reduce turns that expression into 5, also where x is 1 and its value 7 |
| Limits.ComparisonDropsZeroTest | asllib/StaticInterpreter.ml:944-966 | a concrete failure of the comparison: equal_in_env finds that expression and 5 equal |
| Limits.CompareRightIff | asllib/StaticInterpreter.ml:908-941 | under equations on distinct atoms, every positive answer on two branches is right wherever they hold, exactly when one equation has no integer solution, or all have factor one or value zero, or one has a zero factor and neither (deduction then drops the branch) |
| OfIr.PolyFoldValue | asllib/StaticInterpreter.ml:684-707 | the running sign times the running expression of polynomial_to_expr is what has been added up |
| OfIr.PolyToExprValue | asllib/StaticInterpreter.ml:684-707 | the printed polynomial evaluates to the value of the polynomial |
| OfIr.CtntToExprValue | asllib/StaticInterpreter.ml:717-722 | the printed constraint, with its constant moved to the other side, is true iff the sign constraint holds |
| OfIr.NestValue | asllib/StaticInterpreter.ml:732-744 | the nested conditionals evaluate to the value of the first branch that holds |
| OfIr.PrintValue | asllib/StaticInterpreter.ml:732-744 | of_ir prints an expression with the represented value |
| NormalForm.CompileProper | asllib/StaticInterpreter.ml:559-613 | compiled polynomials mention only free variables and have no zero exponents |
| NormalForm.SubstFoldClean | asllib/StaticInterpreter.ml:762-785 | substitution gives canonical polynomials whatever it is given |
| Branches.CompileCovers | asllib/StaticInterpreter.ml:559-639 | some branch of a compiled expression holds at every valuation, also when the multiples of any number d count as zero |
| Branches.DeduceMod | asllib/StaticInterpreter.ml:853-868 | constraints whose equations have factor one or value zero, and that hold modulo a d prime to the numbers in them, are not found contradictory and still hold modulo d |
| Branches.FailsIff | asllib/StaticInterpreter.ml:732-744 | the assertion of of_ir fails exactly when all branches but one were found contradictory and constraints are left in that one |
| NormalForm.NormalFormSucceeds | asllib/StaticInterpreter.ml:893-894 | if every equation of the compiled disjunction has factor one or value zero, normalize does not fail |
| NormalForm.NormalFormValue | asllib/StaticInterpreter.ml:893-894 | under the condition of reduce, the printed normal form has the same value as the original expression at every valuation, and it can only be missing if some compiled branch has an equation without integer solution |
| Idempotence.NormalFormTwice | asllib/StaticInterpreter.ml:665-707 | normalising the normal form of an arithmetic expression without cases gives it again exactly when the reduced polynomial has no exponent above two: larger powers are printed with an operator that does not compile |
| Unprintable.NormalizeFails | asllib/StaticInterpreter.ml:732-736 | a concrete failure: on "if x + x == 1 then (if x == 1 then 5 else 6) else 7", whose value is 7 everywhere, the assertion of of_ir fails |
| TopoSort.OStack.PopUntil | asllib/TopoSort.ml:27-50 | popping until a vertex returns the part of the stack from that vertex on and leaves the rest |
| SccSearch.EnterSpec | asllib/TopoSort.ml:85-104 | discovering a vertex keeps the search invariant |
| SccSearch.VisitedSpec | asllib/TopoSort.ml:68-83 | lowering the lowlink for a visited successor on the stack keeps the lower bound on edges into the stack |
| SccSearch.UnvisitedSpec | asllib/TopoSort.ml:68-83 | lowering the lowlink after exploring a successor keeps that bound |
| SccSearch.LeaveSpec | asllib/TopoSort.ml:85-104 | a vertex whose lowlink is below its number stays on the stack and reaches an unfinished vertex below it |
| SccSearch.ComponentExact | asllib/TopoSort.ml:85-104 | what is popped is exactly the class of vertices mutually reachable with the root |
| SccSearch.EmitSpec | asllib/TopoSort.ml:85-104 | emitting that class keeps the invariant: emitted lists are components, disjoint, and closed under edges |
| TopoSort.State.SetLowlink | asllib/TopoSort.ml:63-66 | replaces the entry of one vertex in the table, with the new lowlink, and changes nothing else of the search state |
| TopoSort.State.EachSuccessor | asllib/TopoSort.ml:68-83 | one step of the fold over the successors of v, from having handled k of them to k + 1 |
| TopoSort.State.StrongConnected | asllib/TopoSort.ml:85-104 | terminates on every finite graph; explores v, emits its finished components through fold, returns the entry of v in the table, and keeps the entries that were there |
| ConnectedComponents.FoldStrongConnected | asllib/TopoSort.ml:106-114 | the emitted lists partition the vertices reachable from the nodes, each is one maximal strongly connected component, and each comes after every component it points to; the result is their fold |
| ConnectedComponents.SortConnected | asllib/TopoSort.ml:116-117 | returns exactly such a decomposition |
| ConnectedComponents.OrderFromComps | asllib/TopoSort.ml:134-155 | numbering vertices by such a decomposition respects the edges |
| ConnectedComponents.IndexConnected | asllib/TopoSort.ml:119-132 | every reachable vertex gets an index at least that of each successor, and two vertices share an index iff they reach each other |
| Diet.Join | asllib/diet.ml:143-166 | node terminates on balanced trees of any height difference (the difference shrinks through the nested calls), gives a balanced tree with right heights and cardinals, and a height from one below the higher input to one above it |
| Diet.JoinOnto | asllib/diet.ml:143-166 | node keeps the in-order list of intervals |
| Diet.JoinSpec | asllib/diet.ml:143-166 | node denotes the union, and keeps order, disjointness and non-adjacency |
| Diet.JoinHeightIff | asllib/diet.ml:143-166 | "the higher height or one more" is true of all interval trees of two given heights, separated by the interval, exactly when the heights differ by at most four; for every gap from five on there is such a tree that loses a level, on either side |
| Diet.MirrorJoin | asllib/diet.ml:143-166 | node treats left and right alike |
| Diet.SplitMaxSpec | asllib/diet.ml:287-293 | removes exactly the last interval and keeps the invariant |
| Diet.SplitMinSpec | asllib/diet.ml:295-299 | removes exactly the first interval and keeps the invariant |
| Diet.AddSpec | asllib/diet.ml:317-346 | add denotes the union with the interval and keeps the global invariant |
| Diet.MergeSpec | asllib/diet.ml:352-358 | merge denotes the union of two separated trees and keeps the invariant |
| Diet.RemoveSpec | asllib/diet.ml:360-392 | remove denotes the difference with the interval and keeps the global invariant |
| Diet.SetOperations | asllib/diet.ml:348-395 | union, diff and inter are the exact set operations and keep the invariant, whatever the shapes of the trees |
| Diet.CardinalSpec | asllib/diet.ml:136-141 | the stored cardinal is the number of points |
| Diet.MemSpec | asllib/diet.ml:240-247 | mem decides membership |
| Diet.FindNextGapSpec | asllib/diet.ml:397-403 | the least point from the given one on that is outside the set |
| Diet.TakeSpec | asllib/diet.ml:405-422 | take splits the set into n points and the rest, or the set has fewer than n points; with a negative n it builds a reversed interval unless the set is empty |
| Diet.OrderedListIsCanonical | asllib/diet.ml:176-235 | an ordered list of separated intervals is determined by its points |
| Diet.EqualSpec | asllib/diet.ml:100-119 | equal decides equality of the sets, whatever the tree shapes |
| Diet.CompareSpec | asllib/diet.ml:100-118 | compare is -1 exactly if the in-order intervals of the first tree end where those of the second go on, or the first one that differs is wholly below its counterpart; 0 exactly if the lists are equal; 1 otherwise |
| Diet.CompareOppositeIff | asllib/diet.ml:100-118 | exchanging the arguments gives the opposite exactly unless the first intervals that differ overlap |
| Diet.CompareClash | asllib/diet.ml:100-118 | a concrete failure: 0..5 and 3..8 are each found greater than the other |
| DietCheck.ValidPasses | asllib/diet.ml:176-235 | every tree that satisfies the global invariant passes check_invariants |
| DietCheck.CheckDecides | asllib/diet.ml:176-235 | a tree satisfies the global invariant exactly when it passes check_invariants and its in-order intervals are ordered and separated |
| DietCheck.LowPasses | asllib/diet.ml:176-235 | a tree of height at most two satisfies the global invariant when it passes check_invariants |
| DietCheck.CheckTooWeak | asllib/diet.ml:194-208 | for every height from three on, a tree that passes check_invariants although two of its intervals overlap, because only the roots of subtrees are compared |
| Slices.AnnotateKeepsPositions | asllib/Typing.ml:986-1030 | replacing a slice by an offset and a length keeps its interval, except for a starred slice whose two numbers differ |
| Slices.ToDietSpec | asllib/Typing.ml:385-416 | disjoint_slices_to_diet succeeds iff every slice has a position and no two share one; the tree is then the set of positions and its cardinal the sum of the widths |
| Slices.CheckDisjointSpec | asllib/Typing.ml:418-423 | check_disjoint_slices accepts exactly disjoint slices, and any single slice |
| Slices.CheckSlicesSpec | asllib/Typing.ml:811-819 | the width check accepts exactly non-empty disjoint slices inside 0 .. width - 1; no slices at all escape as Not_found |
| Slices.PositionsSpec | asllib/ASTUtils.ml:156-163 | the positions of disjoint slices are the covered ones, each once, as many as the sum of the widths |
| Slices.ReadOne | asllib/ASTUtils.ml:156-163 | reading one slice gives the bits from its offset on, bit j of the result being bit offset + j |
| Slices.ReadConcat | asllib/ASTUtils.ml:156-163 | reading several slices concatenates what each gives, the first one most significant |
| Slices.PositionsFail | asllib/ASTUtils.ml:156-163 | the positions fail to exist exactly when some length is negative |
| Slices.AcceptedSlicesWrite | asllib/bitvector.ml:415-433 | writing a vector at the positions of accepted slices and reading there gives it back, and every other bit is unchanged |
| Bitvector.EqualSpec | asllib/bitvector.ml:353-357 | because padding bits are zero, comparing lengths and bytes decides equality of the bit sequences |
| Bitvector.CopyInto | asllib/bitvector.ml:466-530 | copies a vector to any bit offset: bytes before and after are untouched, bits below the offset are kept, all accesses are in bounds |
| Bitvector.Concat | asllib/bitvector.ml:532-539 | the bits of the result are the concatenated bits of the arguments, at every offset; padding is zero and the uninitialised bytes never matter |
| Bitvector.MixBodyBit | asllib/bitvector.ml:455-461 | mix_chars_body takes the high bits of one byte and the low bits of the next |
| BitvectorSlices.RemaskInPlace | asllib/bitvector.ml:107-117 | remask edits the last byte in place: it clears the padding bits and keeps the others |
| BitvectorSlices.CopyBit | asllib/bitvector.ml:409-413 | changes one bit and no other |
| BitvectorSlices.ExtractSlice | asllib/bitvector.ml:415-424 | the bits at the positions, the last position least significant; fails exactly when a position is beyond the data |
| BitvectorSlices.WriteSlice | asllib/bitvector.ml:426-433 | every bit is the last one written at its position, or the old one; with more positions than source bits the further ones get a bit that the code leaves unspecified; fails exactly when a position is beyond dst, or eight or more positions are beyond the source bits, or any when it has none |
| BitvectorSlices.WriteThenExtract | asllib/bitvector.ml:409-433 | at distinct positions, reading after writing gives the source back and every other bit is unchanged |
| BitvectorSlices.BitwiseOp | asllib/bitvector.ml:325-342 | works bit by bit, keeps the padding zero, and fails exactly on different lengths |
| BitvectorSlices.LogXor | asllib/bitvector.ml:351-351 | exclusive or bit by bit; the last remask changes nothing |
| BitvectorSlices.LogAnd | asllib/bitvector.ml:349-349 | and bit by bit |
| BitvectorSlices.LogOr | asllib/bitvector.ml:350-350 | or bit by bit |
| BitvectorSlices.LogNotSpec | asllib/bitvector.ml:344-347 | flips every bit and keeps the padding zero |
| BitvectorInt.OfZ | asllib/bitvector.ml:300-311 | bit p is bit p of the integer in two's complement, and the padding is zero |
| BitvectorInt.UnsignedOfZ | asllib/bitvector.ml:237-311 | to_z_unsigned of of_z is z modulo 2^n, for every length and integer |
| BitvectorInt.ToZUnsignedValue | asllib/bitvector.ml:237-250 | the shifting fold computes the little-endian value of the bytes |
| BitvectorInt.SignedSpec | asllib/bitvector.ml:252-255 | to_z_signed is congruent to the unsigned value modulo 2^n and lies between -2^(n-1) and 2^(n-1) |
| BitvectorInt.SignBitSpec | asllib/bitvector.ml:125-129 | sign_bit reads bit n - 1 |
| BitvectorInt.Extend | asllib/bitvector.ml:131-156 | extension to bytes keeps the bits and adds zeros or copies of the sign, and truncates longer vectors; fails only for the sign of an empty vector |
| BitvectorInt.SignExtendKeepsValue | asllib/bitvector.ml:131-156 | sign extension to at least as many bits keeps the signed value |
| BitvectorInt.Plus | asllib/StaticInterpreter.ml:114-117 | addition of the unsigned values modulo 2^n; fails exactly on different lengths |
| BitvectorInt.Minus | asllib/StaticInterpreter.ml:118-121 | subtraction of the unsigned values modulo 2^n; fails exactly on different lengths |
| BitvectorInt.PlusInt | asllib/StaticInterpreter.ml:122-124 | adding an integer of any sign is addition modulo 2^n |
| BitvectorInt.MinusInt | asllib/StaticInterpreter.ml:125-126 | subtracting an integer of any sign is subtraction modulo 2^n |
| BitvectorText.ToString | asllib/bitvector.ml:185-202 | the bits between quotes, most significant first |
| BitvectorText.OfString | asllib/bitvector.ml:264-288 | the binary digits of the string, the last one least significant; other characters do not count |
| BitvectorText.RoundTrip | asllib/bitvector.ml:185-288 | reading what was printed gives the same vector |
| BitvectorText.MaskOfString | asllib/bitvector.ml:577-595 | the three vectors say what the mask characters say; the length error never happens |
| BitvectorText.Matches | asllib/bitvector.ml:597-603 | holds iff every mask character other than x is the bit at its place; fails exactly on different lengths |
| SpinBarrier.BarrierHolds | litmus/libdir/_riscv/barrier.c:33-47 | in every interleaving of n threads no thread leaves its k-th wait before all have entered theirs |
| SpinBarrier.FlipSeenByAll | litmus/libdir/_riscv/barrier.c:33-47 | the sense is flipped only while every other thread is still waiting for it, so it never flips twice past a waiting thread |
| SpinBarrier.NeverStuck | litmus/libdir/_riscv/barrier.c:33-47 | in every reachable state some thread changes the state with its next step |
| SpinBarrier.MovesIff | litmus/libdir/_riscv/barrier.c:33-47 | a thread changes the state with its next step exactly when it is not waiting for the sense to change |
| SpinBarrier.ReleasedReturns | litmus/libdir/_riscv/barrier.c:33-47 | a waiting thread returns with its next step once the sense has changed |
| SpinBarrier.EveryWaitEnds | litmus/libdir/_riscv/barrier.c:33-47 | from every reachable state some schedule lets every thread return from its current wait, and a measure drops at each of its steps |
| CondBarrier.BarrierHolds | litmus/libdir/_utils.c:925-939 | the barrier property for the mutex version, in every interleaving and with spurious wake-ups |
| CondBarrier.NoLostWakeup | litmus/libdir/_utils.c:925-939 | a thread whose round is over has been signalled, and leaves when it next looks |
| CondBarrier.NeverStuck | litmus/libdir/_utils.c:925-939 | never do all threads sleep for the current round |
| CondBarrier.LookSpec | litmus/libdir/_utils.c:925-939 | what each critical section does to its thread: wait, go on waiting, or return |
| CondBarrier.EveryWaitEnds | litmus/libdir/_utils.c:925-939 | from every reachable state some schedule lets every thread return from its current wait, and a measure drops at each of its steps |
| OrFlag.WaitReturnsDisjunction | litmus/libdir/_utils.c:958-992 | with alternating po_reinit and po_wait, each thread's r-th po_wait returns the disjunction of all n arguments of round r, though fast threads may be rounds ahead |
| OrFlag.EveryCallEnds | litmus/libdir/_utils.c:958-992 | from every reachable state some schedule lets every thread return from its current call |
| ThreadPool.NeverFatal | litmus/libdir/_utils.c:1155-1227 | n_pool + n_out + next == n_thread in every reachable state, so pool_status is never fatal; sleepers number n_pool + next |
| ThreadPool.TaskInOnePlace | litmus/libdir/_utils.c:1169-1235 | a submitted task is queued, or held by exactly one thread, or done with its own result |
| ThreadPool.QueuedTaskHasSleeper | litmus/libdir/_utils.c:1169-1227 | queued tasks have as many sleepers, and one that is signalled and takes a task when it wakes |
| ThreadPool.BufferSetOnce | litmus/libdir/_utils.c:1010-1030 | op_set is only called on an unset buffer, and stores its own task's result |
| ThreadPool.PutSpec | litmus/libdir/_utils.c:1208-1227 | a put with an available thread creates none and queues the task; otherwise it creates one thread with the task |
| ThreadPool.TakeSpec | litmus/libdir/_utils.c:1169-1180 | a thread takes the task queued last, or sleeps |
| ThreadPool.ThreadsArePeak | litmus/libdir/_utils.c:1155-1227 | the number of threads is the largest number so far of tasks not done and threads not back from one |
| ThreadPool.ReturningNotReused | litmus/libdir/_utils.c:1155-1227 | a concrete run with two threads although there are never two tasks at once: a thread that has set its buffer but is not back yet is not reused |
| ThreadPool.AllTasksFinish | litmus/libdir/_utils.c:1169-1227 | from every reachable state some schedule finishes all submitted tasks and puts all threads to sleep |
| TaskTable.Table.Push | litmus/libdir/_utils.c:1111-1117 | appends to the table, growing the array when it is full |
| TaskTable.Table.Pop | litmus/libdir/_utils.c:1119-1121 | removes the last pushed task |
| Outs.LoopAddOutcomeOuts | litmus/libdir/_outs.c:52-80 | the loop over pointers to pointers builds exactly the tree of the recursive insertion, in place, allocating only new cells |
| Outs.AddOutcomeOuts | litmus/libdir/_outs.c:82-84 | the same for a whole key tuple |
| Outs.DoMergeOuts | litmus/libdir/_outs.c:116-134 | merges in place into exactly the recursive merge of the two trees |
| Outs.MergeOuts | litmus/libdir/_outs.c:136-138 | q is unchanged and the result shares no cell with it |
| Outs.SumOuts | litmus/libdir/_outs.c:86-93 | the sum of all counts |
| Outs.FinalsOuts | litmus/libdir/_outs.c:95-102 | the number of cells with a positive count |
| Outs.SameOuts | litmus/libdir/_outs.c:140-148 | cell by cell comparison of two trees |
| OutsTree.AddCount | litmus/libdir/_outs.c:52-80 | insertion adds c to the count of its key tuple and to no other; the show mark is or-ed |
| OutsTree.AddSorted | litmus/libdir/_outs.c:52-80 | insertion keeps every sibling list strictly sorted and counts at the leaves only |
| OutsTree.AddFull | litmus/libdir/_outs.c:52-80 | insertion with a positive count keeps counts positive and leaves no branch empty |
| OutsTree.MergeCount | litmus/libdir/_outs.c:116-134 | merging is the pointwise sum of the maps from key tuples to counts; show marks are or-ed |
| OutsTree.MergeSorted | litmus/libdir/_outs.c:116-134 | merging keeps every sibling list strictly sorted |
| OutsTree.MergeFull | litmus/libdir/_outs.c:116-134 | merging keeps counts positive and leaves no branch empty |
| OutsTree.SumAdd | litmus/libdir/_outs.c:82-93 | insertion raises the total by c |
| OutsTree.SumMerge | litmus/libdir/_outs.c:86-138 | merging conserves the totals |
| OutsTree.FinalsSpec | litmus/libdir/_outs.c:95-102 | on sorted trees, the number of key tuples with a positive count |
| OutsTree.SameSpec | litmus/libdir/_outs.c:140-148 | on sorted trees with positive counts and no empty branch, same_outs decides equality of the maps |
| HashTable.Table.HashInit | litmus/libdir/_hash.c:60-66 | an empty table |
| HashTable.Table.HashAdd | litmus/libdir/_hash.c:137-160 | linear probing is a map update; it fails exactly when the key is absent and the table full, and then changes nothing; nhash is the number of keys |
| HashTable.ProbedOnce | litmus/libdir/_hash.c:137-160 | when no empty slot lies between a key's home and its place, and no earlier slot of that way has the key, each key is stored once |
| HashTable.NewEntry | litmus/libdir/_hash.c:141-151 | storing into the first empty slot met keeps probing right and adds exactly that key |
| HashTable.AllPassed | litmus/libdir/_hash.c:141-159 | probing all slots in vain means the table is full and lacks the key |
| HashTable.Table.HashAdds | litmus/libdir/_hash.c:162-176 | succeeds iff the keys of both tables fit, and then gives the pointwise sum; the other table is unchanged |
| HashTable.TryAllSpec | litmus/libdir/_hash.c:162-176 | adding entry after entry succeeds iff all keys together fit, and gives the pointwise sum |
| Storage.Allocator.AddHere | asllib/storage.ml:34-59 | add assigns a bound name and declares an unbound one at a new pointer, advancing the hidden counter only then |
| Storage.DeclareSpec | asllib/env.ml:113-122 | declaring an unbound name gives it a fresh pointer and keeps the storage consistent: pointers injective, none dangling, no cell leaked |
| Storage.AssignSpec | asllib/env.ml:124-128 | assigning changes one value and no pointer |
| Storage.RemoveSpec | asllib/env.ml:143-152 | removing a name of the current scope frees exactly its cell |
| Storage.RemoveCellsSpec | asllib/storage.ml:73-90 | patch_mem fails exactly on an unbound name, and otherwise removes exactly the cells of the names |
| Storage.PopScopeSpec | asllib/env.ml:165-170 | leaving a scope binds exactly the outer names to their old pointers with the latest values, and frees the cells of the scope |
| Storage.PopScopeIff | asllib/env.ml:165-170 | the storage is consistent after leaving a scope exactly when no name declared in it was bound outside |
| Storage.AssignGlobalSpec | asllib/env.ml:133-138 | assigning a global name changes one value and no pointer, and leaves the local storage alone |
| Scopes.EvalStmtSpec | asllib/Interpreter.ml:901-1081 | statements that declare only locally unbound names are never stuck in the storage; within any number of iterations they continue, leave with the same value, fail on an undefined name or go on looping as they must, and where they continue the storage is consistent (no leak, no dangling or shared pointer), old pointers are kept and the values are those they mean, through nested blocks, while, repeat and for loops and global names |
| Scopes.RunStmtSpec | asllib/Interpreter.ml:1013-1018 | for such statements the meaning by one map of local values agrees with a stack of lexical frames over the globals, whose outer frames keep their names |
| Scopes.StorageRefinesFrames | asllib/Interpreter.ml:901-1081 | within any number of iterations the pointer store and the stack of frames end alike: same visible values, same exit, same error, or still looping |
| Scopes.ForRunsEach | asllib/Interpreter.ml:947-962 | a for statement is its block run once for each of a, a + 1, .., b or a, a - 1, .., b, in a frame for the index |
| Scopes.ForCounts | asllib/Interpreter.ml:1050-1075 | counting in a for statement adds max(0, b - a + 1), or max(0, a - b + 1) downwards |
| Scopes.HidingBreaks | asllib/env.ml:113-122 | a concrete failure: a block that declares a bound name leaves it with a dangling pointer |
| Lexer.StepSpec | asllib/lexer0.ml:40-97 | each call keeps the indentation history strictly decreasing down to 0, so it is never empty, and comes nearer to EOF |
| Lexer.OffsideLexer.GetToken | asllib/lexer0.ml:40-97 | the mutable lexer, with its loops over EOL, makes exactly that step |
| Lexer.FileRule | asllib/lexer0.ml:32-105 | for every file the produced tokens are those of a rule that counts parentheses: inside an unclosed one ends of line are dropped; elsewhere each line start is preceded by the changes of indentation |
| Lexer.OpenStep | asllib/lexer0.ml:42-49 | the counter of the lexer is the largest excess of starters over enders of any part up to the end, so that an unmatched ender is ignored |
| Lexer.ExcessOpen | asllib/lexer0.ml:42-49 | when no prefix has more enders than starters, what is unclosed is the difference |
| Lexer.EolInParentheses | asllib/lexer0.ml:52-57 | an end of line after an unclosed starter makes no difference to the output |
| Lexer.LayoutSpec | asllib/lexer0.ml:71-96 | at a line of some column the open columns become the smaller ones and that column |
| Lexer.PrefixBalance | asllib/lexer0.ml:32-105 | no prefix of the output has more DEDENT than INDENT |
| Lexer.EofLast | asllib/lexer0.ml:32-105 | EOF is produced exactly once, at the end |
| Lexer.FileBalanced | asllib/lexer0.ml:51-66 | over a file no prefix has more DEDENT than INDENT, and the totals match exactly when no starter is unclosed at its end, or only column 0 is open there |
| Lexer.OpenParenthesisUnbalanced | asllib/lexer0.ml:52-57 | a concrete file whose INDENT is never closed |
| Lexer.FileErased | asllib/lexer0.ml:32-105 | erasing INDENT, DEDENT and EOL from the output gives the raw tokens without EOL |

## Left out

Promises of the code or its comments that are not kept:

- `node` of `asllib/diet.ml` does not always give the higher height or one more: `Diet.JoinHeightIff` says for which heights it does, and `Diet.Join` gives the bounds that always hold.
- `check_invariants` of `asllib/diet.ml` accepts some trees whose intervals overlap from height three on (`DietCheck.CheckTooWeak`, `DietCheck.LowPasses`); `DietCheck.CheckDecides` says what it lacks.
- `compare` of `asllib/diet.ml` is not an order: `Diet.CompareClash` has two sets that are each found greater than the other, `Diet.CompareOppositeIff` the exact condition.
- The comment at `asllib/bitvector.ml:48-50` gives length / 8 + 1 bytes; the code allocates (length + 7) / 8 (`asllib/bitvector.ml:93`), and so does the model.
- Reducing is not right for all constraints: `Limits` has the inputs, `EquationSets` the exact conditions for sets of equations, and `AllSolved` can be checked on the compiled disjunction before the call. It excludes conditions `e == 0` that read as an equation without constant part, such as `x == 0`: the literal 0 leaves a zero factor there, and these conditions are indeed dropped (`Limits.ReduceDropsZeroTest`).
- Comparing is not right for all expressions either (`Limits.ComparisonDropsZeroTest`, `Limits.CompareRightIff`): `Reliable` asks for `AllSolved` on the two compiled disjunctions and for harmless factors in the pairs of branches of the two reduced ones.
- `of_ir` asserts that a lone branch has no constraints; `normalize` fails this assertion on "if x + x == 1 then (if x == 1 then 5 else 6) else 7" (`Unprintable.NormalizeFails`). `Branches.FailsIff` says what makes it fail, and `NormalForm.NormalFormSucceeds` gives a condition on the compiled disjunction under which it does not.
- Normal forms with exponents above two cannot be normalised again (`Idempotence.NormalFormTwice`).
- `equal_in_env` refuses some expressions compared with themselves (`Comparison.SelfRefused`); `Comparison.EqualInEnvCases` says when it accepts.
- A file that ends inside a parenthesis leaves its INDENT tokens open (`Lexer.FileBalanced`).
- `Slice_Star` in `disjoint_slices_to_diet` has the bounds of its factor, not of its length (`Slices.AnnotateKeepsPositions`); annotation removes this form first.

Weaker than the code on purpose:

- Expression.EvalMonotone: literals are integers and booleans; reals, strings and bit-vector literals are not modelled, and all failures are one `None`.
- ToIr.CompileMeaning: assumes that constants and local definitions of the environment are declared in order, as the type-checker adds them, so that unfolding them ends.
- Normalize.ReduceMeaning: requires `AllSolved`, for the reasons shown in `Limits`.
- Normalize.EqualInEnvSound: speaks of the positive answer; for expressions with cases a negative answer promises nothing about the values, and `Comparison.EqualInEnvCases` says what it means.
- NormalForm.NormalFormValue: requires `AllSolved`, for the reasons shown in `Limits`.
- NormalForm.NormalFormSucceeds: its condition is sufficient; with an equation without integer solution normalize may also succeed, namely unless `Branches.FailsIff` applies.
- Equations.DeducePreserves: its condition is exact for the sets of equations in `EquationSets.SolvedIff`; for contradictory equations on one atom, or with other constraints beside the equations, it is sufficient.
- Limits.CompareRightIff: for equations on distinct atoms, in polynomials without zero exponents, as all compiled ones are.
- BitvectorSlices.LogXor: its last remask, like that of `lognot`, edits a string that was just made; there the model works on values.
- Outs.MergeOuts: the two trees share no cell, as all callers have it.
- Scopes.EvalStmtSpec: expressions are functions of the visible values, without calls; try statements are not modelled, so a throw leaves the subprogram; assigning an undefined name is an error, as in language version 1.
- Scopes.StorageRefinesFrames: for the same statements.
- HashTable.Table.HashAdd: the hash function is any function of the key, and keys are compared as words.

Not modelled:

- Expressions of slices: their bounds are integers here, already evaluated.
- Machine integers: counts, indices and bit positions are unbounded here.
- Weak memory: every step of the runtime is sequentially consistent, and the barriers of the spin loop are not modelled.
- Fairness: progress is stated as the existence of a schedule that ends every wait, with a measure that drops at each step, not as termination under every fair schedule.
- The rest of the ASL type-checker and interpreter, subtyping and types, catching exceptions and simple conditional expressions.
- `printable`, `highest_set_bit` and `to_int64_unsigned` of `asllib/bitvector.ml`.
- Storage is not deallocated: `free_outs`, `op_free` and the like are left out, as are statistics fields of the outcome table.
- Physical equality of OCaml values is modelled as structural equality.
- The raw lexer: its tokens and columns are inputs, and it is assumed to give EOF at the end only.
- Affinity, command lines, files, printing of outcomes, generated parsers and architecture-specific code.
