# Verified model of TVM's integer arithmetic

TVM rewrites index expressions with a set of symbolic solvers, normal forms and
analyses over integers (`src/arith`), and stores its artefacts as JSON
(`3rdparty/picojson`). The compiler relies on each of them to keep the meaning of an
expression, a system of constraints or a document. This project models those
algorithms in Dafny and proves that they do, for every input and every valuation of
the variables; where the code does not, it states exactly when it does.

`dafny verify dfyconfig.toml` checks everything.

## How the model is laid out

| area | files |
|---|---|
| integer operators, division laws | `IntOperator`, `DivModLaws`, `DivModes` |
| expressions, conditions, systems, the analyzer parameter, linear forms | `Exprs`, `Constraints`, `Options`, `LinearForms`, `LinearAnalyzer` |
| Diophantine solver | `LinearAlgebra`, `SmithNormalForm`, `SmithDiagonalizer`, `EquationSolver` |
| iterator maps | `Radix`, `Fusion`, `IterSplits`, `IterInverse`, `IterCollector`, `IterMapping`, `IterMapExprs`, `IterDivision`, `IterRewriter`, `IterFuser`, `IterOffsets` |
| Fourier-Motzkin elimination and ranges | `FourierMotzkin`, `RangeSolver` |
| canonical simplifier | `CanonicalForm`, `CanonicalSum`, `SplitFolding`, `NegativeScale`, `CanonicalSimplifier`, `ReduceCombiner` |
| transitive comparison | `Comparisons`, `TransitiveComparison` |
| modular sets | `ModularSet`, `ModularSetAnalyzer` |
| bound deduction | `BoundDeducer` |
| and-of-ors | `AndOfOrs`, `CnfSimplifier` |
| JSON | `JsonText`, `JsonRoundTrip`, `JsonInput` |

Conventions:

- A TIR integer expression is the datatype `Expr`, its value under a valuation is
  `Eval`; conditions are `Cond` and `Holds`. Integers are mathematical integers.
  Dividing by zero, which TIR leaves without meaning, evaluates to 0.
- The rewrite simplifier, the prover, the linear-form detector and the interval
  evaluator are parameters (`Analyzer`, `Oracle`, `Rewriter`). Every theorem holds for
  every such parameter that is sound, that is, whose answers are true of the
  valuations considered. Two clauses about the inequality solvers ask more of the
  analyzer, and say so: that the detector is exact about absence on simplified
  expressions, and that constant widths are bounded. The linear-form detector itself is
  modelled; `ConcreteAnalyzerSound` shows that an analyzer built on it is sound, and
  `LinearAnalyzerMeets` that one which also collects terms meets everything asked.
- Code that updates vectors, matrices or maps in place is modelled by methods and
  classes proved against functions of the old state; the theorems are lemmas about
  those functions. A failed internal check of the original, which stops the program,
  is a failure result or a precondition here.
- Iterator marks are compared by structure; in `IterInverse` nodes have identities, so
  sharing in the expression graph is kept.

## Where the code and its promise differ

Each item names the member that shows the failure on an input of the code and the one
that gives the exact condition.

- A range that mentions an unknown is emitted by the equation solver with the old unknown
  in it, so the new system admits points that are no solutions (`TriangleFails`). A new
  solution gives an old one exactly when it puts the unknowns in their ranges; when no
  range mentions an unknown it always does (`SolveLinearEquations`).
- Dividing an iterator split plus an offset, with no padding recorded (the bijective pass),
  drops an offset that the divisor does not divide and ignores how far the mark reaches:
  (x + 1) // 2 with 0 <= x < 4 becomes x // 2, which is wrong at x = 1 (`HalfOfNext`).
  For x in [0, n), c above 1 and any b, the whole run of `Rewrite` on (x + b) // c is right
  exactly when b modulo c plus the lesser of n and c is at most c, and on (x + b) % c
  exactly when c divides b (`RewriteShifted`, `ShiftedExactness`). For every split, and
  every sign of scale and divisor, `DivisionExactness` says exactly when quotient and
  remainder keep the value and positive factors.
- The bijective coverage check depends on the order of the list: a split of extent 1 listed
  after the split that starts at the same lower factor makes it reject splits that tile the
  mark (`UnitSplitRejected`). `TryNormalizeSplits` states exactly what is accepted, and
  without unit extents that is every tiling (`ProperTilingFits`).
- Folding a flooring division or remainder into a split with a negative scale gives a
  wrong value unless the lower factor is 1 (`FoldDivExactness`, `FoldModExactness`;
  truncation is always right). `ScaledFloorExactness` carries this to the expressions
  (x // l) * s // c.
- The ranges of names that are not solved for do not reach the system returned by
  `SolveInequalitiesToRange`, although a comment there says they do
  (`ParameterRangesDropped`); the output has the input's solutions exactly on the
  valuations that respect the input ranges.
- A modular-set entry with a negative modulus flips the sign of the remainder: it
  contains the intended numbers exactly when twice the remainder is divisible
  (`NegativeModulus`, and `MatchMeans` for constraints). The "empty" modular set is the
  class of the number 1.
- `Let` on a name that already has a modular set is visited with the old set, which is
  right exactly when the old set contains the new value (`LetRebound`).
- Overriding the modular set of a variable inside a constraint on it: leaving the
  constraint brings the old set back. That is right exactly when the new set, cut down by
  what stays open, lies within the old one (`Update`; `OverrideInside` and `OverrideWrong`
  for the shortest such runs).
- When two or more conjuncts have more than two disjuncts each, the rewriter can make a
  chunk repeat an expression; the across-chunk step then counts it twice and changes the
  formula (`WideConditionBreaks`, on the conditions of `BrokenCondition`; the failing rewriter is sound everywhere and has the
  identity as its first simplification, so this shows what soundness of the rewriter does
  not exclude, not a failure with TVM's own rules). `StepExact` gives the exact condition for one step; with
  at most one such conjunct no run goes wrong (`SimplifyAsAndOfOrs`).
- Deduced lower bounds are exact only where the divisibility of the bound was decided
  correctly, and dividing by an operand whose interval is the point 0 is treated like
  dividing by a positive one, which is never exact (`UndecidedDivisibility`); without such an
  operand a prover that is only sound gives an interval that contains only solutions
  (`DeduceBound`).
- The linear-form detector reports the coefficient 0 for x - x (`UnsimplifiedDifference`). So
  an inequality left for the next elimination no longer mentions the eliminated variable only
  because it was simplified first: `Eliminate` states this for simplifiers on whose results a
  zero coefficient means absence.
- An equality x == y + c is read as x != y + d for every other d, although the order is
  known (`SingleExact`).
- A key list built from an initializer list with a repeated key lists it twice
  (`OrderedObject.FromList`); objects in the round trip have distinct keys.

## Model

| member | source | states |
|---|---|---|
| IntOperator.TruncLaw | src/arith/int_operator.h:86-94 | quotient times divisor plus remainder is the dividend; the remainder is smaller than the divisor and has the dividend's sign |
| IntOperator.FloorLaw | src/arith/int_operator.h:102-119 | the floor quotient and remainder rebuild the dividend, and the remainder lies between 0 and the divisor on the divisor's side, for both signs |
| IntOperator.FloorUnique | src/arith/int_operator.h:102-119 | those two laws determine the quotient and the remainder |
| IntOperator.ExtendedEuclidean | src/arith/int_operator.h:129-163 | the result is a common divisor and equals a*x + b*y for the returned x, y; it is 0 only for 0, 0 and non-negative when b is |
| IntOperator.BezoutIsGcd | src/arith/int_operator.h:121-163 | every common divisor divides such a value, so up to sign it is the greatest |
| IntOperator.ZeroAwareGCD | src/arith/int_operator.h:171-183 | the loop computes the non-negative gcd of any two integers, zero and negative included |
| IntOperator.GcdGreatest | src/arith/int_operator.h:165-183 | every common divisor divides the gcd |
| IntOperator.LeastCommonMultiple | src/arith/int_operator.h:191-194 | for operands of any signs, not both zero: a common multiple that divides every common multiple, positive for positive operands |
| LinearForms.VisitSplits | src/arith/detect_linear_equation.cc:49-143 | the visitors split every expression they accept into a coefficient times the variable and a base, both free of the variable |
| LinearForms.DetectLinearEquation | src/arith/detect_linear_equation.cc:145-172 | an answer is a linear form: coefficients and base free of all the variables, with the value of the expression |
| LinearForms.ConcreteAnalyzerSound | src/arith/solve_linear_inequality.cc:190-191 | the soundness asked of the analyzer is met by one that detects linear forms, decides comparisons of constants and knows ranges |
| LinearAnalyzer.LinearReportsAbsence | src/arith/solve_linear_inequality.cc:128-171 | for an analyzer that collects linear terms: on every expression it simplifies, the detector reports a zero coefficient only for a variable that does not occur |
| LinearAnalyzer.UnsimplifiedDifference | src/arith/detect_linear_equation.cc:49-172 | without simplification the detector reports the coefficient 0 for x - x |
| LinearAnalyzer.BoundsConstantWidth | src/arith/int_constraints.cc:128-202 | that analyzer bounds the difference of the two ends of every range with a constant extent, for every coefficient |
| LinearAnalyzer.LinearAnalyzerMeets | src/arith/solve_linear_inequality.cc:189-436 | it is sound and meets the two further conditions of the inequality solvers on every system whose ranges mention no solved variable and whose solved variables have constant extents |
| LinearAlgebra.ColumnsKeepDot | src/arith/solve_linear_equation.cc:167-200 | a column step of determinant -1 and its inverse on the vector leave every row's value unchanged |
| LinearAlgebra.RowsEquivalent | src/arith/solve_linear_equation.cc:109-140 | two rows combined by a step of determinant -1 hold exactly when the two originals do |
| SmithNormalForm.RowStepKeeps | src/arith/solve_linear_equation.cc:109-140 | a row step keeps the representation: S x' = y' holds exactly when A x = y does, and V x' is still x |
| SmithNormalForm.ColStepKeeps | src/arith/solve_linear_equation.cc:167-200 | a column step on S and V with the inverse step on x' keeps the representation |
| SmithNormalForm.SwapRowsKeeps | src/arith/solve_linear_equation.cc:66-68 | exchanging rows with their right-hand sides keeps the representation |
| SmithDiagonalizer.Multipliers | src/arith/solve_linear_equation.cc:98-120 | the multipliers have determinant -1, clear the other entry, keep the pivot nonzero and make it strictly smaller unless the division is exact |
| SmithDiagonalizer.RankDrops | src/arith/solve_linear_equation.cc:204-208 | repeating an iteration strictly lowers the rank of the column: the smallest nonzero magnitude drops, or an all-zero column has become nonzero |
| SmithDiagonalizer.Diagonalizer.CombineRows | src/arith/solve_linear_equation.cc:123-140 | the in-place loop over two rows performs the whole row step although it starts at the pivot column |
| SmithDiagonalizer.Diagonalizer.CombineColumns | src/arith/solve_linear_equation.cc:179-200 | the in-place loops over two columns of S and V perform the whole column step |
| SmithDiagonalizer.Diagonalizer.ExchangeColumns | src/arith/solve_linear_equation.cc:75-82 | the partial swap is a full exchange of the two columns |
| SmithDiagonalizer.Diagonalizer.PlacePivot | src/arith/solve_linear_equation.cc:56-92 | the representation is kept, the pivot has the smallest nonzero magnitude of its column, and a zero pivot means that row and column are zero |
| SmithDiagonalizer.Diagonalizer.ClearColumn | src/arith/solve_linear_equation.cc:96-142 | the column below the pivot becomes zero, the representation is kept and the pivot does not grow |
| SmithDiagonalizer.Diagonalizer.ClearRow | src/arith/solve_linear_equation.cc:144-202 | the row right of the pivot becomes zero; when the column may have been disturbed the pivot is strictly smaller |
| SmithDiagonalizer.Diagonalizer.Diagonalize | src/arith/solve_linear_equation.cc:41-210 | terminates, represents the original system throughout (S x' = y' iff A x = y, V x' = x) and ends with S zero off the diagonal |
| EquationSolver.ExtractRows | src/arith/solve_linear_equation.cc:299-332 | the matrix rows and the leftover relations together say what the relations say |
| EquationSolver.ExistenceRelations | src/arith/solve_linear_equation.cc:351-374 | the emitted zero and divisibility relations hold exactly when every diagonal row has a solution |
| EquationSolver.SolveEntries | src/arith/solve_linear_equation.cc:387-412 | each entry is a new free variable or the quotient its pinned row forces |
| EquationSolver.Backward | src/arith/solve_linear_equation.cc:339-457 | a solution of the new system gives a solution of the old one exactly when it puts the unknowns in their ranges, which it does when the unknowns that ranges mention keep their values |
| EquationSolver.SolveLinearEquations | src/arith/solve_linear_equation.cc:268-457 | complete: old solutions map to new solutions and come back to themselves; sound: with ranges that mention no unknown every new solution gives an old one, and otherwise exactly those that put the unknowns in their ranges; an unsolvable system gives an unsatisfiable one |
| EquationSolver.TriangleFails | src/arith/solve_linear_equation.cc:430-447 | the solver run on j in [0, i) without equations: complete but not sound |
| Radix.DigitsOfCompose | src/arith/iter_affine_map.cc:602-605 | splits whose factors form a chain read independent digits |
| Radix.ComposeOfDigits | src/arith/iter_affine_map.cc:602-605 | without gaps the digits determine the number |
| IterSplits.SearchSkipLowerFactor | src/arith/iter_affine_map.cc:542-559 | finds an unused split all of whose unused competitors start at a multiple of the expected factor, with the smallest lower factor where they are comparable |
| IterSplits.TryNormalizeSplits | src/arith/iter_affine_map.cc:571-668 | an accepted mark: the map from source value to split values is onto the product of the extents at every level, and one to one at the bijective level; the bijective level accepts exactly the lists with a gap-free tiling of the extent that keeps the listed order of equal lower factors |
| IterSplits.ProperTilingFits | src/arith/iter_affine_map.cc:578-605 | without unit extents every tiling is accepted |
| IterSplits.UnitSplitRejected | src/arith/iter_affine_map.cc:578-605 | with a unit extent listed late a tiling is rejected |
| IterSplits.RepeatIsUnit | src/arith/iter_affine_map.cc:578-605 | in a gap-free tiling only a split of extent 1 can stand twice |
| IterCollector.IterMarkSplitCollector.Collect | src/arith/iter_affine_map.cc:144-174 | the collector notes the splits that refer to each mark in the order of the traversal, once for every place where one is an argument |
| IterCollector.RootsComplete | src/arith/iter_affine_map.cc:144-174 | every argument of every index and of the source of every visited mark is noted, and the marks of all noted splits are visited |
| IterCollector.RootsSound | src/arith/iter_affine_map.cc:144-174 | every use noted is an argument of a sum that the propagation visits |
| IterInverse.Search.Visit | src/arith/iter_affine_map.cc:2604-2621 | the depth-first visit appends each reachable node once, after all its children |
| IterInverse.ReverseTopologyOrder | src/arith/iter_affine_map.cc:2599-2627 | the reversed post-order visits each reachable node exactly once and only after all its users |
| IterInverse.CheckFusePattern | src/arith/iter_affine_map.cc:2649-2658 | accepts exactly the sums whose scales are the products of the inner extents |
| IterInverse.FusedArgument | src/arith/iter_affine_map.cc:2588-2596 | dividing a fused sum by an argument's scale and reducing by its extent recovers the argument |
| IterInverse.CoveredSum | src/arith/iter_affine_map.cc:2629-2643 | the accumulated contributions of the splits of a covered mark rebuild its source |
| IterInverse.Inverter.VisitSum | src/arith/iter_affine_map.cc:2570-2597 | the step on a sum node, with the checks that stop the original |
| IterInverse.Inverter.VisitSplit | src/arith/iter_affine_map.cc:2629-2643 | the step on a split node |
| IterInverse.InverseOfForward | src/arith/iter_affine_map.cc:2544-2658 | back-propagating the forward values recovers every source variable, at every point of the domain of a covered iter map; splits of extent 1 may be shared |
| IterInverse.InverseAffineIterMap | src/arith/iter_affine_map.cc:2544-2668 | the whole transformer returns such an inverse whenever its checks pass, for every coverage of the map |
| IterMapping.CheckMapping | src/arith/iter_affine_map.cc:266-287 | the bijective check accepts exactly when the splits collected for every visited mark, one for each occurrence and in the order of the collection, tile its extent and every input mark is visited or takes one value |
| IterMapping.AcceptedUsedOnce | src/arith/iter_affine_map.cc:234-287 | acceptance itself excludes that a split with more than one value is an argument twice |
| IterMapping.FlatInRange | src/arith/iter_affine_map.cc:1206-1232 | a fused mark without offset whose scales are the products of the inner extents has its value in its range |
| IterMapping.CheckedIsCovered | src/arith/iter_affine_map.cc:266-287 | acceptance gives the coverage the inverse needs: each visited mark has a gap-free chain of exactly its visited splits, and every input takes one value or has a chain |
| IterMapping.InverseOfChecked | src/arith/iter_affine_map.cc:2544-2668 | checking the map and inverting it succeeds exactly when the check accepts and no internal check stops the propagation, and then, for objects shared and sums fused as the rewriter does, recovers every input iterator wherever the iterators are in range, with no coverage assumed |
| IterDivision.DivideSplitValue | src/arith/iter_affine_map.cc:1862-2034 | dividing a split plus an offset by a constant gives the quotient or remainder, with positive factors, wherever the condition holds; every scale case and sign |
| IterDivision.DivisionExactness | src/arith/iter_affine_map.cc:1736-2034 | whenever a rule answers, on a mark that takes all its values, it keeps the value and positive factors exactly under that condition |
| IterOffsets.ShiftedExactness | src/arith/iter_affine_map.cc:1862-2034 | for an iterator x in [0, n) and c above 1 the visitors rewrite (x + b) // c and (x + b) % c rightly at every point exactly when b modulo c plus the lesser of n and c is at most c, and when c divides b |
| IterOffsets.RewriteShifted | src/arith/iter_affine_map.cc:1862-2034 | the same for the sum that the whole run of Rewrite returns, which it always does |
| IterOffsets.HalfOfNext | src/arith/iter_affine_map.cc:1862-1934 | (x + 1) // 2 with 0 <= x < 4 is rewritten to x // 2, which is 0 instead of 1 at x = 1 |
| IterDivision.UnpaddedSame | src/arith/iter_affine_map.cc:1736-1777 | where nothing needs padding the pass that collects padding computes the same |
| IterMapExprs.ConvertSplitValue | src/arith/iter_affine_map.cc:2105-2128 | the three printed forms of a split have its value |
| IterMapExprs.ConvertSumValue | src/arith/iter_affine_map.cc:2096-2128 | converting a sum back to an expression keeps its value over the iterator box |
| IterRewriter.FindBaseIter | src/arith/iter_affine_map.cc:860-901 | finds a candidate of the smallest scale, or that there is none |
| IterRewriter.FindIterWithExactScale | src/arith/iter_affine_map.cc:930-957 | finds a candidate of the wanted scale, a unit extent first, or that there is none |
| IterRewriter.MergeValue | src/arith/iter_affine_map.cc:1029-1050 | two adjacent splits of one source have the value of their merge |
| IterRewriter.TryCombineSplitFromSameSource | src/arith/iter_affine_map.cc:997-1084 | answers exactly when two splits share a source, terminates, and keeps the value of the sum and the well-formedness of its splits |
| IterRewriter.FlatBound | src/arith/iter_affine_map.cc:1206-1232 | a flattened sum stays within 0 and the product of its extents |
| IterRewriter.FusedValue | src/arith/iter_affine_map.cc:1099-1233 | one mark scaled by the base scale has the value of the whole sum |
| IterFuser.AddToLhs | src/arith/iter_affine_map.cc:1240-1261 | adding or subtracting a split, merged or appended, changes the value by exactly that split |
| IterFuser.AddSumToLhs | src/arith/iter_affine_map.cc:1263-1272 | adding or subtracting a sum changes the value by exactly that sum |
| IterFuser.MulToLhs | src/arith/iter_affine_map.cc:1274-1281 | multiplying by a constant multiplies the value |
| IterFuser.IterMapRewriter.TryFuseIters | src/arith/iter_affine_map.cc:1099-1233 | the fused sum is one split, the same whether it comes from the cache or is new, and has the value of the sum |
| IterFuser.IterMapRewriter.Mutate | src/arith/iter_affine_map.cc:1564-2070 | the visitors over +, -, *, // and % give a well-formed result with the value of the expression over the box, whenever every division of the expression is right for the split it meets |
| IterFuser.IterMapRewriter.Rewrite | src/arith/iter_affine_map.cc:218-220 | for every such expression, rewriting an index and converting it back keeps its value at every point of the iterator box |
| FourierMotzkin.NormalizeHolds | src/arith/solve_linear_inequality.cc:81-100 | normalising comparisons keeps truth and adds no variable |
| FourierMotzkin.AddInequality | src/arith/solve_linear_inequality.cc:102-126 | the pruned set says what the old set and the new inequality say together, although elements are erased while iterating |
| FourierMotzkin.ClassifyByPolarity | src/arith/solve_linear_inequality.cc:128-171 | the four containers say what the formulas say; polarities have the right sign and no longer mention the variable |
| FourierMotzkin.CombinationHolds | src/arith/solve_linear_inequality.cc:244-260 | the combination of two opposite inequalities is a consequence of them |
| FourierMotzkin.BoundMeans | src/arith/solve_linear_inequality.cc:265-303 | the lcm-scaled bound says exactly what the inequality says |
| FourierMotzkin.AddBound | src/arith/solve_linear_inequality.cc:281-322 | pruning dominated bounds keeps what the bounds say |
| FourierMotzkin.MoveEquality | src/arith/solve_linear_inequality.cc:173-187 | moving matched bounds to equalities keeps what the bounds say, and leaves no match |
| FourierMotzkin.SortByComplexity | src/arith/solve_linear_inequality.cc:324-328 | the equalities are permuted into order of complexity |
| FourierMotzkin.AsConditionsHold | src/arith/int_constraints.cc:48-73 | the conditions of the groups hold exactly when the groups and the leftover relations do |
| FourierMotzkin.Eliminate | src/arith/solve_linear_inequality.cc:222-338 | eliminating one variable keeps the meaning within the ranges and its bounds imply its range; if its range and the formulas so far mention no variable eliminated before, and the detector reports a zero coefficient only for variables absent from those formulas, neither its bounds nor what remains mention it |
| FourierMotzkin.SolveLinearInequalities | src/arith/solve_linear_inequality.cc:189-360 | within the given ranges the relations hold exactly when all returned bounds and leftover conditions do; the bounds are triangular when the ranges do not mention the variables and the detector is exact about absence on simplified expressions, as that of `LinearAnalyzerMeets` is |
| RangeSolver.PlusRangeMeans | src/arith/int_constraints.cc:102-118 | adding a range to group bounds is the conjunction of the two |
| RangeSolver.FindBestRange | src/arith/int_constraints.cc:128-202 | every value whose multiple by a positive coefficient meets all bounds lies in the returned range |
| RangeSolver.BackInRange | src/arith/solve_linear_inequality.cc:365-436 | for ranges that mention no solved variable, and bounds that are triangular and imply each its range, back substitution from the last variable puts every variable in its range |
| RangeSolver.SolveInequalitiesToRange | src/arith/solve_linear_inequality.cc:365-436 | input solutions are the output solutions within the input ranges; where the parameters are in range and no range is empty the two systems have the same solutions, if ranges mention no variable and the analyzer is exact about absence on simplified expressions and bounds the widths, as that of `LinearAnalyzerMeets` does; a proved empty range means no solutions |
| RangeSolver.ParameterRangesDropped | src/arith/solve_linear_inequality.cc:366-369 | the solver run on a range of a name that is not solved for: every valuation satisfies the answer |
| DivModes.ModSplitBy | src/arith/canonical_simplify.cc:421-438 | (x % (c*s)) / c is (x / c) % s in both division modes |
| DivModes.NestedBy | src/arith/canonical_simplify.cc:415-464 | (x / (s*k)) * s + (x % (s*k)) / k is x / k, and x % (s*k) % k is x % k, in both division modes and for all signs of the factors |
| CanonicalForm.AddSplitValue | src/arith/canonical_simplify.cc:298-323 | adding a split with a scale changes the value by exactly that, in both modes |
| CanonicalForm.AddSplitSegmented | src/arith/canonical_simplify.cc:298-323 | equal indices stay neighbours in descending order of lower factor |
| CanonicalForm.AddSumValue | src/arith/canonical_simplify.cc:527-534 | adding a sum with a scale: exact value, canonical order kept |
| CanonicalForm.MulSumValue | src/arith/canonical_simplify.cc:270-275 | multiplying multiplies the value |
| CanonicalForm.DivideSumValue | src/arith/canonical_simplify.cc:280-287 | exact division is undone by multiplication |
| CanonicalForm.JoinValue | src/arith/canonical_simplify.cc:415-464 | joining two splits of one index keeps their sum in both modes, for factors of any sign, and keeps the factor invariant |
| CanonicalForm.SimplifySplitExprsValue | src/arith/canonical_simplify.cc:399-494 | merging and sorting keep the value of the sum, and the result is sorted |
| CanonicalForm.NormalizeSumValue | src/arith/canonical_simplify.cc:248-254 | the expression a sum normalises to has its value |
| CanonicalSum.SumExprNode.AddToSelf | src/arith/canonical_simplify.cc:298-323 | the in-place insertion computes the specified list |
| CanonicalSum.SumExprNode.AddSumToSelf | src/arith/canonical_simplify.cc:527-534 | the in-place addition of a sum: value, order and validity |
| CanonicalSum.SumExprNode.MulToSelf | src/arith/canonical_simplify.cc:270-275 | the in-place multiplication multiplies the value |
| CanonicalSum.SumExprNode.DivideBy | src/arith/canonical_simplify.cc:280-287 | the in-place exact division |
| CanonicalSum.SumExprNode.SimplifyArgs | src/arith/canonical_simplify.cc:399-494 | the nested merging loops and the stable sort compute the specified list and keep the value |
| NegativeScale.SplitDivConstValue | src/arith/canonical_simplify.cc:845-885 | dividing a split by a positive constant gives a valid split, and the floor or trunc quotient wherever the fold is right |
| NegativeScale.SplitModConstValue | src/arith/canonical_simplify.cc:1071-1123 | the same for the remainder |
| NegativeScale.FoldDivExactness | src/arith/canonical_simplify.cc:849-877 | for positive factors, folding a division is right for every index value exactly when it is not a flooring that cancels a negative scale over a lower factor above 1 |
| NegativeScale.FoldModExactness | src/arith/canonical_simplify.cc:1075-1115 | for positive factors, the exact condition for remainders, in each branch |
| CanonicalSimplifier.SeparateValue | src/arith/canonical_simplify.cc:821-843 | the two parts add up to the sum and the divisible one is the divisor times its exact quotient |
| CanonicalSimplifier.DivCanonValue | src/arith/canonical_simplify.cc:947-1069 | the Div and FloorDiv visitors compute the quotient wherever the fold they end in is right |
| CanonicalSimplifier.ModCanonValue | src/arith/canonical_simplify.cc:1125-1261 | the Mod and FloorMod visitors compute the remainder wherever the fold they end in is right |
| CanonicalSimplifier.SimplifyValue | src/arith/canonical_simplify.cc:579-592 | canonicalising and normalising keep the value of every expression each of whose divisions folds rightly, whatever the signs of the scales and of the factors that arise |
| CanonicalSimplifier.ScaledFloorExactness | src/arith/canonical_simplify.cc:845-885 | without bounds the simplifier keeps (x // l) * s // c, with l above 1 and s negative, for every x exactly when s does not divide c or c divides s |
| ReduceCombiner.Marker.MarkUsed | src/arith/canonical_simplify.cc:1276-1296 | everything marked by the call is closed under dependence, and nothing outside a closed set is marked |
| ReduceCombiner.FoldProjects | src/arith/canonical_simplify.cc:1265-1335 | folding the projected combiner over any points is projecting the full fold |
| ReduceCombiner.SimplifyReduceCombiner | src/arith/canonical_simplify.cc:1265-1335 | the kept set is the least closed one; the reduced value is unchanged and the adjusted index selects the same component |
| Comparisons.ImpliesExact | src/arith/transitive_comparison_analyzer.cc:479-526 | Implies is exactly integer entailment between normalised comparisons of two distinct terms |
| Comparisons.MergeComparisons | src/arith/transitive_comparison_analyzer.cc:818-873 | the true order is in the merged result, which excludes an outcome exactly when one of the facts does |
| Comparisons.SingleExact | src/arith/transitive_comparison_analyzer.cc:824-868 | one fact is read as precisely as possible, except an equality with another offset |
| Comparisons.ComposeSound | src/arith/transitive_comparison_analyzer.cc:739-777 | composing two facts through a middle term is sound |
| TransitiveComparison.DeclareInList | src/arith/transitive_comparison_analyzer.cc:684-714 | the updated list is equivalent to the old facts plus the new one |
| TransitiveComparison.DeclareKnown | src/arith/transitive_comparison_analyzer.cc:684-714 | a key is queued only when first seen; other lists are untouched |
| TransitiveComparison.SearchFrom | src/arith/transitive_comparison_analyzer.cc:676-816 | the search terminates, everything it returns follows from the known facts, and every direct fact and every composition of two facts between the keys is implied by an entry it returns |
| TransitiveComparison.TransitiveComparisonAnalyzer.FromExpr | src/arith/transitive_comparison_analyzer.cc:366-398 | the comparison has the truth of the condition |
| TransitiveComparison.TransitiveComparisonAnalyzer.Bind | src/arith/transitive_comparison_analyzer.cc:558-584 | binding keeps every known fact a consequence of the current bindings, also when it overrides |
| TransitiveComparison.TransitiveComparisonAnalyzer.EnterConstraint | src/arith/transitive_comparison_analyzer.cc:591-601 | the open constraints grow by one and every scoped fact follows from them |
| TransitiveComparison.TransitiveComparisonAnalyzer.Recover | src/arith/transitive_comparison_analyzer.cc:596-600 | leaving restores the scoped facts and the open constraints |
| TransitiveComparison.TransitiveComparisonAnalyzer.TryCompare | src/arith/transitive_comparison_analyzer.cc:603-641 | wherever all bindings and open constraints hold, the true order is among the outcomes returned; the result is at least as precise as the reading of every known fact between the two expressions, and when propagating of a fact at least as strong as it and as every chain of two |
| ModularSet.MakeMeans | src/arith/modular_set.cc:73-92 | with a non-negative modulus the constructor keeps the residue class |
| ModularSet.NegativeModulus | src/arith/modular_set.cc:73-92 | with a negative modulus the class contains the intended numbers exactly when twice the remainder is divisible |
| ModularSet.UnionSound | src/arith/modular_set.cc:331-345 | the union contains both classes |
| ModularSet.DivSound | src/arith/modular_set.cc:185-200 | the class of a quotient, flooring or truncating, contains it |
| ModularSet.ModSound | src/arith/modular_set.cc:236-245 | the class of a remainder contains it |
| ModularSet.VisitSound | src/arith/modular_set.cc:140-283 | the class of every expression contains its value wherever the classes of the variables admit the valuation and rebound let names keep to their classes |
| ModularSet.UniqueIsRight | src/arith/modular_set.cc:140-151 | lets on names without a class are always visited rightly |
| ModularSet.LetRebound | src/arith/modular_set.cc:140-151 | a let on a name with a class is right exactly when the class contains the new value |
| ModularSetAnalyzer.Intersect | src/arith/modular_set.cc:352-372 | a number is in the result exactly when it is in both classes; Nothing is returned only for classes without a common number |
| ModularSetAnalyzer.MatchMeans | src/arith/modular_set.cc:121-135 | a satisfied constraint puts the variable in the matched class exactly when the modulus is positive or twice the remainder is divisible |
| ModularSetAnalyzer.Analyzer.Update | src/arith/modular_set.cc:107-118 | a new binding keeps every entry and pending recovery a consequence of the bindings and open constraints; an override does so exactly when the new class, cut down by what stays open, is in every class to be restored |
| ModularSetAnalyzer.RestorableClass | src/arith/modular_set.cc:107-118 | a class inside the one to be restored qualifies, and only such a class when no constraint on the variable stays open |
| ModularSetAnalyzer.OverrideInside | src/arith/modular_set.cc:316-325 | bind, enter, override, leave: the class that is back is right exactly when the new class is within the old one, whatever the modulus of the constraint |
| ModularSetAnalyzer.Analyzer.EnterConstraint | src/arith/modular_set.cc:121-135 | for every modulus but 0 the entry is narrowed to the exact intersection with the constructed class; the state stays right when the constructor keeps the class, and otherwise is wrong whenever some number is left for the variable and the intersection is not empty |
| ModularSetAnalyzer.Analyzer.Recover | src/arith/modular_set.cc:316-325 | leaving restores the old entry, and all entries follow from what is still open |
| ModularSetAnalyzer.Analyzer.Query | src/arith/modular_set.cc:385-388 | after any well-nested run that stays valid, the set of an expression contains its value for every valuation meeting the bindings and open constraints |
| BoundDeducer.InvertExact | src/arith/bound_deducer.cc:107-211 | inverting one operator, for operands of either sign and on either side: the new comparison implies the old one, and is equivalent where the divisibility decision is right, which only lower bounds and equalities need; operands known to be 0 are excluded |
| BoundDeducer.TransformExact | src/arith/bound_deducer.cc:270-331 | moving the target's side to the left and removing strict comparisons keeps the truth |
| BoundDeducer.WalkExact | src/arith/bound_deducer.cc:86-211 | the comparison deduced for the target implies the original one, and holds exactly where that does when the decisions are right |
| BoundDeducer.Deducer.Visit | src/arith/bound_deducer.cc:86-211 | the visitor that updates result, direction and success computes the walk, with all four signs an operand can have |
| BoundDeducer.DeduceBound | src/arith/bound_deducer.cc:333-389 | on success, unless an operand on the way is known to be 0, the interval holds only solutions wherever the answers of the prover are true; it holds exactly the solutions wherever the divisibility decisions are right; it succeeds exactly when the target occurs once and every operator on the way to it can be inverted |
| BoundDeducer.UndecidedDivisibility | src/arith/bound_deducer.cc:125-163 | inverting a multiplication, for every sign of the operand and every direction, is exact exactly when the operand is not known to be 0 and the divisibility decision is right |
| AndOfOrs.PartsHold | src/arith/conjunctive_normal_form.cc:173-215 | distributing to and-of-ors and to or-of-ands keeps the truth of a condition |
| AndOfOrs.WithinHolds | src/arith/conjunctive_normal_form.cc:286-297 | simplifying pairs within a chunk keeps the chunk |
| AndOfOrs.DistinctIsClean | src/arith/conjunctive_normal_form.cc:349-357 | chunks without repetitions that count as differing in one expression do share all others |
| AndOfOrs.AcrossPairHolds | src/arith/conjunctive_normal_form.cc:299-384 | absorption and the one-difference step keep the conjunction of two chunks where the step is right |
| AndOfOrs.StepExact | src/arith/conjunctive_normal_form.cc:340-379 | every rewriter sound at a valuation keeps the pair there exactly when the rests of the two chunks agree, or only the first is false and both differing expressions hold |
| AndOfOrs.RemoveTrueFalseHolds | src/arith/conjunctive_normal_form.cc:386-411 | removing literals keeps the conjunction; an empty chunk is false |
| AndOfOrs.AsCondHolds | src/arith/conjunctive_normal_form.cc:235-245 | the condition built from the chunks has their truth |
| CnfSimplifier.Formula.constructor | src/arith/conjunctive_normal_form.cc:148-171 | the chunks have the truth of the condition, no chunk repeats an expression and no two are permutations |
| CnfSimplifier.Formula.SimplifyWithinChunks | src/arith/conjunctive_normal_form.cc:286-297 | the in-place loops keep the conjunction |
| CnfSimplifier.Formula.SimplifyAcrossChunks | src/arith/conjunctive_normal_form.cc:299-384 | the in-place loops keep the conjunction where every step taken is right, and everywhere when at most one chunk has more than two expressions |
| CnfSimplifier.SimplifyAsAndOfOrs | src/arith/conjunctive_normal_form.cc:436-441 | wherever the rewriter is sound the result has the truth of the condition, if at most one conjunct of the simplified condition has more than two distinct disjuncts, or if every across-chunk step taken is right there |
| CnfSimplifier.NarrowSimplified | src/arith/conjunctive_normal_form.cc:279-284 | the first of these, on the input alone |
| CnfSimplifier.WideConditionBreaks | src/arith/conjunctive_normal_form.cc:286-379 | two conjuncts of three disjuncts, and a rewriter that is sound everywhere and first simplifies nothing: the whole run changes the condition |
| JsonRoundTrip.QuotedRoundTrip | 3rdparty/picojson/picojson.h:646-684 | a printed string is read back, whatever bytes it holds |
| JsonRoundTrip.DecimalRoundTrip | 3rdparty/picojson/picojson.h:599-604 | every int64 is read back from its decimal text |
| JsonRoundTrip.BodyRoundTrip | 3rdparty/picojson/picojson.h:700-783 | a printed value at any position of any text is read back by every parser that follows the grammar |
| JsonRoundTrip.ParserObeys | 3rdparty/picojson/picojson.h:962-1079 | the parser follows the grammar |
| JsonRoundTrip.RoundTrip | 3rdparty/picojson/picojson.h:686-783 | parsing the compact or prettified serialisation of any value returns the value, keys in the same order |
| JsonRoundTrip.Utf8Encodes | 3rdparty/picojson/picojson.h:877-917 | the bytes written for an escape are the shortest UTF-8 encoding of its code point |
| JsonInput.Input.Getc | 3rdparty/picojson/picojson.h:801-814 | the lazy cursor refines a plain position: the byte there is returned and the position advances, or stays at the end |
| JsonInput.Input.Ungetc | 3rdparty/picojson/picojson.h:815-815 | gives back the byte handed out last, if there was one |
| JsonInput.Input.ParseText | 3rdparty/picojson/picojson.h:920-960 | the loop over a string agrees with the parser function |
| JsonInput.Parse | 3rdparty/picojson/picojson.h:1026-1079 | recursive descent over the cursor agrees with the parser function, position included |
| JsonInput.ParsePrinted | 3rdparty/picojson/picojson.h:686-1079 | printing a value and parsing the text with the cursor returns the value |
| JsonInput.OrderedObject.FromList | 3rdparty/picojson/picojson.h:250-255 | every key is listed and the first value counts; map and list are in step exactly when no key is repeated |
| JsonInput.OrderedObject.Set | 3rdparty/picojson/picojson.h:269-274 | map and key list stay in step; a new key goes last, a known key keeps its place |
| JsonInput.OrderedObject.Insert | 3rdparty/picojson/picojson.h:285-290 | a known key keeps its value and its place |
| JsonInput.OrderedObject.Erase | 3rdparty/picojson/picojson.h:307-314 | the key leaves map and list, the other keys keep their order |

## Left out

- The rules of the rewrite simplifier, `Analyzer::Simplify`, `CanProve` and `EvalSet`: parameters assumed sound.
- Dtypes, casts, int64 overflow, vectors, scalable vectors, buffer loads and intrinsic calls (shift and bitwise-and in the modular sets among them).
- Iterator padding (`PadDividendToDivisor` with recorded padding, padding predicates), iterator constraints, symbolic factors, the inexact-scale branch of `TryFuseIters` and `SubspaceDivide`.
- IterFuser.IterMapRewriter.Mutate: sub-expressions the original leaves unresolved, free variables included, make the rewriting fail here.
- IterFuser.IterMapRewriter.TryFuseIters: exact scale matching only, and no iterator constraints.
- IterMapping.InverseOfChecked: that the rewriter makes one object per mark and per index (one mark per source, no index used as a source) and fuses sums flat is a hypothesis; it is not derived from a run of the rewriter.
- FourierMotzkin.SolveLinearInequalities: that the bounds mention only later variables needs ranges that do not mention the variables and, on simplified expressions, a detector that reports a zero coefficient only for an absent variable; that TVM's own simplifier provides this is not shown.
- RangeSolver.SolveInequalitiesToRange: equality of the solution sets without reference to the input ranges of the solved variables needs those conditions and the bounded widths, because the returned system does not repeat an input range.
- CanonicalSimplifier.SimplifyValue: a division that cancels a scale of a split which already has a negative factor counts as not right, also where it would be; the product-cancelling rule for symbolic divisors, the comparison rewrites and casts are not modelled, and a symbolic division is left as it is.
- NegativeScale.SplitModConstValue: the recursive simplification of the reduced index is a parameter that keeps values.
- ReduceCombiner.SimplifyReduceCombiner: side effects are a given flag per component; the reduction condition and axes appear as the list of points visited.
- TransitiveComparison.SearchFrom: chains of three or more facts can be missed, because a key is expanded once with what is known then; which are found depends on the order of visits, which the model leaves open.
- BoundDeducer.DeduceBound: relaxing over other variables is the identity here.
- CnfSimplifier.SimplifyAsAndOfOrs: the keys of expressions are the expressions themselves.
- JSON doubles, locale handling, streams and error texts; a number text that is no int64 fails to parse here.
- The tight modulus bounds of `const_int_bound.cc`, the second case of the less-than rewrite, `presburger_set`, half-precision conversions, and all RPC, device and scripting code.
