# Verified arithmetic core

A Dafny model of the integer reasoning in `src/arith`, of four algorithms beside it, and proofs of what they promise.
Everything is stated for all inputs, all runs or all valuations; nothing was executed.

| file | models |
|---|---|
| IntOperator, DivMode, MixedRadix, LinearAlgebra | integer operators, gcd and Bezout, laws shared by truncating and floor division, mixed-radix digits, integer matrices |
| Expr, IntConstraints, Wrappers | index expressions with their values, constraint systems and transforms, the simplifier and prover as oracles |
| SmithNormalForm, SolveLinearEquation, EquationStaleRange | diagonalisation of integer matrices and the parametrised solution of linear equations |
| SolveLinearInequality, BestRange, InequalityRanges, DeskewRange, InequalityCircularRange, DeskewOuterRange | Fourier-Motzkin elimination and the recovery of ranges |
| IterMap, IterMapBijection, IterMapDetect, IterMapRewriter | quasi-affine iterator maps and their certificate of bijectivity |
| IterMapReference, IterMapPositive, IterMapUnit, IterMapSound, IterMapMemoScale, IterMapSigns | the rewriter without its memo, conditions on the indices, what detection then means, and inputs where it goes wrong |
| IterMapAccept, IterMapCheck, IterMapDigits, IterMapFlat, IterMapOrder | what is accepted: exactly when the steps and the check succeed, indices that always do, and an input where the order decides |
| CanonicalSplit, CanonicalSum, CanonicalNormalize, CanonicalDivision, CanonicalRemainder | split and sum normal forms |
| ConstIntBound, ConstIntBoundTight, ModularSet, ModularSetLeast, ConstraintScope | the two abstract domains, when their answers are the best possible, and their scoped constraints |
| TopoSort, LayoutRewrite, AttachMap | topological sort, layout rewriting and the stage attachment map |
| PicoJson, PicoJsonRoundTrip, PicoJsonGrammar, PicoJsonParser | the JSON printer and parser, and exactly what the parser reads |

Objects that the source updates in place are classes with `modifies` clauses, loops are loops with invariants, and both are
proved equal to specification functions whose properties are lemmas. Variables are numbers, a valuation maps them to integers
(0 where it says nothing), and expressions are evaluated; division by zero evaluates to 0 and is excluded where it matters.

## What is assumed

- `Simplify` keeps the value of an expression wherever its variables, and those that their bound ranges depend on, respect
  these ranges, and adds only variables that these ranges depend on.
- `CanProve` and its variants only prove what holds on such valuations.
- `DetectLinearEquation` splits an expression exactly, and a literal 0 coefficient means that the variable does not occur.
- A covering range of `EvalSet` covers the value on in-range valuations, in terms of older variables when it is given such;
  its upper end is an upper bound there and is a finite expression.
- Lemmas named `SoundOracleExists`, `SoundRangeOracleExists` and `FoldingOracleExists` show that these hypotheses can be met.
- Variables of a system are distinct.
- Integers are unbounded; only the bound domain has the constants `kPosInf` and `kNegInf` and its overflow tests.

## Where the code does not do what it seems to

- `TryFuseIters` returns a memoised split with the scale of the sum that created it (src/arith/iter_affine_map.cc:400-405).
  `IterMap.FuseValue` states exactly when the value is kept, `IterMapReference.MemoExact` exactly when this never happens in a
  run, and `IterMapMemoScale.AcceptedButNotInjective` gives indices that are accepted although they are not injective.
- `SplitFloorDivConst` and `SplitFloorModConst` build negative lower factors and extents when scale and divisor have opposite
  signs (src/arith/iter_affine_map.cc:606-646 and 690-720), and detection accepts them. `IterMap.SplitFloorDivExact` and
  `IterMap.SplitFloorModExact` are the exact conditions, and `IterMapSigns.AcceptedWithWrongValue` is such an input.
- Detection accepts `x - x`, whose scale is 0 (`IterMapSigns.AcceptedZeroScale`); `IterMapSound.InjectiveExact` is the exact
  condition.
- `TryNormalizeSplits` takes the first split with the expected lower factor (src/arith/iter_affine_map.cc:289-310), so a split of
  extent 1 has to come before another one of its factor. `IterMapCheck.CheckExact` is the exact condition of the check, and
  `IterMapOrder.OrderMatters` has three indices that are rejected in one order and accepted in another.
- `SolveLinearEquations` copies ranges into relations without substituting the variables solved for
  (src/arith/solve_linear_equation.cc:428-444). `EquationStaleRange.StaleRange` is a system whose result, the one the steps of
  the solver give, has a solution that does not return to one. A solution returns exactly if its image is in range
  (`SolveLinearEquation.BackwardExact`), which it is if it settles the mentioned variables.
- `SolveLinearInequalities` may return conditions that hold outside the system when ranges depend on variables eliminated
  earlier: `InequalityCircularRange.CircularBounds` is a system where the steps of the solver do. It does not when they depend on
  later ones.
- A comment promises ranges of the outer variables in the result of `SolveInequalitiesDeskewRange`
  (src/arith/solve_linear_inequality.cc:490-492), but none are added; the way back is stated where they hold, and
  `DeskewOuterRange.OuterRangeDropped` is a solution of the result that does not return.
- `SplitModConst` applies the scale before the lower factor when it simplifies again (src/arith/canonical_simplify.cc:824-833),
  and folds negative scales in a way that rounds differently in floor mode; `CanonicalSplit.SplitModConstExact` is the exact
  condition.
- `SplitDivConst` in floor mode folds a negative scale into the lower factor (src/arith/canonical_simplify.cc:660-681);
  `CanonicalSplit.SplitDivConstExact` is the exact condition.
- `SimplifySplitExprs` can leave two splits that it would merge, when a fold changes a scale after the other one was passed:
  `CanonicalNormalize.MergeMissed` is 36 \* (x / 12) + 4 \* (x % 12 / 4) + 2 \* (x % 12) + x % 4. It leaves none if the splits of one
  index have different lower factors, and never two of the same factors (`CanonicalNormalize.SimplifySplitExprs`).
- `DetectBoundInfo` reads a strict comparison with a literal next to an infinity as one that is not strict
  (`ConstIntBound.DetectAtInfinity`); other comparisons with literals are read exactly (`ConstIntBound.DetectExact`).
- The union of residue classes takes the gcd of both bases and not of their distance (src/arith/modular_set.cc:283), so
  the two classes of odd numbers modulo 4 give everything (`ModularSetLeast.UnionLosesOdd`). `ModularSetLeast.UnionExact` is the
  exact condition for the least class.
- Division of a residue class gives up on negative divisors and bases and on unknown signs; `ModularSetLeast.DivByConstExact` is
  the exact condition for the least class.
- `UpdateIters` loses stages when two lists end up under one key; `AttachMaps.AttachMap.UpdateIters` has the exact condition.
- `ApplyStageIdOffset` can merge stages for a negative offset (`AttachMaps.OffsetMerges`). If no stages merge,
  `AttachMaps.AttachMap.ApplyStageIdOffset` has the exact condition. If some do, the copy depends on the order of two loops over
  hash tables: it is inverse in every order if what merges agrees, and if not then in some order it is not
  (`AttachMaps.DisagreeBreaks`).
- Leaving a modular scope stores an entry that says nothing for a variable that had none (src/arith/modular_set.cc:257-266);
  queries do not notice.

## Model

| member | source | states |
|---|---|---|
| `IntOperator.TruncModBound` | src/arith/int_operator.h:80-94 | C's quotient and remainder: exact identity, remainder smaller than the divisor and with the sign of the dividend, for all signs |
| `IntOperator.FloorDivModUnique` | src/arith/int_operator.h:96-119 | floordiv and floormod are the one quotient and remainder with the remainder between 0 and the divisor, both directions, all signs |
| `IntOperator.ExtendedEuclidean` | src/arith/int_operator.h:129-163 | the loop ends for every sign of a and b with a\*x + b\*y == g, abs(g) the gcd, g negative only for negative b |
| `IntOperator.EuclidLoopBezout` | src/arith/int_operator.h:129-163 | what the four loop variables keep: both remainders stay combinations of the inputs and the gcd never changes |
| `IntOperator.GcdIsGreatest` | src/arith/int_operator.h:165-183 | the gcd divides both numbers and every common divisor divides it |
| `IntOperator.ZeroAwareGCD` | src/arith/int_operator.h:171-183 | the swapping loop computes the gcd, with 0 when both inputs are 0 |
| `IntOperator.LcmIsLeast` | src/arith/int_operator.h:191-194 | for operands of any sign that are not both 0 the result is a common multiple and divides every common multiple |
| `IntOperator.OverflowExact` | src/arith/int_operator.h:47-59 | the addition and subtraction tests say exactly whether the result leaves the domain |
| `IntOperator.MulOverflowExact` | src/arith/int_operator.h:61-73 | the multiplication test, built from truncated quotients, says exactly whether the product leaves the domain |
| `SmithNormalForm.ReductionStep` | src/arith/solve_linear_equation.cc:95-119 | the 2x2 step is unimodular, clears the entry, and the pivot never grows and strictly shrinks when it did not divide the entry |
| `SmithNormalForm.RowsSwappedPreserves` | src/arith/solve_linear_equation.cc:65-67 | a row exchange keeps the solutions, V\*x and the invertibility of V |
| `SmithNormalForm.VariablesSwappedPreserves` | src/arith/solve_linear_equation.cc:72-84 | a column exchange that only touches rows from index on keeps them too |
| `SmithNormalForm.RowsCombinedPreserves` | src/arith/solve_linear_equation.cc:121-139 | so does the combination of two rows with their right-hand sides |
| `SmithNormalForm.VariablesCombinedPreserves` | src/arith/solve_linear_equation.cc:175-199 | and the combination of two columns, with the inverse transformation on x |
| `SmithNormalForm.CombineColumns` | src/arith/solve_linear_equation.cc:178-190 | the in-place loop over rows computes the combined columns and leaves earlier rows alone |
| `SmithNormalForm.Diagonalizer.FindPivotRow` | src/arith/solve_linear_equation.cc:53-64 | the row found has a nonzero entry of least magnitude in the column, or the column is zero from index down |
| `SmithNormalForm.Diagonalizer.ChoosePivot` | src/arith/solve_linear_equation.cc:53-91 | solutions are kept and the pivot is nonzero unless its row and column are zero |
| `SmithNormalForm.Diagonalizer.ClearColumn` | src/arith/solve_linear_equation.cc:93-141 | the column is zero below the pivot, solutions are kept, the pivot did not grow |
| `SmithNormalForm.Diagonalizer.ClearRow` | src/arith/solve_linear_equation.cc:143-201 | the row is zero right of the pivot; if the column may be disturbed, the pivot strictly shrank |
| `SmithNormalForm.Diagonalizer.Diagonalize` | src/arith/solve_linear_equation.cc:40-209 | terminates on every matrix although the index steps back, ends with a diagonal S, and keeps solutions, V\*x and the invertibility of V |
| `SolveLinearEquation.ReadRow` | src/arith/solve_linear_equation.cc:300-327 | a relation gives a row exactly if it is an equation that is linear in the variables with literal coefficients, and the row says what it says |
| `SolveLinearEquation.BuildMatrix` | src/arith/solve_linear_equation.cc:294-330 | exactly the solvable equations become rows, in order, each saying what its equation says, and the left-over relations are exactly the others |
| `SolveLinearEquation.SolvedExactly` | src/arith/solve_linear_equation.cc:349-410 | a valuation solves the diagonal system iff zero rows have zero right-hand sides and the others divide, with V^-1 x forced to the quotients; the remaining entries are free |
| `SolveLinearEquation.ColumnTransformInvertible` | src/arith/solve_linear_equation.cc:332-337 | V is invertible over the integers: every integer vector is the image of exactly one |
| `SolveLinearEquation.QuotientSolves` | src/arith/solve_linear_equation.cc:356-358 | the divisibility relation says that the pivot divides, and then the floor quotient is the factor, for either sign of the pivot |
| `SolveLinearEquation.Unsolvable` | src/arith/solve_linear_equation.cc:361-368 | a relation that simplifies to false means that the system has no solution at all |
| `SolveLinearEquation.OldFromNew` | src/arith/solve_linear_equation.cc:412-420 | an old variable expressed by the new ones is its row of V applied to the solution terms |
| `SolveLinearEquation.SolveDiagonal` | src/arith/solve_linear_equation.cc:371-410 | a nonzero pivot forces its term, every other column gets a new variable: there are n minus the nonzero pivots of them |
| `SolveLinearEquation.DiagonalSolves` | src/arith/solve_linear_equation.cc:349-420 | where the existence conditions hold, every solvable equation holds at the values that the source variables are given |
| `SolveLinearEquation.CarriesForward` | src/arith/solve_linear_equation.cc:266-456 | every solution of the system, with any ranges, carries over to one of the parametrised system and comes back |
| `SolveLinearEquation.CarriesBack` | src/arith/solve_linear_equation.cc:266-456 | every solution of the parametrised system that settles the solved variables mentioned by ranges carries back and returns |
| `SolveLinearEquation.BackwardExact` | src/arith/solve_linear_equation.cc:266-456 | a solution of the parametrised system carries back to one of the system iff its image is in range, and then every new variable is recovered from it, wherever the solved variables that the forms read are settled |
| `SolveLinearEquation.OuterReturns` | src/arith/solve_linear_equation.cc:266-456 | this holds of every solution if ranges of outer variables mention no solved variable, or if the simplifier adds no variable |
| `SolveLinearEquation.SolveLinearEquations` | src/arith/solve_linear_equation.cc:266-456 | for any ranges, solutions carry over and come back, and back and over where the solved variables that ranges mention are settled; if ranges mention none, the transform is a bijection; a solution of the result returns iff its image is in range, if ranges of outer variables mention no solved variable or the simplifier adds no variable. Every solvable equation holds at the values given to the source variables wherever the existence conditions hold; there are as many new variables as columns without a pivot; these conditions come from a diagonal system that says what the equations say |
| `SolveLinearEquation.ApartBijection` | src/arith/solve_linear_equation.cc:266-456 | if no range mentions a variable solved for, the transform is a bijection between all solutions |
| `EquationStaleRange.DiagonalReduced` | src/arith/solve_linear_equation.cc:148-200 | the diagonal form of x + y == 4 is what the column reduction of its initial state gives |
| `EquationStaleRange.StaleRange` | src/arith/solve_linear_equation.cc:428-444 | x in [0, 10), y in [0, x + 1), x + y == 4: the relation from the range of y still mentions x, and a solution of the result returns to no solution |
| `SolveLinearInequality.NormalizeEval` | src/arith/solve_linear_inequality.cc:127-149 | normalised comparisons have the value of the original ones |
| `SolveLinearInequality.NormalizeShape` | src/arith/solve_linear_inequality.cc:127-149 | every comparison becomes one with 0, and an order becomes <= |
| `SolveLinearInequality.AddInequality` | src/arith/solve_linear_inequality.cc:151-172 | the new set says what the old set and the new inequality say on in-range valuations, whatever was dropped as dominated; what the ranges prove or is there already changes nothing |
| `SolveLinearInequality.ClassifyByPolarity` | src/arith/solve_linear_inequality.cc:174-219 | the parts by sign, the passed-on inequalities and the rest together say what the set said |
| `SolveLinearInequality.ClassifyExact` | src/arith/solve_linear_inequality.cc:174-219 | exactly the comparisons with 0 whose coefficient of the variable is a literal are taken apart: no part for coefficient 0, one for <=, two for == |
| `SolveLinearInequality.CombinationHolds` | src/arith/solve_linear_inequality.cc:292-300 | a combination of a positive and a negative part follows from the two and does not mention the variable |
| `SolveLinearInequality.CombinationExact` | src/arith/solve_linear_inequality.cc:292-300 | it says exactly that the two parts leave room for a rational value of the variable |
| `SolveLinearInequality.CombineAll` | src/arith/solve_linear_inequality.cc:292-309 | the new set says exactly that the old one holds and that every positive part meets every negative one |
| `SolveLinearInequality.CommonMultiple` | src/arith/solve_linear_inequality.cc:313-321 | the least common multiple: all coefficients divide it, and it divides every number that they all divide |
| `SolveLinearInequality.BoundExact` | src/arith/solve_linear_inequality.cc:329-352 | the scaled bound says exactly what the linear part says |
| `SolveLinearInequality.KeepBest` | src/arith/solve_linear_inequality.cc:329-370 | the bounds kept are exactly those that survive the proved comparisons, and they say exactly what all parts say, wherever the other variables are in range |
| `SolveLinearInequality.SurvivorsMeet` | src/arith/solve_linear_inequality.cc:329-370 | where the parts meet, every lower bound kept is at most every upper bound kept |
| `SolveLinearInequality.MoveEquality` | src/arith/solve_linear_inequality.cc:221-235 | the equalities are exactly the expressions that bound from both sides |
| `SolveLinearInequality.SolveVariable` | src/arith/solve_linear_inequality.cc:270-385 | one elimination: the old set is equivalent to the new set, the rest and the bounds; the rest is exactly what is not linear in the variable; where the new set holds the bounds leave room for it; new set and bounds mention no eliminated variable, and the bounds put the variable back in its range |
| `SolveLinearInequality.BoundsGiveRanges` | include/tvm/arith/int_solver.h:303-321 | from the last variable back to the first, the triangular bounds imply every original range |
| `SolveLinearInequality.AsConditionsHold` | src/arith/int_constraints.cc:41-65 | the conditions hold iff every bound and every other relation does |
| `SolveLinearInequality.CollectConditions` | src/arith/int_constraints.cc:41-65 | the loop builds exactly that list |
| `SolveLinearInequality.EliminateAll` | src/arith/solve_linear_inequality.cc:262-385 | after all variables: the bounds, the last set and the rest say what the relations say, the bounds met so far, and everything in the rest was not linear in some variable |
| `SolveLinearInequality.SolveLinearInequalities` | src/arith/solve_linear_inequality.cc:237-408 | for any ranges the conditions say in range exactly what the relations say; for ranges that depend on later variables only they say exactly what the system says; the bounds of a variable mention, of the variables up to it, only those that ranges mention; every lower bound of a variable is at most every upper bound wherever the ranges, the other relations and the bounds of later variables hold; only what is not linear stays a relation |
| `InequalityCircularRange.AnalyzerSound` | src/arith/solve_linear_inequality.cc:237-408 | the analyzer of the example, a few rewrites and four proved facts, is sound |
| `InequalityCircularRange.UnitMultiple` | src/arith/solve_linear_inequality.cc:313-321 | with coefficients 1 and -1 the common multiple is 1 |
| `InequalityCircularRange.XParts` | src/arith/solve_linear_inequality.cc:262-290 | the linear parts of x are those of the relation and of the range of x |
| `InequalityCircularRange.XCombined` | src/arith/solve_linear_inequality.cc:292-309 | their combinations leave y <= 9 and nothing else |
| `InequalityCircularRange.XKept` | src/arith/solve_linear_inequality.cc:329-370 | of the bounds of x, 0 is dropped in favour of y, which stays beside 9 |
| `InequalityCircularRange.YParts` | src/arith/solve_linear_inequality.cc:279-290 | the linear parts of y are those of y <= 9 and of the range of y |
| `InequalityCircularRange.YCombined` | src/arith/solve_linear_inequality.cc:292-309 | their combinations are proved, so nothing is left |
| `InequalityCircularRange.YKept` | src/arith/solve_linear_inequality.cc:329-370 | the bounds of y are x, x + 4 and 9 |
| `InequalityCircularRange.CircularBounds` | src/arith/solve_linear_inequality.cc:344-370 | x in [0, 10), y in [x, x + 5), x >= y: the bounds kept say in range what the relation says but hold outside the system |
| `BestRange.WithRangeExact` | src/arith/int_constraints.cc:94-110 | bounds plus a range hold iff the bounds hold and the variable is in the range |
| `BestRange.PairEncloses` | src/arith/int_constraints.cc:156-169 | ceil(low/coef) is below the value, and either difference covers the rest, for every pair of bounds |
| `BestRange.TryPairs` | src/arith/int_constraints.cc:146-179 | of literal widths the first least one is kept, if the prover decides literals |
| `BestRange.FindBestRange` | src/arith/int_constraints.cc:120-185 | the range encloses every value within the bounds; there is none exactly when one side has no bound; a single pair without coefficient is met exactly; otherwise it is the range of the first pair of least width, for literal widths and a prover that decides literals |
| `BestRange.LiteralPair` | src/arith/int_constraints.cc:148-164 | the range of a pair of literal bounds holds exactly the values between them, for any coefficient, if literals are folded |
| `InequalityRanges.SolveInequalitiesToRange` | src/arith/solve_linear_inequality.cc:413-484 | every solution of the system is one of the result, and for ordered ranges every solution of the result with outer variables in range is one of the system; unless it says that there is none, exactly the variables that had a range or are bounded on both sides have one, each the best given those of the later variables, and the relations are exactly the conditions that these do not prove |
| `InequalityRanges.FindRanges` | src/arith/solve_linear_inequality.cc:433-467 | from the last variable to the first, the ranges found hold at every solution and are the best ones, or there is no solution |
| `InequalityRanges.KeepUnproved` | src/arith/solve_linear_inequality.cc:470-479 | exactly the conditions that the ranges do not prove are kept, which changes nothing on in-range valuations |
| `DeskewRange.MapVariable` | src/arith/solve_linear_inequality.cc:514-566 | one variable: both maps stay mutually inverse on solutions in each of the five cases, or there is no solution; an equation replaces it, without a bound on some side it is kept, and its best range gives its value or shifts it |
| `DeskewRange.StepDeskews` | src/arith/solve_linear_inequality.cc:514-566 | new variables start from zero and take more than one value, exactly the variables without a range that some side leaves unbounded are kept, and one with an equation needs no variable |
| `DeskewRange.NewRelations` | src/arith/solve_linear_inequality.cc:568-576 | the simplified conditions say what the substituted conditions say |
| `DeskewRange.SolutionCarried` | src/arith/solve_linear_inequality.cc:489-585 | a source solution maps to a destination solution and back to itself |
| `DeskewRange.SolutionReturned` | src/arith/solve_linear_inequality.cc:489-585 | a destination solution at which the variables that stay are in range maps to a source solution iff its image is in range, which it is for ordered ranges; one that settles the solved variables in ranges does so nowhere else, and then maps back to itself |
| `DeskewRange.SolveInequalitiesDeskewRange` | src/arith/solve_linear_inequality.cc:489-585 | for any ranges the transform carries source solutions to destination solutions and back, and destination solutions into the source exactly where their image is in range, if the variables that stay are; unless it says that there is none, the destination has zero-based variables and those that stay, no more than there are variables without an equation, and no relation that is literally true |
| `DeskewRange.OrderedReturns` | src/arith/solve_linear_inequality.cc:489-585 | for ordered ranges a settled destination solution maps into the source exactly where the variables that stay are in range |
| `DeskewRange.ApartReturns` | src/arith/solve_linear_inequality.cc:489-585 | if ranges mention no variable solved for, every destination solution returns exactly where the outer variables are in range |
| `DeskewOuterRange.XKept` | src/arith/solve_linear_inequality.cc:329-370 | folding constants, the bounds kept for x are 0 and 9 |
| `DeskewOuterRange.RangeFound` | src/arith/int_constraints.cc:120-185 | every pair of these bounds and the ends of the range gives the range of x again |
| `DeskewOuterRange.OuterRangeDropped` | src/arith/solve_linear_inequality.cc:490-492 | x in [0, 10) with an outer n in [0, 5): a destination solution at n = 100 does not return |
| `MixedRadix.ValueOfDigits` | src/arith/iter_affine_map.cc:289-310 | reading off all digits of a number and putting them together gives it back |
| `MixedRadix.DigitsOfValue` | src/arith/iter_affine_map.cc:289-310 | putting digits together gives a number below the total extent with exactly these digits |
| `IterMap.MarkInRange` | src/arith/iter_affine_map.cc:362-406 | on the iteration box every mark stays in [0, extent) |
| `IterMap.CanonicalRadix` | src/arith/iter_affine_map.cc:382-399 | the chosen splits form a mixed-radix sum |
| `IterMap.CanonicalValue` | src/arith/iter_affine_map.cc:382-399 | that sum times the base scale is the fused sum |
| `IterMap.FuseOk` | src/arith/iter_affine_map.cc:362-406 | fusing yields a well-formed split and a well-formed memo |
| `IterMap.FuseValue` | src/arith/iter_affine_map.cc:398-405 | fusing keeps the value iff the memo has no entry of another scale for the form of this sum, or the sum is 0 |
| `IterMap.SplitFloorDivExact` | src/arith/iter_affine_map.cc:606-646 | the quotient by a constant is a well-formed split with the floor quotient as its value iff factors are only divided by a scale and divisor of the same sign |
| `IterMap.SplitFloorModExact` | src/arith/iter_affine_map.cc:690-720 | the remainder has the floor remainder as its value for all signs, and is well-formed iff scale and divisor have the same sign where the extent is divided |
| `IterMapAccept.DivideExact` | src/arith/iter_affine_map.cc:606-646 | quotient and remainder by a constant resolve exactly if the divisor is 1 or divides the scale, or the scale divides the divisor and their quotient divides the extent |
| `IterMapAccept.DirectExact` | src/arith/iter_affine_map.cc:492-604 | sums and differences always resolve, products exactly if one factor is a literal or neither has an iterator |
| `IterMapAccept.DivideIterExact` | src/arith/iter_affine_map.cc:648-760 | a division by a literal resolves exactly if the divisor is 1 or the one split that the expression comes to can be divided |
| `IterMapAccept.PickFinds` | src/arith/iter_affine_map.cc:383-397 | the search finds a chain of multiples whenever some order of the splits is one and, of one scale, those of extent 1 come first |
| `IterMapAccept.PickFound` | src/arith/iter_affine_map.cc:383-397 | and what it finds is such a chain |
| `IterMapAccept.FuseExact` | src/arith/iter_affine_map.cc:362-406 | so fusing succeeds exactly then |
| `IterMap.AddSplitsSound` | src/arith/iter_affine_map.cc:418-450 | adding or subtracting a sum adds or subtracts its value |
| `IterMapSound.CombinedSound` | src/arith/iter_affine_map.cc:492-604 | each visitor computes its operator on the values of its operands, if its own steps agree with the memo and stay on one side |
| `IterMapSound.MutateSound` | src/arith/iter_affine_map.cc:485-760 | rewriting keeps the value of every expression on the iteration box, if the steps of the memo-free rewriter agree with the memo and stay on one side |
| `IterMapSound.RewriteSound` | src/arith/iter_affine_map.cc:190-192 | under the same condition on the index, it becomes at most one split plus a base with its value |
| `IterMapReference.MutateFollows` | src/arith/iter_affine_map.cc:222-238 | the memoised rewriter gives the result and the memo of the memo-free one exactly as long as sums of one form have one base scale |
| `IterMapReference.MemoExact` | src/arith/iter_affine_map.cc:400-405 | over all the indices every memo hit has the scale it was asked for iff sums of one form have one base scale in the memo-free rewriting |
| `IterMapPositive.MutatePositive` | src/arith/iter_affine_map.cc:485-760 | positive multipliers and divisors and no subtracted iterator keep every scale positive and every division on one side |
| `IterMapUnit.UnitScalesAgree` | src/arith/iter_affine_map.cc:362-406 | with positive factors and an iterator on its own in every sum that is fused, no memo hit brings another scale |
| `IterMapBijection.DigitsInjective` | src/arith/iter_affine_map.cc:194-219 | a certified map from the iteration box to the index digits is one-to-one |
| `IterMapBijection.DigitsSurjective` | src/arith/iter_affine_map.cc:194-219 | and onto: every tuple of digits within the extents comes from a point of the box |
| `IterMapDetect.CollectIndicesOk` | src/arith/iter_affine_map.cc:132-162 | the collector lists every use of every visited mark |
| `IterMapDetect.NormalizedCovers` | src/arith/iter_affine_map.cc:289-310 | a normalisation that succeeds orders all splits of a mark into a non-overlapping cover of its extent |
| `IterMapDetect.CheckedCertificate` | src/arith/iter_affine_map.cc:194-219 | a passed check is a certificate of bijectivity |
| `IterMapCheck.CollectMarkOnce` | src/arith/iter_affine_map.cc:143-161 | the collector lists no use twice |
| `IterMapCheck.CertifiedExactly` | src/arith/iter_affine_map.cc:194-219 | a certificate covers exactly the marks that the collector visits |
| `IterMapCheck.CheckExact` | src/arith/iter_affine_map.cc:194-219 | the check passes exactly if there is a certificate of bijectivity and of the uses of one mark with one lower factor those of extent 1 come first |
| `IterMapDigits.DigitsAccepted` | src/arith/iter_affine_map.cc:462-477 | any tuple of indices that are all the mixed-radix digits of all iterators, in any order and each of more than one value, is accepted with exactly these digits as its result |
| `IterMapFlat.FlatDigitsAccepted` | src/arith/iter_affine_map.cc:462-477 | so is any tuple of all the digits of the flattened sum of all iterators |
| `IterMapFlat.FlatAccepted` | src/arith/iter_affine_map.cc:462-477 | and the flattened sum itself, as one fused iterator |
| `IterMapOrder.OrderMatters` | src/arith/iter_affine_map.cc:289-310 | x % 2, x / 2 and x % 2 / 2 for x in [0, 4) are rejected in this order and accepted with the last two exchanged |
| `IterMapSound.DetectSound` | src/arith/iter_affine_map.cc:462-477 | an accepted result has one split at most per index; its digits are a bijection from the box onto the product of their extents if factors are positive or steps regular; it has the values of the indices if steps are regular |
| `IterMapSound.PositiveRegular` | src/arith/iter_affine_map.cc:462-477 | positive factors and agreeing scales make the steps regular |
| `IterMapSound.IndicesInjective` | src/arith/iter_affine_map.cc:462-477 | accepted indices with positive factors and agreeing scales tell all points of the box apart |
| `IterMapSound.InjectiveExact` | src/arith/iter_affine_map.cc:462-477 | accepted indices with regular steps tell the points of the box apart iff no iterator of more than one value ends up with scale 0 |
| `IterMapUnit.UnitDetection` | src/arith/iter_affine_map.cc:462-477 | for positive factors and an iterator on its own in every sum, an accepted result has the values of the indices, its digits are a bijection, and the indices are injective |
| `IterMapMemoScale.AcceptedButNotInjective` | src/arith/iter_affine_map.cc:400-405 | (y\*4 + x) / 4 and (y\*8 + x\*2) % 4: accepted with positive factors although not injective, because the memo answers with the scale of the first sum |
| `IterMapSigns.AcceptedWithWrongValue` | src/arith/iter_affine_map.cc:606-646 | (x \* -1) / 2 and (x \* -1) % 2 are accepted, but the result has another value at x = 3 and its digits are no bijection |
| `IterMapSigns.AcceptedZeroScale` | src/arith/iter_affine_map.cc:418-440 | x - x is accepted although it is not injective |
| `IterMapSigns.IteratorQuotientExact` | src/arith/iter_affine_map.cc:606-646 | the quotient of a scaled input iterator has the floor quotient as its value all over the box iff scale and divisor are on one side or differ by their sign only |
| `IterMapRewriting.ChooseInOrder` | src/arith/iter_affine_map.cc:383-397 | the search with a flag vector computes the specified choice |
| `IterMapRewriting.TryNormalizeSplits` | src/arith/iter_affine_map.cc:289-310 | the loop computes the specified normalisation |
| `IterMapRewriting.AddSumToLhs` | src/arith/iter_affine_map.cc:418-450 | the loop computes the specified sum |
| `IterMapRewriting.IterMapRewriter.TryFuseIters` | src/arith/iter_affine_map.cc:362-406 | the method with its updated memo computes the specified fusion |
| `IterMapRewriting.IterMapRewriter.DirectMutate` | src/arith/iter_affine_map.cc:222-238 | the visitor, threading the memo through all expressions, computes the specified rewrite |
| `IterMapRewriting.IterMarkSplitCollector.Collect` | src/arith/iter_affine_map.cc:143-161 | the collector object ends with the specified visited marks and uses |
| `IterMapRewriting.RunCheckBijective` | src/arith/iter_affine_map.cc:194-219 | visiting the marks in any order gives the specified answer |
| `IterMapRewriting.DetectIterMap` | src/arith/iter_affine_map.cc:462-477 | the whole loop computes the specified detection, with the bijection and the values under the conditions on the indices |
| `DivModes.DivDiv` | src/arith/canonical_simplify.cc:286-311 | (x / a) / b == x / (a\*b) in truncating and floor mode, for all x |
| `DivModes.ModDiv` | src/arith/canonical_simplify.cc:288-300 | (x % (a\*b)) / a == (x / a) % b in both modes, for all x |
| `DivModes.ModMod` | src/arith/canonical_simplify.cc:286-311 | (x % (a\*b)) % a == x % a in both modes |
| `DivModes.ScaleBoth` | src/arith/canonical_simplify.cc:813-817 | scaling dividend and divisor keeps the quotient and scales the remainder, in both modes |
| `DivModes.Recombine` | src/arith/canonical_simplify.cc:302-311 | (x / (c\*s)) \* s + (x % (c\*s)) / c == x / c in both modes |
| `CanonicalSplit.NormalizeWithScaleEval` | src/arith/canonical_simplify.cc:107-125 | the written-out split has the value of the split |
| `CanonicalSplit.ConvertKeepsValue` | src/arith/canonical_simplify.cc:504-514 | converting the division mode keeps the value |
| `CanonicalSplit.SplitDivConstSound` | src/arith/canonical_simplify.cc:650-690 | the quotient is exact in both modes for every positive scale and divisor, and its factors verify |
| `CanonicalSplit.SplitDivConstExact` | src/arith/canonical_simplify.cc:650-690 | for any scale, the quotient of a variable is exact at every valuation iff the fold of a negative scale does not happen in floor mode with a lower factor other than 1 |
| `CanonicalSplit.SplitModConstSound` | src/arith/canonical_simplify.cc:805-851 | the remainder is exact in both modes and for every scale under a condition on the branch taken, and for positive scales its factors verify |
| `CanonicalSplit.SplitModConstFails` | src/arith/canonical_simplify.cc:824-833 | simplifying again with positive scale and lower factor both other than 1 is wrong where the index is lower_factor - 1 |
| `CanonicalSplit.NegativeFails` | src/arith/canonical_simplify.cc:813-842 | a value of the index where each branch that does not meet the condition is wrong for a negative scale |
| `CanonicalSplit.SplitModConstExact` | src/arith/canonical_simplify.cc:805-851 | the remainder of a variable is exact at every valuation iff that condition holds, for any scale |
| `CanonicalSum.InsertedSegmented` | src/arith/canonical_simplify.cc:229-254 | inserting at the place found keeps equal indices together and lower factors descending |
| `CanonicalSum.MergedValue` | src/arith/canonical_simplify.cc:244-249 | splits with equal factors and compatible modes add up by scale |
| `CanonicalSum.SumExpr.AddToSelf` | src/arith/canonical_simplify.cc:229-254 | adds k times a split to the value and keeps the segments; the sum grows by a split exactly if none has the same factors |
| `CanonicalSum.SumExpr.AddSum` | src/arith/canonical_simplify.cc:393-400 | adds k times a sum to the value and keeps the segments |
| `CanonicalSum.SumExpr.MulToSelf` | src/arith/canonical_simplify.cc:201-206 | multiplies the value and keeps the segments |
| `CanonicalSum.SumExpr.DivideBy` | src/arith/canonical_simplify.cc:211-218 | undoes the multiplication when every scale and the base are multiples, dividing each scale |
| `CanonicalNormalize.MergePair` | src/arith/canonical_simplify.cc:282-330 | the merge rule: a quotient and the remainder below it become one coarser split with the sum of their values, in both modes and for any sign of the scales |
| `CanonicalNormalize.MergeForward` | src/arith/canonical_simplify.cc:271-333 | the inner loop keeps the sum on every valuation and all factors verified |
| `CanonicalNormalize.JoinsMerged` | src/arith/canonical_simplify.cc:282-330 | a split that could be joined with the result of a merge could have been joined with the split merged away |
| `CanonicalNormalize.ForwardSettles` | src/arith/canonical_simplify.cc:271-333 | a pass leaves its split without a partner of the same factors later on and, if lower factors differ, without one to merge with |
| `CanonicalNormalize.StableSortSound` | src/arith/canonical_simplify.cc:341-360 | the sort is ordered by the comparator, a permutation, keeps the order of ties and keeps the sum |
| `CanonicalNormalize.SimplifySplitExprs` | src/arith/canonical_simplify.cc:267-362 | merged and sorted splits have the same sum on every valuation; of a sum in segments no two splits that count have the same factors, and no two can be merged if the splits of one index have different lower factors |
| `CanonicalNormalize.MergeMissed` | src/arith/canonical_simplify.cc:271-333 | otherwise two can: 36 \* (x / 12) and 3 \* (x % 12) are left of a sum in segments |
| `CanonicalNormalize.WriteOut` | src/arith/canonical_simplify.cc:363-384 | positive parts, base and subtracted negative parts evaluate to the sum |
| `CanonicalNormalize.Normalize` | src/arith/canonical_simplify.cc:179-185 | the normal expression equals sum(args) + base on every valuation |
| `CanonicalDivision.SeparateDivisibleParts` | src/arith/canonical_simplify.cc:626-648 | two sums that add up to the given one, the first divisible and the second without a divisible term, both still in segments |
| `CanonicalDivision.PartitionArgs` | src/arith/canonical_simplify.cc:639-645 | the two sub-lists have exactly the splits with divisible and with other scales, and keep the segment order and the sum |
| `CanonicalDivision.DivideSum` | src/arith/canonical_simplify.cc:705-740 | division of a sum by a positive constant is exact in both modes and for all signs, wherever the analyzer's ranges hold, and is done term by term if every term is divisible |
| `CanonicalRemainder.ReduceBase` | src/arith/canonical_simplify.cc:893-901 | reducing the constant of a sum keeps the remainder, in truncating mode where the analyzer's lower bound allows it; in floor mode it ends in [0, c) |
| `CanonicalRemainder.SumDropped` | src/arith/canonical_simplify.cc:871-892 | dropping the divisible part keeps the remainder, in floor mode or where both parts are not negative or nothing else is left |
| `CanonicalRemainder.ModSum` | src/arith/canonical_simplify.cc:853-960 | the remainder of a sum is exact in both modes wherever the analyzer's ranges hold, if `SplitModConst` is exact on the split that stands for what is left; only a split of the sum can fail that; the remainder of a divisible sum is the literal 0 |
| `CanonicalRemainder.ModSumExact` | src/arith/canonical_simplify.cc:853-960 | for a split of a variable the remainder is exact at every valuation iff that condition holds |
| `ConstIntBound.AddLow` | src/arith/const_int_bound.cc:452-467 | lower ends add to a lower end and the infinity check does not fail, when the sum is finite |
| `ConstIntBound.AddHigh` | src/arith/const_int_bound.cc:452-467 | upper ends add to an upper end and the infinity check does not fail |
| `ConstIntBound.MulClamps` | src/arith/const_int_bound.cc:474-478 | the saturating product is the product clamped to the infinities |
| `ConstIntBound.MulBoundarySound` | src/arith/const_int_bound.cc:403-413 | the four corners bound every product |
| `ConstIntBound.DivisorBetween` | src/arith/const_int_bound.cc:424-431 | for divisors of one sign the quotient lies between those by the extreme divisors, in both modes |
| `ConstIntBound.DividendBetween` | src/arith/const_int_bound.cc:485-506 | for a fixed divisor the quotient lies between those of the ends, infinities outwards |
| `ConstIntBound.HandleDivisionSound` | src/arith/const_int_bound.cc:424-445 | the corners on both sides of zero bound every quotient |
| `ConstIntBound.ModBoundarySound` | src/arith/const_int_bound.cc:218-238 | the truncated remainder is within its bound |
| `ConstIntBound.FloorModBoundarySound` | src/arith/const_int_bound.cc:247-285 | the floor remainder is within its bound, for divisors of any sign |
| `ConstIntBound.ModShape` | src/arith/const_int_bound.cc:218-238 | by a positive divisor the bound of a truncated remainder is below the divisor in magnitude, on the side of the dividend and no further from 0, and the dividend's if that is below the divisor |
| `ConstIntBound.FloorModShape` | src/arith/const_int_bound.cc:247-285 | the bound of a floor remainder is between 0 and the divisor for divisors of any sign |
| `ConstIntBound.ModTight` | src/arith/const_int_bound.cc:218-238 | both its ends are reached, if the dividend can be 0 or is below the divisor |
| `ConstIntBound.FloorModTight` | src/arith/const_int_bound.cc:247-285 | likewise for the floor remainder |
| `ConstIntBound.FloorModAnySign` | src/arith/const_int_bound.cc:247-285 | and by divisors of any sign, if the dividend can be -1, 0 and 1 |
| `ConstIntBound.BinBoundTight` | src/arith/const_int_bound.cc:187-285 | both ends of the bound of every exact operator are reached, unless they saturate: +, -, \*, min, max, division also around zero, and remainders |
| `ConstIntBound.RefinedExact` | src/arith/const_int_bound.cc:144-153 | a value is within the refined bound exactly if it is within the bound and all that is known about the expression |
| `ConstIntBoundTight.VisitTight` | src/arith/const_int_bound.cc:144-309 | both ends of the bound of an expression are values of it within the bindings, if no variable occurs twice and every operator is exact |
| `ConstIntBound.VisitSound` | src/arith/const_int_bound.cc:144-309 | every check passes and the value of every expression lies in its bound, at every valuation consistent with the bindings and the extra information |
| `ConstIntBound.DetectSound` | src/arith/const_int_bound.cc:581-604 | bounds detected in a constraint hold wherever the constraint does |
| `ConstIntBound.DetectExact` | src/arith/const_int_bound.cc:581-604 | of comparisons with literals away from the infinities, and conjunctions of these, everything is detected: the bounds hold exactly where the constraint does |
| `ConstIntBound.DetectAtInfinity` | src/arith/const_int_bound.cc:588-590 | next to the infinity a strict comparison that does not hold is detected as one that does |
| `ModularSet.MakeMembers` | src/arith/modular_set.cc:69-77 | normalising the base does not change the residue class |
| `ModularSet.AddSound` | src/arith/modular_set.cc:138-150 | sums and differences of members are members |
| `ModularSet.AddExact` | src/arith/modular_set.cc:138-143 | every member of the sum is a sum of members |
| `ModularSet.SubExact` | src/arith/modular_set.cc:145-150 | every member of the difference is a difference of members |
| `ModularSet.MulSound` | src/arith/modular_set.cc:152-164 | products of members are members |
| `ModularSetLeast.MulExact` | src/arith/modular_set.cc:152-164 | a class holds all products exactly if it contains the class computed |
| `ModularSet.DivByConstSound` | src/arith/modular_set.cc:166-181 | quotients of members by a constant are members, in both rounding modes and for divisors of any sign |
| `ModularSetLeast.UnevenQuotient` | src/arith/modular_set.cc:166-181 | if the divisor does not divide the coefficient, only the class of everything holds the quotients |
| `ModularSetLeast.DivByConstExact` | src/arith/modular_set.cc:166-181 | the class computed is the least that holds all quotients iff the divisor does not divide the coefficient or equals it in magnitude, the rounding is clear, or the division truncates from both sides of zero |
| `ModularSet.UnionSound` | src/arith/modular_set.cc:272-286 | members of either class are members of the union |
| `ModularSetLeast.UnionExact` | src/arith/modular_set.cc:272-286 | the class computed is the least that contains both iff the bases agree as C's remainders or the gcd of the coefficients and of their distance divides them |
| `ModularSetLeast.UnionLosesOdd` | src/arith/modular_set.cc:282-286 | 4k + 1 and 4k + 3 give everything although 2k + 1 contains both |
| `ModularSet.IntersectExact` | src/arith/modular_set.cc:293-313 | unless both coefficients are 0, the intersection has exactly the common members when there are any, and the empty branch is taken exactly when there are none |
| `ModularSet.MeetHasMember` | src/arith/modular_set.cc:293-313 | where the classes meet they have a common member, given by the intersection |
| `ModularSet.CommonMultiples` | src/arith/modular_set.cc:308-309 | the multiples of c1 / gcd \* c2 are exactly the common multiples |
| `ModularSet.VisitSound` | src/arith/modular_set.cc:119-244 | every check passes and the value of every expression is in its class |
| `ModularSetLeast.VisitExact` | src/arith/modular_set.cc:119-164 | for sums, differences and products in which no variable occurs twice the class computed is the least that holds the values: another holds them all exactly if it contains it |
| `ModularSet.NarrowedSound` | src/arith/modular_set.cc:105-116 | where a remainder constraint holds, the variable is in the narrowed class |
| `ModularSet.NarrowedExact` | src/arith/modular_set.cc:105-116 | within the variable's class the constraint holds exactly in the narrowed class, as far as the remainder is in range and, for C's remainder, has the sign of the variable |
| `ModularSet.VisitLookup` | src/arith/modular_set.cc:227-235 | queries depend only on what variables look up to |
| `ConstraintScope.Analyzer.QuerySound` | src/arith/analyzer.cc:85-92 | bound and class answers are right for every expression at every valuation the state represents |
| `ConstraintScope.ExitRestores` | src/arith/modular_set.cc:257-266 | leaving undoes entering, up to entries that say nothing, and the size check passes |
| `ConstraintScope.Analyzer.EnterBound` | src/arith/const_int_bound.cc:367-378 | pushes exactly the detected information and remembers both sizes |
| `ConstraintScope.Analyzer.EnterClass` | src/arith/modular_set.cc:105-116 | narrows exactly one class and remembers the former one |
| `ConstraintScope.ConstraintContext.EnterWithScope` | src/arith/analyzer.cc:66-78 | after entering, the state is sound for the valuations that satisfy the constraint as well |
| `ConstraintScope.ConstraintContext.ExitWithScope` | src/arith/analyzer.cc:80-83 | after leaving, every query answers as before the scope |
| `ConstraintScope.Execute` | src/arith/analyzer.cc:66-83 | over every well-nested run no exit check fails, every scope is sound for its active constraints, and at the end all bound and class queries answer as at the start |
| `TopoSort.Traverse` | src/auto_scheduler/compute_dag.cc:67-98 | visits exactly what is reachable; degrees count input tensors and edges list consumers as often as they read |
| `TopoSort.Release` | src/auto_scheduler/compute_dag.cc:117-122 | after telling the consumers, degrees count the inputs not done and exactly the ready operations are queued |
| `TopoSort.NothingLeft` | src/auto_scheduler/compute_dag.cc:113-123 | on an acyclic graph an empty queue means that everything is done |
| `TopoSort.TopoSortOps` | src/auto_scheduler/compute_dag.cc:61-126 | every operation reachable from the tensors, exactly once, after all its producers, also when it reads several outputs of one producer |
| `LayoutRewrite.DigitsAddUp` | src/auto_scheduler/compute_dag.cc:756-773 | the digits from a place on add up to the index modulo the product of extents there |
| `LayoutRewrite.RewriteThenSum` | src/auto_scheduler/compute_dag.cc:953-979 | rewriting an in-bounds index and summing by strides gives it back, for any interleaving of the axes |
| `LayoutRewrite.SumThenRewrite` | src/auto_scheduler/compute_dag.cc:754-777 | summing in-bounds new indices by strides and rewriting gives every one of them back |
| `LayoutRewrite.RewriteIndices` | src/auto_scheduler/compute_dag.cc:754-777 | the backward loop computes the digits, in bounds, and fails exactly when an axis has no argument |
| `LayoutRewrite.NewStrides` | src/auto_scheduler/compute_dag.cc:953-962 | the backward loop computes the products of later extents of the same axis |
| `LayoutRewrite.AccessIndices` | src/auto_scheduler/compute_dag.cc:967-979 | the nested loops compute the stride sums |
| `LayoutRewrite.ReadThrough` | src/auto_scheduler/compute_dag.cc:738-777 | a read of the rewritten placeholder reads what the original read did |
| `LayoutRewrite.WriteThrough` | src/auto_scheduler/compute_dag.cc:953-982 | every new index is read from a place that rewrites to it |
| `AttachMaps.DetachKeepsInverse` | src/auto_scheduler/loop_state.cc:146-161 | removing a stage from both maps keeps them inverse |
| `AttachMaps.AttachKeepsInverse` | src/auto_scheduler/loop_state.cc:103-106 | adding a stage to both maps keeps them inverse |
| `AttachMaps.AttachMap.DeleteStageEntry` | src/auto_scheduler/loop_state.cc:146-161 | exactly the stage's entry goes, with its list if that becomes empty |
| `AttachMaps.AttachMap.SetComputeAtIter` | src/auto_scheduler/loop_state.cc:97-107 | the stage is attached to the key, last in its list, and nowhere else; the maps stay inverse |
| `AttachMaps.AttachMap.DeleteStage` | src/auto_scheduler/loop_state.cc:109-113 | exactly the stage's entry goes; the maps stay inverse |
| `AttachMaps.RenamedInverse` | src/auto_scheduler/loop_state.cc:115-144 | without collisions the renamed maps are inverse again |
| `AttachMaps.CollisionBreaks` | src/auto_scheduler/loop_state.cc:133-143 | if they are inverse again there was no collision |
| `AttachMaps.FusedItersCollide` | src/auto_scheduler/loop_state.cc:133-143 | two attached iterators sent to one collide |
| `AttachMaps.AttachMap.UpdateIters` | src/auto_scheduler/loop_state.cc:115-144 | the stage map is the simultaneous renaming, and the two maps stay inverse iff attached keys get distinct targets that do not collide with keys that stay |
| `AttachMaps.AttachMap.ApplyStageIdOffset` | src/auto_scheduler/loop_state.cc:163-191 | the copy has shifted entries and lists of the original, and its maps are inverse if what merges agrees; for any offset that merges no attached stages it has exactly the shifted entries, and its maps are inverse iff no keys merge; an offset of at least 0 merges nothing |
| `AttachMaps.AgreedInverse` | src/auto_scheduler/loop_state.cc:163-191 | if stages that merge have keys that merge, stages of one list do not merge and keys that merge list the same stages, then shifting keeps the maps inverse in any order of the loops |
| `AttachMaps.DisagreeBreaks` | src/auto_scheduler/loop_state.cc:163-191 | otherwise some choice of entries among those that merge gives maps that are not inverse |
| `AttachMaps.ApartAgree` | src/auto_scheduler/loop_state.cc:163-191 | if no stages merge, this condition says exactly that no keys do |
| `AttachMaps.InverseKeysApart` | src/auto_scheduler/loop_state.cc:163-191 | if the shifted maps are inverse and no stages merged, no keys merged |
| `AttachMaps.OffsetMerges` | src/auto_scheduler/loop_state.cc:163-191 | two stages under one key that an offset of -1 merges, so that the copy is not inverse |
| `PicoJsonRoundTrip.Hex4Read` | 3rdparty/picojson/picojson.h:727-746 | four printed hexadecimal digits are read back |
| `PicoJsonRoundTrip.EscapeRead` | 3rdparty/picojson/picojson.h:537-566 | every escaped character is read as that character |
| `PicoJsonRoundTrip.StringRead` | 3rdparty/picojson/picojson.h:793-832 | every string, escaped and quoted, is read back and what follows is left |
| `PicoJsonRoundTrip.BodyRead` | 3rdparty/picojson/picojson.h:898-951 | every printed value is read back at every indentation, leaving what follows |
| `PicoJsonRoundTrip.ItemsRead` | 3rdparty/picojson/picojson.h:836-851 | the array loop reads back all printed items in order |
| `PicoJsonRoundTrip.MembersRead` | 3rdparty/picojson/picojson.h:855-872 | the object loop reads back all printed members |
| `PicoJsonRoundTrip.RoundTrip` | 3rdparty/picojson/picojson.h:576-655 | parsing the compact or pretty text gives the value back, for every enumeration order of the objects, and leaves only the final newline and what follows |
| `PicoJsonRoundTrip.InsertEntries` | 3rdparty/picojson/picojson.h:1028-1032 | distinct members become exactly the entries of the object |
| `PicoJsonRoundTrip.OrderDoesNotMatter` | 3rdparty/picojson/picojson.h:625-638 | two enumerations of the same entries are the same object |
| `PicoJsonGrammar.QuadHexExact` | 3rdparty/picojson/picojson.h:727-746 | four characters are read as d0\*4096 + d1\*256 + d2\*16 + d3 exactly if each is the digit di in lower or upper case, and nothing else is read |
| `PicoJsonGrammar.BasicRead` | 3rdparty/picojson/picojson.h:750-789 | four escaped digits, in any mix of cases, are read as the UTF-8 bytes of the code point |
| `PicoJsonGrammar.SurrogatesRead` | 3rdparty/picojson/picojson.h:755-771 | a surrogate pair, in any mix of cases, is read as the UTF-8 bytes of its code point |
| `PicoJsonRoundTrip.Utf8Decoded` | 3rdparty/picojson/picojson.h:772-787 | the bytes are bytes and determine the code point |
| `PicoJsonGrammar.StringComplete` | 3rdparty/picojson/picojson.h:793-832 | every string of plain characters, short escapes, code points and surrogate pairs is read as their bytes |
| `PicoJsonGrammar.StringSound` | 3rdparty/picojson/picojson.h:793-832 | whatever is read as a string is such a string |
| `PicoJsonGrammar.SpaceExact` | 3rdparty/picojson/picojson.h:697-705 | white space is exactly space, tab, newline and carriage return |
| `PicoJsonGrammar.NumericExact` | 3rdparty/picojson/picojson.h:876-894 | the characters that numbers are made of and start with |
| `PicoJsonGrammar.TreeRead` | 3rdparty/picojson/picojson.h:898-951 | every text of the grammar, with any white space around brackets, commas and colons, is read as its value |
| `PicoJsonGrammar.TreeSound` | 3rdparty/picojson/picojson.h:898-951 | whatever is read as a value is a text of the grammar |
| `PicoJsonGrammar.ParseExact` | 3rdparty/picojson/picojson.h:898-951 | the parser reads a value and leaves a rest exactly if the text begins with white space and that value as the grammar writes it |
| `PicoJsonParser.Input.GetC` | 3rdparty/picojson/picojson.h:673-686 | the cursor hands out the next character or the end, and the line count follows the newlines passed |
| `PicoJsonParser.Input.SkipSpace` | 3rdparty/picojson/picojson.h:697-705 | exactly the leading white space is skipped |
| `PicoJsonParser.Input.ExpectChar` | 3rdparty/picojson/picojson.h:706-713 | succeeds exactly when the character comes next after white space, and otherwise consumes only that |
| `PicoJsonParser.Input.MatchText` | 3rdparty/picojson/picojson.h:714-722 | succeeds exactly when the pattern comes next, and consumes exactly the common prefix also when it fails |
| `PicoJsonParser.ParseQuadHex` | 3rdparty/picojson/picojson.h:727-746 | the loop reads four hexadecimal digits or fails |
| `PicoJsonParser.ParseCodepoint` | 3rdparty/picojson/picojson.h:750-789 | the method computes the specified bytes and position |
| `PicoJsonParser.ParseString` | 3rdparty/picojson/picojson.h:793-832 | the loop computes the specified string and position |
| `PicoJsonParser.ParseNumber` | 3rdparty/picojson/picojson.h:876-894 | the loop takes the longest run of number characters |
| `PicoJsonParser.ParseValue` | 3rdparty/picojson/picojson.h:898-951 | the parser succeeds exactly when the specification does, with its value and position |
| `PicoJsonParser.ParseArray` | 3rdparty/picojson/picojson.h:836-851 | so does the array parser |
| `PicoJsonParser.ParseObject` | 3rdparty/picojson/picojson.h:855-872 | and the object parser |
| `PicoJsonParser.SerializeStr` | 3rdparty/picojson/picojson.h:569-574 | the loop writes the specified quoted string |
| `PicoJsonParser.Serialize` | 3rdparty/picojson/picojson.h:592-655 | the printer with its loops writes the specified text |
| `PicoJsonParser.Reparse` | 3rdparty/picojson/picojson.h:592-655 | printing a value and parsing the text returns the value |

## Left out

- `src/arith/rewrite_simplify.cc`, `src/arith/pattern_match.h` and `src/arith/int_set.cc`: represented by the oracles above; they would add many one-step identities.
- int64 overflow in matrices, coefficients, gcds and modular products: integers are unbounded there, as the code does not guard them.
- IterMapSound.MutateSound: factors, extents and scales are integer constants; symbolic ones, which the analyzer compares, are not modelled.
- IterMapSound.DetectSound: an unresolved expression, a failed check and an unsupported node are one outcome of the model, no result.
- DeskewRange.SolveInequalitiesDeskewRange: nothing is said of a destination solution at which an outer variable, or a solved one that ranges mention, is out of range and not settled, because the simplified relations mean nothing there.
- SolveLinearEquation.SolveLinearEquations: nothing is said of a solution of the result that does not settle the mentioned variables when a range of an outer variable mentions a solved one and the simplifier brings in such variables.
- SolveLinearInequality.SolveLinearInequalities: the order of equalities by complexity is not modelled; any order is.
- BestRange.FindBestRange: which of several symbolic widths is least is not said, because the comparison is an arbitrary sound oracle.
- CanonicalSplit.SplitModConstSound: the factor `kPosInf` is a separate value, so a genuine factor of that size is not modelled.
- CanonicalNormalize.SimplifySplitExprs: for splits of one index with equal lower factors it is not said which pairs are left unmerged.
- CanonicalDivision.DivideSum: a dividend that is not a sum goes to `SplitDivConst` as it is, and divisors that are not positive constants are not modelled.
- CanonicalRemainder.ModSum: the same, with `SplitModConst`.
- ConstIntBound.VisitSound: one signed width of at least two bits for all expressions; casts, shifts, bitwise operators, ramps, `Let` and the memo table of bounds are not modelled.
- ModularSet.VisitSound: shifts, casts and `Let` are not modelled.
- ModularSetLeast.VisitExact: nothing is said of how good the class is when a variable occurs twice or below a quotient, minimum or selection.
- IterMapDigits.DigitsAccepted: expressions are accepted in the shapes (x / lower) % upper that write digits; which other spellings of a digit are accepted follows from the exactness of each step only.
- ConstraintScope.Execute: constraints of the rewriting simplifier and bindings inside a scope are not modelled; moduli are positive.
- LayoutRewrite.RewriteIndices: index expressions are represented by their values, and parsing a layout string is not modelled.
- TopoSort.TopoSortOps: unsupported operations, which end the program, are not modelled.
- PicoJsonRoundTrip.RoundTrip: numbers are the tokens they print as, and reading a token back is an oracle; the locale's decimal point and error messages are not modelled.
- The cost model, search, bound inference, RPC, drivers and bindings: they depend on input and output or on code outside this model.
