/** SolveInequalitiesDeskewRange (src/arith/solve_linear_inequality.cc) has a comment that promises
    the ranges of outer variables in its result, but adds none. Here is a solution of the result
    that does not return to one of the system. */
module DeskewOuterRange {
  import opened IntOperator
  import opened PrimExprs
  import opened Wrappers
  import opened IntConstraintSystems
  import opened SolveLinearInequality
  import opened BestRange
  import opened DeskewRange

  const X: nat := 0
  const N: nat := 1
  const Limit: nat := 2
  const Shifted: nat := 2

  const XRange: Range := Range(IntImm(0), IntImm(10))
  const NRange: Range := Range(IntImm(0), IntImm(5))

  /** x in [0, 10) to solve for, and an outer variable n in [0, 5) */
  const System: IntConstraints := IntConstraints([X], map[X := XRange, N := NRange], [])

  // ----- an analyzer that folds constants and proves nothing ----------------------------------

  function Fold(rs: Ranges, e: Expr): Expr { if FreeVars(e) == {} then IntImm(Eval(e, map[])) else e }

  const Solver: Oracle := Oracle(Fold, (_, _) => false, (_, _) => None)
  const Finder: RangeOracle := RangeOracle(Fold, (_, _) => false, (_, e) => e)

  lemma {:induction false} AnalyzerSound()
    ensures Sound(Solver) && RangeOracleSound(Finder)
  {
    forall rs: Ranges, e: Expr, env: Env
      ensures Reached(FreeVars(Fold(rs, e)), FreeVars(e), rs) && Eval(Fold(rs, e), env) == Eval(e, env)
    {
      if FreeVars(e) == {} { EvalAgree(e, map[], env); }
    }
  }

  lemma {:induction false} FoldLiterals(rs: Ranges, op: BinOp, a: Expr, b: Expr)
    requires FreeVars(a) == {} && FreeVars(b) == {}
    ensures FreeVars(Bin(op, a, b)) == {}
    ensures Fold(rs, Bin(op, a, b)) == IntImm(EvalBin(op, Eval(a, map[]), Eval(b, map[])))
  {}

  // ----- what the solver finds for x ------------------------------------------------------------

  const Uppers: seq<Lin> := [Lin(1, Negated(IntImm(9)))]
  const Lowers: seq<Lin> := [Lin(-1, IntImm(0))]

  const Bounds: Solved := map[X := GroupBounds(1, [IntImm(0)], [], [IntImm(9)])]
  const Conditions: seq<Expr> := [Bin(GE, Scale(1, Var(X)), IntImm(0)), Bin(LE, Scale(1, Var(X)), IntImm(9))]

  const Empty: Deskew := Deskew(map[], map[], [], map[], Limit)

  /** x is a new variable plus 0. */
  function Found(): Deskew { Shift(Fold, System, Empty, X, XRange) }

  function Result(): IntConstraints {
    IntConstraints([Shifted], Found().ranges, ApplyAll(Conditions, Found().toDst))
  }

  /** n = 100 */
  const Outside: Env := map[N := 100]

  /** Eliminating x: its range gives the two parts. */
  lemma {:induction false} XParts()
    ensures WithTop(Solver, System.ranges, X, []) == Uppers && WithBottom(Solver, System.ranges, X, []) == Lowers
  {
    FoldLiterals(System.ranges, Add, XRange.min, XRange.extent);
    FoldLiterals(System.ranges, Sub, Bin(Add, XRange.min, XRange.extent), IntImm(1));
    assert Eval(Bin(Add, XRange.min, XRange.extent), map[]) == 10;
  }

  /** Their combination folds to 1, so nothing is left. */
  lemma {:induction false} XCombined()
    ensures Fold(System.ranges, Combination(Uppers[0], Lowers[0])) == IntImm(1)
  {
    assert EuclidLoop(1, 1, 1, 0) == EuclidLoop(1, 0, 0, 1) == (1, 0);
    assert TruncDiv(1, 1) == 1 && TruncDiv(-1, 1) == -1;
    var a, b := Scale(1, IntImm(0)), Scale(-1, Negated(IntImm(9)));
    assert Combination(Uppers[0], Lowers[0]) == LeZero(Bin(Sub, a, b));
    NineNegated();
    assert FreeVars(a) == {} && Eval(a, map[]) == 0;
    FoldLiterals(System.ranges, Sub, a, b);
    FoldLiterals(System.ranges, LE, Bin(Sub, a, b), IntImm(0));
    assert Eval(Bin(Sub, a, b), map[]) == -9;
  }

  lemma {:induction false} NineNegated()
    ensures FreeVars(Scale(-1, Negated(IntImm(9)))) == {} && Eval(Scale(-1, Negated(IntImm(9))), map[]) == 9
  {
    assert FreeVars(Negated(IntImm(9))) == {} && Eval(Negated(IntImm(9)), map[]) == -9;
  }

  /** Both bounds are kept. */
  lemma {:induction false} XKept()
    ensures Survivors(Solver, System.ranges, true, 1, Uppers, 1) == {IntImm(9)}
    ensures Survivors(Solver, System.ranges, false, 1, Lowers, 1) == {IntImm(0)}
  {
    assert TruncDiv(-1, 1) == -1 && TruncDiv(-1, -1) == 1;
    NineNegated();
    assert FreeVars(Scale(1, IntImm(0))) == {} && Eval(Scale(1, IntImm(0)), map[]) == 0;
    assert Survivors(Solver, System.ranges, true, 1, Uppers, 0) == {};
    assert Survivors(Solver, System.ranges, false, 1, Lowers, 0) == {};
  }

  /** The bounds with the ends of the range: every pair gives the range of x again. */
  lemma {:induction false} RangeFound()
    ensures NewBounds(Fold, System, Empty, Bounds[X], X) ==
            GroupBounds(1, [IntImm(0), IntImm(0)], [], [IntImm(9), IntImm(9)])
    ensures PairRange(Finder, System.ranges, 1, IntImm(0), IntImm(9)) == (IntImm(0), IntImm(9))
    ensures Range(IntImm(0), Fold(System.ranges, Bin(Add, IntImm(9), IntImm(1)))) == XRange
  {
    EndsFound();
    PairFound();
    FoldLiterals(System.ranges, Add, IntImm(9), IntImm(1));
  }

  lemma {:induction false} EndsFound()
    ensures NewBounds(Fold, System, Empty, Bounds[X], X) ==
            GroupBounds(1, [IntImm(0), IntImm(0)], [], [IntImm(9), IntImm(9)])
  {
    var top := Bin(Sub, Bin(Add, XRange.min, XRange.extent), IntImm(1));
    FoldLiterals(map[], Mul, XRange.min, IntImm(1));
    FoldLiterals(map[], Add, XRange.min, XRange.extent);
    assert Eval(Bin(Add, XRange.min, XRange.extent), map[]) == 10;
    FoldLiterals(map[], Sub, Bin(Add, XRange.min, XRange.extent), IntImm(1));
    assert Eval(top, map[]) == 9;
    FoldLiterals(map[], Mul, top, IntImm(1));
    assert Bound(System, Empty) == System.ranges;
    assert Substitute(IntImm(0), map[]) == IntImm(0) && Substitute(IntImm(9), map[]) == IntImm(9);
    assert SubstituteBounds(Bounds[X], map[]) == Bounds[X];
  }

  lemma {:induction false} PairFound()
    ensures PairRange(Finder, System.ranges, 1, IntImm(0), IntImm(9)) == (IntImm(0), IntImm(9))
  {
    var rs := System.ranges;
    FoldLiterals(rs, Add, IntImm(0), IntImm(1));
    FoldLiterals(rs, Sub, Bin(Add, IntImm(0), IntImm(1)), IntImm(1));
    FoldLiterals(rs, FloorDivOp, Bin(Sub, Bin(Add, IntImm(0), IntImm(1)), IntImm(1)), IntImm(1));
    assert Eval(Bin(Add, IntImm(0), IntImm(1)), map[]) == 1;
    assert Eval(Bin(Sub, Bin(Add, IntImm(0), IntImm(1)), IntImm(1)), map[]) == 0;
    assert FloorDiv(0, 1) == 0 && FloorDiv(9, 1) == 9;
    assert LowDivided(Finder, rs, 1, IntImm(0)) == IntImm(0);
    FoldLiterals(rs, Sub, IntImm(9), IntImm(0));
    FoldLiterals(rs, FloorDivOp, Bin(Sub, IntImm(9), IntImm(0)), IntImm(1));
    assert Eval(Bin(Sub, IntImm(9), IntImm(0)), map[]) == 9;
    assert Fold(rs, IntImm(9)) == IntImm(9);
  }

  // ----- the transform --------------------------------------------------------------------------

  lemma {:induction false} BoundsMean(x: int, env: Env)
    ensures BoundsHold(Bounds[X], x, env) <==> 0 <= x <= 9
    ensures InRange(XRange, x, env) <==> 0 <= x <= 9
  {
    var b := Bounds[X];
    assert BoundsHold(b, x, env) <==> b.coef * x >= Eval(b.lower[0], env) && b.coef * x <= Eval(b.upper[0], env);
  }

  lemma {:induction false} ConditionsAre()
    ensures AsConditions(System.variables, Bounds, []) == Conditions
  {
    assert System.variables[1..] == [];
    assert Compare(EQ, Scale(1, Var(X)), []) == [];
    assert BoundConditions(X, Bounds[X]) == Conditions;
    assert Conditions + [] == Conditions;
  }

  lemma {:induction false} ConditionsMean(env: Env)
    ensures AllHold(Conditions, env) <==> 0 <= Get(env, X) <= 9
  {
    ConditionsAre();
    AsConditionsHold(System.variables, Bounds, [], env);
    BoundsMean(Get(env, X), env);
  }

  lemma {:induction false} SolvedRight()
    ensures SameInRange(System, Bounds, []) && Lossless(System, Bounds, [])
    ensures Triangular(System.variables, 1, Bounds, System.ranges)
  {
    ConditionsAre();
    forall env: Env
      ensures AllHold(Conditions, env) <==> InRange(System.ranges[X], Get(env, X), env)
    {
      ConditionsMean(env);
      BoundsMean(Get(env, X), env);
    }
    var b := Bounds[X];
    assert FreeVars(IntImm(0)) == {} && FreeVars(IntImm(9)) == {};
    forall env: Env ensures BoundsHold(b, Get(env, X), env) ==> InRange(System.ranges[X], Get(env, X), env) {
      BoundsMean(Get(env, X), env);
    }
    assert TriangularAt(b, System.variables, 0, System.ranges);
  }

  lemma {:induction false} InLimits()
    ensures NoRepeats(System.variables) && Limits(System, Limit) && Below(VarsOf(Conditions), Limit)
  {
    assert RangeVars(XRange) == {} && RangeVars(NRange) == {};
    assert FreeVars(Scale(1, Var(X))) == {X};
    assert FreeVars(Conditions[0]) == {X} && FreeVars(Conditions[1]) == {X};
  }

  lemma {:induction false} Mapped()
    ensures Invariant(System, 0, Found(), Limit)
  {
    InLimits();
    Start(System, Limit);
    forall env: Env | Satisfies(System, env) ensures InRange(XRange, Get(env, X), Through(Empty.toSrc, env)) {
      assert InRange(System.ranges[X], Get(env, X), env);
      BoundsMean(Get(env, X), env);
      BoundsMean(Get(env, X), Through(Empty.toSrc, env));
    }
    assert RangeVars(XRange) == {};
    AnalyzerSound();
    ShiftKeeps(Fold, System, 0, Empty, Limit, XRange);
  }

  /** The result is put together from what was found. */
  lemma {:induction false} ResultBuilt()
    ensures Built(System, Bounds, [], Limit, Found(), Result())
  {
    SolvedRight();
    InLimits();
    ConditionsAre();
    Mapped();
    assert Found().variables == [Shifted];
  }

  lemma {:induction false} OutsideHolds()
    ensures Satisfies(Result(), Outside) && !Satisfies(System, Through(Found().toDst, Outside))
  {
    var env := Through(Found().toDst, Outside);
    assert Found().toDst == map[X := Bin(Add, Var(Shifted), IntImm(0))];
    assert Eval(Bin(Add, Var(Shifted), IntImm(0)), Outside) == 0;
    assert Get(env, X) == 0 && Get(env, N) == 100;
    ConditionsMean(env);
    ConditionsReturned(Conditions, Found().toDst, Outside);
    assert Found().ranges == map[Shifted := Range(IntImm(0), IntImm(10))];
    assert !InRange(System.ranges[N], Get(env, N), env);
  }

  /** The result holds at n = 100, where the system does not. */
  lemma {:induction false} OuterRangeDropped()
    ensures Built(System, Bounds, [], Limit, Found(), Result())
    ensures Satisfies(Result(), Outside) && !Satisfies(System, Through(Found().toDst, Outside))
  {
    ResultBuilt();
    OutsideHolds();
  }
}
