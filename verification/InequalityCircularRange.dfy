/** Ranges that depend on a variable eliminated earlier: SolveLinearInequalities
    (src/arith/solve_linear_inequality.cc) may drop bounds that follow from each other, so the
    conditions it returns can hold outside the system. One such elimination, step by step. */
module InequalityCircularRange {
  import opened IntOperator
  import opened PrimExprs
  import opened Wrappers
  import opened IntConstraintSystems
  import opened SolveLinearInequality

  const X: nat := 0
  const Y: nat := 1

  const XRange: Range := Range(IntImm(0), IntImm(10))
  /** y in [x, x + 5) */
  const YRange: Range := Range(Var(X), IntImm(5))
  const Given: Ranges := map[X := XRange, Y := YRange]

  /** x in [0, 10), y in [x, x + 5), x >= y, solved for x first */
  const Circular: IntConstraints := IntConstraints([X, Y], Given, [Bin(GE, Var(X), Var(Y))])

  // ----- an analyzer that is sound and knows a little ----------------------------------------

  /** 1 * a, -1 * (0 - a) and -1 * c, multiplied out. */
  function Unscaled(e: Expr): Expr {
    if !e.Bin? || e.op != Mul then e
    else if e.a == IntImm(1) then e.b
    else if e.a != IntImm(-1) then e
    else if e.b.IntImm? then IntImm(-e.b.value)
    else if e.b.Bin? && e.b.op == Sub && e.b.a == IntImm(0) then e.b.b
    else e
  }

  /** Folds the constant of (a + b) - c, and (a - b) - 0. */
  function Fold(rs: Ranges, e: Expr): Expr {
    if !e.Bin? || e.op != Sub || !e.a.Bin? || !e.b.IntImm? then Unscaled(e)
    else if e.a.op == Add && e.a.b.IntImm? then
      if e.a.a.IntImm? then IntImm(e.a.a.value + e.a.b.value - e.b.value)
      else Bin(Add, e.a.a, IntImm(e.a.b.value - e.b.value))
    else if e.a.op == Sub && e.b.value == 0 then Bin(Sub, Unscaled(e.a.a), Unscaled(e.a.b))
    else e
  }

  const ZeroToY: Expr := Compared(LE, IntImm(0), Var(Y))
  const ZeroTo9: Expr := LeZero(Bin(Sub, IntImm(0), IntImm(9)))
  const XTo9: Expr := LeZero(Bin(Sub, Var(X), IntImm(9)))
  const XToTop: Expr := LeZero(Bin(Sub, Var(X), Bin(Add, Var(X), IntImm(4))))

  /** 0 <= y, 0 <= 9, x <= 9 and x <= x + 4, all true in range. */
  predicate Proves(rs: Ranges, e: Expr) {
    rs == Given && (e == ZeroToY || e == ZeroTo9 || e == XTo9 || e == XToTop)
  }

  /** a - v is -1 * v + a, and v - c is 1 * v + (-c). */
  function Detect(e: Expr, v: nat): Option<(Expr, Expr)> {
    if !e.Bin? || e.op != Sub then None
    else if e.b == Var(v) && v !in FreeVars(e.a) then Some((IntImm(-1), e.a))
    else if e.a == Var(v) && e.b.IntImm? then Some((IntImm(1), IntImm(-e.b.value)))
    else None
  }

  const Analyzer: Oracle := Oracle(Fold, Proves, Detect)

  lemma {:induction false} UnscaledSound(e: Expr, env: Env)
    ensures Eval(Unscaled(e), env) == Eval(e, env) && FreeVars(Unscaled(e)) <= FreeVars(e)
  {
    if e.Bin? && e.op == Mul {
      assert Eval(e, env) == Eval(e.a, env) * Eval(e.b, env) && FreeVars(e) == FreeVars(e.a) + FreeVars(e.b);
      if e.a == IntImm(-1) && !e.b.IntImm? && Unscaled(e) != e {
        assert Eval(e.b, env) == 0 - Eval(e.b.b, env) && FreeVars(e.b) == FreeVars(e.b.a) + FreeVars(e.b.b);
      }
    }
  }

  lemma {:induction false} FoldSound(rs: Ranges, e: Expr, env: Env)
    ensures Eval(Fold(rs, e), env) == Eval(e, env) && FreeVars(Fold(rs, e)) <= FreeVars(e)
  {
    UnscaledSound(e, env);
    if e.Bin? && e.op == Sub && e.a.Bin? && e.b.IntImm? {
      var a := e.a;
      assert Eval(e, env) == Eval(a, env) - e.b.value && FreeVars(e) == FreeVars(a) + FreeVars(e.b);
      assert Eval(a, env) == EvalBin(a.op, Eval(a.a, env), Eval(a.b, env));
      assert FreeVars(a) == FreeVars(a.a) + FreeVars(a.b);
      UnscaledSound(a.a, env);
      UnscaledSound(a.b, env);
    }
  }

  lemma {:induction false} ProvesSound(e: Expr, env: Env)
    requires Proves(Given, e) && InClosure(FreeVars(e), Given, env)
    ensures Holds(e, env)
  {
    DifferenceHolds(e.a.a, e.a.b, env);
    if e == ZeroToY {
      NotNegative(FreeVars(e), env);
    } else if e == XTo9 {
      InXRange(FreeVars(e), env);
    } else if e == XToTop {
      assert Eval(e.a.b, env) == Get(env, X) + 4;
    }
  }

  lemma {:induction false} DifferenceHolds(a: Expr, b: Expr, env: Env)
    ensures Holds(LeZero(Bin(Sub, a, b)), env) <==> Eval(a, env) <= Eval(b, env)
    ensures FreeVars(LeZero(Bin(Sub, a, b))) == FreeVars(a) + FreeVars(b)
  {
    var d := Bin(Sub, a, b);
    assert Eval(d, env) == Eval(a, env) - Eval(b, env) && FreeVars(d) == FreeVars(a) + FreeVars(b);
    assert Eval(LeZero(d), env) == Truth(Eval(d, env) <= 0) && FreeVars(IntImm(0)) == {};
  }

  lemma {:induction false} InXRange(vs: set<nat>, env: Env)
    requires InClosure(vs, Given, env) && X in vs
    ensures 0 <= Get(env, X) <= 9
  {
    var c :| vs <= c && Closed(c, Given) && InRanges(c, Given, env);
    assert X in c;
    assert InRange(Given[X], Get(env, X), env);
  }

  /** Wherever y and what its range depends on are in range, y is not negative. */
  lemma {:induction false} NotNegative(vs: set<nat>, env: Env)
    requires InClosure(vs, Given, env) && Y in vs
    ensures Get(env, Y) >= 0
  {
    var c :| vs <= c && Closed(c, Given) && InRanges(c, Given, env);
    assert Y in c && X in RangeVars(YRange);
    assert X in c;
    assert InRange(Given[X], Get(env, X), env) && InRange(Given[Y], Get(env, Y), env);
  }

  lemma {:induction false} DetectIsSound(e: Expr, v: nat, env: Env)
    requires Detect(e, v).Some?
    ensures var (c, b) := Detect(e, v).value;
            && v !in FreeVars(b) && FreeVars(b) <= FreeVars(e) && c != IntImm(0)
            && Eval(e, env) == Eval(c, env) * Get(env, v) + Eval(b, env)
  {
    assert Eval(e, env) == Eval(e.a, env) - Eval(e.b, env) && FreeVars(e) == FreeVars(e.a) + FreeVars(e.b);
  }

  lemma {:induction false} AnalyzerSound()
    ensures Sound(Analyzer)
  {
    forall rs: Ranges, e: Expr
      ensures Reached(FreeVars(Fold(rs, e)), FreeVars(e), rs)
      ensures forall env: Env :: Eval(Fold(rs, e), env) == Eval(e, env)
    {
      forall env: Env ensures Eval(Fold(rs, e), env) == Eval(e, env) && FreeVars(Fold(rs, e)) <= FreeVars(e) {
        FoldSound(rs, e, env);
      }
      FoldSound(rs, e, map[]);
    }
    forall rs: Ranges, e: Expr, env: Env | Proves(rs, e) && InClosure(FreeVars(e), rs, env) ensures Holds(e, env) {
      ProvesSound(e, env);
    }
    forall e: Expr, v: nat | Detect(e, v).Some?
      ensures var (c, b) := Detect(e, v).value;
              v !in FreeVars(b) && FreeVars(b) <= FreeVars(e) && c != IntImm(0) &&
              forall env: Env :: Eval(e, env) == Eval(c, env) * Get(env, v) + Eval(b, env)
    {
      var (c, b) := Detect(e, v).value;
      forall env: Env ensures Eval(e, env) == Eval(c, env) * Get(env, v) + Eval(b, env) {
        DetectIsSound(e, v, env);
      }
      DetectIsSound(e, v, map[]);
    }
  }

  // ----- the two eliminations ------------------------------------------------------------------

  /** y - x <= 0 */
  const Start: Expr := LeZero(Bin(Sub, Var(Y), Var(X)))
  /** y - 9 <= 0 */
  const YTo9: Expr := LeZero(Bin(Sub, Var(Y), IntImm(9)))

  const Top: Expr := Bin(Add, Var(X), IntImm(4))

  /** x - 9 <= 0 */
  const XUppers: seq<Lin> := [Lin(1, Negated(IntImm(9)))]
  /** -x + 0 <= 0 from the range of x and -x + y <= 0 */
  const XLowers: seq<Lin> := [Lin(-1, IntImm(0)), Lin(-1, Var(Y))]
  /** y - (x + 4) <= 0 from the range of y and y - 9 <= 0 */
  const YUppers: seq<Lin> := [Lin(1, Negated(Top)), Lin(1, IntImm(-9))]
  /** -y + x <= 0 */
  const YLowers: seq<Lin> := [Lin(-1, Var(X))]

  /** x in [y, 9] and y in [x, x + 4], at most 9 */
  const Bounds: Solved := map[
    X := GroupBounds(1, [Var(Y)], [], [IntImm(9)]),
    Y := GroupBounds(1, [Var(X)], [], [Top, IntImm(9)])]

  /** With coefficients 1 and -1 the common multiple is 1. */
  lemma {:induction false} UnitMultiple(lcm: int, pos: seq<Lin>, neg: seq<Lin>)
    requires LeastFor(lcm, pos, neg)
    requires forall i :: 0 <= i < |pos| ==> pos[i].c == 1
    requires forall i :: 0 <= i < |neg| ==> neg[i].c == -1
    ensures lcm == 1
  {
    DividesIntro(1, 1);
    DividesNegate(1, 1);
    assert DivideAll(pos, 1) && DivideAll(neg, 1);
    DividesLe(lcm, 1);
  }

  /** The formula added to those left for a pair of parts. */
  function Combined(p: Lin, n: Lin): Expr
    requires p.c > 0 && n.c < 0
  {
    Normalize(Analyzer, Fold(Given, Combination(p, n)))
  }

  lemma {:induction false} UnitCombined(p: Lin, n: Lin)
    requires p.c == 1 && n.c == -1
    ensures Combined(p, n) == LeZero(Bin(Sub, Unscaled(Scale(1, n.e)), Unscaled(Scale(-1, p.e))))
  {
    assert EuclidLoop(1, 1, 1, 0) == EuclidLoop(1, 0, 0, 1) == (1, 0);
    assert TruncDiv(1, 1) == 1 && TruncDiv(-1, 1) == -1;
    var d := Bin(Sub, Scale(1, n.e), Scale(-1, p.e));
    assert Combination(p, n) == LeZero(d);
    assert Fold(Given, LeZero(d)) == LeZero(d);
    assert Combined(p, n) == LeZero(Fold(map[], Bin(Sub, d, IntImm(0))));
  }

  /** v <= c and v >= e combine into e <= c. */
  lemma {:induction false} TopCombined(c: Expr, e: Expr)
    ensures Combined(Lin(1, Negated(c)), Lin(-1, e)) == LeZero(Bin(Sub, e, c))
  {
    UnitCombined(Lin(1, Negated(c)), Lin(-1, e));
    assert Unscaled(Scale(1, e)) == e && Unscaled(Scale(-1, Negated(c))) == c;
  }

  lemma {:induction false} UnitBounds(e: Expr)
    ensures BoundOf(Lin(1, e), 1) == Scale(-1, e) && BoundOf(Lin(-1, e), 1) == Scale(1, e)
  {
    assert TruncDiv(-1, 1) == -1 && TruncDiv(-1, -1) == 1;
  }

  /** Eliminating x: its parts are those of the one relation and of its range. */
  lemma {:induction false} XParts()
    ensures Normalize(Analyzer, Fold(Given, Circular.relations[0])) == Start && !Proves(Given, Start)
    ensures Classify(Analyzer, Start, X) == Polarity.Split([], [Lin(-1, Var(Y))])
    ensures WithTop(Analyzer, Given, X, []) == XUppers && WithBottom(Analyzer, Given, X, [Lin(-1, Var(Y))]) == XLowers
  {
    assert FreeVars(Var(Y)) == {Y};
  }

  /** Of their combinations, 0 <= 9 follows from the ranges and y <= 9 does not, so it is left. */
  lemma {:induction false} XCombined()
    ensures Proves(Given, Combined(XUppers[0], XLowers[0]))
    ensures Combined(XUppers[0], XLowers[1]) == YTo9 && !Proves(Given, YTo9)
  {
    TopCombined(IntImm(9), IntImm(0));
    TopCombined(IntImm(9), Var(Y));
  }

  /** The bounds kept for x: 0 is dropped, since 0 <= y is proved. */
  lemma {:induction false} XKept()
    ensures Survivors(Analyzer, Given, true, 1, XUppers, 1) == {IntImm(9)}
    ensures Survivors(Analyzer, Given, false, 1, XLowers, 2) == {Var(Y)}
  {
    UnitBounds(Negated(IntImm(9)));
    assert Survivors(Analyzer, Given, true, 1, XUppers, 0) == {};
    UnitBounds(IntImm(0));
    UnitBounds(Var(Y));
    assert Survivors(Analyzer, Given, false, 1, XLowers, 0) == {};
    assert Survivors(Analyzer, Given, false, 1, XLowers, 1) == {IntImm(0)};
    assert Proves(Given, Compared(LE, IntImm(0), Var(Y))) && !Proves(Given, Compared(GE, IntImm(0), Var(Y)));
  }

  /** Eliminating y: its parts are those of y <= 9 and of its range. */
  lemma {:induction false} YParts()
    ensures Classify(Analyzer, YTo9, Y) == Polarity.Split([Lin(1, IntImm(-9))], [])
    ensures WithTop(Analyzer, Given, Y, [Lin(1, IntImm(-9))]) == YUppers
    ensures WithBottom(Analyzer, Given, Y, []) == YLowers
  {
    assert FreeVars(IntImm(9)) == {};
  }

  /** Their combinations follow from the ranges, so nothing is left. */
  lemma {:induction false} YCombined()
    ensures Proves(Given, Combined(YUppers[0], YLowers[0])) && Proves(Given, Combined(YUppers[1], YLowers[0]))
  {
    TopCombined(Top, Var(X));
    UnitCombined(YUppers[1], YLowers[0]);
  }

  /** The bounds kept for y: 9 stays beside x + 4, since neither is proved the better one. */
  lemma {:induction false} YKept()
    ensures Survivors(Analyzer, Given, true, 1, YUppers, 2) == {Top, IntImm(9)}
    ensures Survivors(Analyzer, Given, false, 1, YLowers, 1) == {Var(X)}
  {
    UnitBounds(Negated(Top));
    UnitBounds(IntImm(-9));
    assert Survivors(Analyzer, Given, true, 1, YUppers, 0) == {};
    assert Survivors(Analyzer, Given, true, 1, YUppers, 1) == {Top};
    assert !Proves(Given, Compared(LE, Top, IntImm(9))) && !Proves(Given, Compared(GE, Top, IntImm(9)));
    UnitBounds(Var(X));
    assert Survivors(Analyzer, Given, false, 1, YLowers, 0) == {};
  }

  // ----- what the bounds say -------------------------------------------------------------------

  /** x = y = -5 */
  const Below0: Env := map[X := -5, Y := -5]

  lemma {:induction false} Agrees(env: Env)
    requires InAll(Given, env)
    ensures AllHold(Circular.relations, env) <==> AllHold(AsConditions([X, Y], Bounds, []), env)
  {
    AsConditionsHold([X, Y], Bounds, [], env);
    assert InRange(Given[X], Get(env, X), env) && InRange(Given[Y], Get(env, Y), env);
    assert AllHold(Circular.relations, env) <==> Holds(Circular.relations[0], env);
    assert Eval(Circular.relations[0], env) == EvalBin(GE, Get(env, X), Get(env, Y));
    BoundsMean(env);
    var vs := [X, Y];
    assert vs[0] == X && vs[1] == Y;
    assert Eval(XRange.min, env) == 0 && Eval(XRange.extent, env) == 10;
    assert Eval(YRange.min, env) == Get(env, X) && Eval(YRange.extent, env) == 5;
  }

  lemma {:induction false} BoundsMean(env: Env)
    ensures BoundsHold(Bounds[X], Get(env, X), env) <==> Get(env, Y) <= Get(env, X) <= 9
    ensures BoundsHold(Bounds[Y], Get(env, Y), env) <==>
            Get(env, X) <= Get(env, Y) <= Get(env, X) + 4 && Get(env, Y) <= 9
  {
    var b, c := Bounds[X], Bounds[Y];
    assert Eval(b.lower[0], env) == Get(env, Y) && Eval(b.upper[0], env) == 9;
    assert Eval(c.lower[0], env) == Get(env, X);
    assert Eval(c.upper[0], env) == Get(env, X) + 4 && Eval(c.upper[1], env) == 9;
  }

  /** The bounds that the two eliminations keep say what the relation says in range, but they hold
      at x = y = -5, where the system does not: the bound 0 of x was dropped in favour of y, and y
      is bounded by x alone. */
  lemma {:induction false} CircularBounds()
    ensures Sound(Analyzer) && SameInRange(Circular, Bounds, [])
    ensures !OrderedRanges(Given, Circular.variables) && !Lossless(Circular, Bounds, [])
  {
    AnalyzerSound();
    forall env: Env | InAll(Given, env)
      ensures AllHold(Circular.relations, env) <==> AllHold(AsConditions([X, Y], Bounds, []), env)
    {
      Agrees(env);
    }
    assert Y in Given && Circular.variables[0] in RangeVars(Given[Y]) && Y !in Circular.variables[..0];
    AsConditionsHold([X, Y], Bounds, [], Below0);
    BoundsMean(Below0);
    assert OthersInRange(Circular.variables, Given, Below0);
    assert !InRange(Given[X], Get(Below0, X), Below0);
  }
}
