/** A range that mentions a variable solved for: SolveLinearEquations
    (src/arith/solve_linear_equation.cc) turns it into a relation without substituting that
    variable, so a solution of the result need not return to one of the system. */
module EquationStaleRange {
  import opened IntOperator
  import opened PrimExprs
  import opened LinearAlgebra
  import opened Wrappers
  import opened IntConstraintSystems
  import opened SmithNormalForm
  import E = SolveLinearEquation

  const X: nat := 0
  const Y: nat := 1
  const Z: nat := 3

  const XRange: Range := Range(IntImm(0), IntImm(10))
  /** y in [0, x + 1) */
  const YRange: Range := Range(IntImm(0), Bin(Add, Var(X), IntImm(1)))

  const Sum: Expr := Bin(Add, Var(X), Var(Y))
  /** x in [0, 10), y in [0, x + 1), x + y == 4 */
  const Dependent: IntConstraints := IntConstraints([X, Y], map[X := XRange, Y := YRange], [Bin(EQ, Sum, IntImm(4))])

  /** Reads x + y - 4 as coefficients 1, 1 and constant -4. */
  function Detect(e: Expr, vs: seq<nat>): seq<Expr> {
    if e == Bin(Sub, Sum, IntImm(4)) && vs == [X, Y] then [IntImm(1), IntImm(1), IntImm(-4)] else []
  }

  const Plainly: E.Oracle := E.Oracle((_, e) => e, Detect, (_, _) => None)

  /** The right-hand side of the row: the constant negated. */
  const Right: Expr := Negated(IntImm(-4))

  /** The state diagonalisation starts from: the row 1, 1, the identity, x and y, and the right-hand side. */
  const Start: State := E.InitialState(Dependent, [[1, 1]], [Right])

  /** What the solver makes of it: 1 * (x + y) = 4, with x = (x + y) + (-y) and y = -(-y). */
  const Diagonal: State :=
    State([[1, 0]], [[1, 1], [0, -1]],
          [Bin(Add, Scale(1, Var(X)), Scale(1, Var(Y))), Bin(Sub, Scale(0, Var(X)), Scale(1, Var(Y)))], [Right])

  /** x + y = 4 and z = -y */
  const Terms: seq<Expr> := [E.Quotient(1, Right), Var(Z)]
  const ToNew: Subst := map[X := E.Combine([1, 1], Terms, 2), Y := E.Combine([0, -1], Terms, 2)]
  const ToOld: Subst := map[Z := Bin(Sub, Scale(0, Var(X)), Scale(1, Var(Y)))]
  const Exist: seq<Expr> := [Bin(EQ, Bin(FloorModOp, Right, IntImm(1)), IntImm(0))]
  const Conds: seq<Expr> :=
    [E.LowerCondition(XRange, ToNew[X]), E.UpperCondition(XRange, ToNew[X]),
     E.LowerCondition(YRange, ToNew[Y]), E.UpperCondition(YRange, ToNew[Y])]

  const Pieces: E.Parts :=
    E.Parts(Plainly, Dependent, Diagonal, 1, 2, 2, [], Exist, Terms, ToOld, ToNew, map[], Conds)

  /** x = 100 and z = -4 */
  const Stale: Env := map[X := 100, Z := -4]

  lemma {:induction false} RightIsFour(env: Env)
    ensures Eval(Right, env) == 4 && FreeVars(Right) == {}
  {
    assert Eval(IntImm(-4), env) == -4;
  }

  /** x = 4 + z and y = -z */
  lemma {:induction false} NewForms(env: Env)
    ensures Eval(ToNew[X], env) == 4 + Get(env, Z) && Eval(ToNew[Y], env) == -Get(env, Z)
  {
    RightIsFour(env);
    assert Eval(Terms[0], env) == FloorDiv(4, 1) == 4 && Eval(Terms[1], env) == Get(env, Z);
    E.CombineEval([1, 1], Terms, 2, env);
    E.CombineEval([0, -1], Terms, 2, env);
    var v := EvalAll(Terms, env);
    assert DotTo([1, 1], v, 1) == 4 && DotTo([0, -1], v, 1) == 0;
  }

  lemma {:induction false} Ones(v: seq<int>)
    requires |v| == 2
    ensures Dot([1, 1], v) == v[0] + v[1]
  {
    assert DotTo([1, 1], v, 1) == v[0];
  }

  lemma {:induction false} DetectIsSound()
    ensures E.Sound(Plainly, 2)
  {
    forall e: Expr, vs: seq<nat>, env: Env | Detect(e, vs) != []
      ensures Eval(e, env) == Dot(EvalAll(Detect(e, vs)[..|vs|], env), E.VarValues(vs, env)) +
              Eval(Detect(e, vs)[|vs|], env)
    {
      var c, v := [IntImm(1), IntImm(1)], E.VarValues(vs, env);
      assert Detect(e, vs)[..2] == c && EvalAll(c, env) == [1, 1];
      Ones(v);
      assert Eval(Sum, env) == v[0] + v[1];
    }
    assert FreeVars(IntImm(-4)) == {};
  }

  /** One column reduction, the one that clears the entry right of the pivot, gives the diagonal. */
  lemma {:induction false} DiagonalReduced()
    ensures Shaped(Start, 1, 2) && Start.S[0][0] == Start.S[0][1] == 1
    ensures var (g, a, b) := Reduction(Start.S[0][0], Start.S[0][1]);
            g != 0 && Diagonal == VariablesCombined(Start, 0, 1, a, b, TruncDiv(Start.S[0][1], g),
                TruncDiv(Start.S[0][0], g))
    ensures Preserves(Start, Diagonal, 1, 2)
  {
    assert Start.V[0] == [1, 0] && Start.V[1] == [0, 1];
    assert Reduction(1, 1) == (1, 1, 0) && TruncDiv(1, 1) == 1;
    ColumnReduced(Start, 0, 1, 1, 2);
    var reduced := VariablesCombined(Start, 0, 1, 1, 0, 1, 1);
    assert reduced.S[0] == [1, 0];
    assert reduced.V[0] == [1, 1] && reduced.V[1] == [0, -1];
    assert reduced.S == Diagonal.S && reduced.V == Diagonal.V && reduced.x == Diagonal.x;
  }

  lemma {:induction false} DiagonalRight()
    requires E.WellFormed(Dependent, 2)
    ensures E.DiagonalForm(Dependent, Diagonal, 1, 2, 2) && E.Decomposed(Dependent, Diagonal, 1, 2, [])
  {
    DiagonalReduced();
    RightIsFour(map[]);
    E.DiagonalFormReached(Dependent, [[1, 1]], [Right], Diagonal, 2);
    forall env: Env
      ensures AllHold(Dependent.relations, env) <==> E.RowsHold([[1, 1]], [Right], Dependent.variables, env)
    {
      RowSays(env);
    }
  }

  lemma {:induction false} RowSays(env: Env)
    ensures AllHold(Dependent.relations, env) <==> E.RowsHold([[1, 1]], [Right], Dependent.variables, env)
  {
    var v := E.VarValues(Dependent.variables, env);
    RightIsFour(env);
    Ones(v);
    assert Eval(Sum, env) == v[0] + v[1];
    assert Eval(Dependent.relations[0], env) == Truth(v[0] + v[1] == 4);
    var A, y := [[1, 1]], [Right];
    assert Dot(A[0], v) == Eval(y[0], env) <==> v[0] + v[1] == 4;
  }

  lemma {:induction false} ConditionsSay(env: Env)
    ensures AllHold(Conds, env) <==> E.OldRangesHold(Plainly, Dependent, map[], ToNew, env)
  {
    assert AllHold(Conds, env) <==>
           Holds(Conds[0], env) && Holds(Conds[1], env) && Holds(Conds[2], env) && Holds(Conds[3], env);
  }

  lemma {:induction false} ExistenceSays(env: Env)
    ensures AllHold(Exist, env) <==> E.ExistenceHolds(Plainly, Dependent, Diagonal, 1, 2, env)
  {
    assert E.ExistenceCondition(Diagonal.S, Diagonal.y, 0) == Exist[0];
    assert AllHold(Exist, env) <==> Holds(Exist[0], env);
  }

  lemma {:induction false} SystemWellFormed()
    ensures E.WellFormed(Dependent, 2)
  {
    assert FreeVars(YRange.extent) == {X} && RangeVars(YRange) == {X} && RangeVars(XRange) == {};
    assert FreeVars(Dependent.relations[0]) == {X, Y};
  }

  lemma {:induction false} TermsFound()
    ensures E.SolutionTerms(Plainly, Dependent, Diagonal, 1, 2, 2, Terms, ToOld)
    ensures E.OldForms(Plainly, Dependent, Diagonal.V, Terms, ToNew)
    ensures E.InferRange(Plainly, ToOld, Dependent) == map[]
  {}

  lemma {:induction false} RelationsSay()
    requires E.DiagonalForm(Dependent, Diagonal, 1, 2, 2)
    ensures E.SaysExistence(Plainly, Dependent, Diagonal, 1, 2, Exist)
    ensures E.SaysOldRanges(Plainly, Dependent, map[], ToNew, Conds)
  {
    forall env: Env
      ensures AllHold(Conds, env) <==> E.OldRangesHold(Plainly, Dependent, map[], ToNew, env)
      ensures AllHold(Exist, env) <==> E.ExistenceHolds(Plainly, Dependent, Diagonal, 1, 2, env)
    {
      ConditionsSay(env);
      ExistenceSays(env);
    }
  }

  /** The pieces the solver puts together, with an analyzer that simplifies and covers nothing. */
  lemma {:induction false} PiecesAssembled()
    ensures E.Assembled(Pieces)
  {
    DetectIsSound();
    SystemWellFormed();
    DiagonalRight();
    TermsFound();
    RelationsSay();
  }

  lemma {:induction false} Extent(env: Env)
    ensures Eval(YRange.extent, env) == Get(env, X) + 1
  {}

  lemma {:induction false} ConditionsHold()
    ensures AllHold(Exist, Stale) && AllHold(Conds, Stale)
  {
    NewForms(Stale);
    Extent(Stale);
    RightIsFour(Stale);
    assert Eval(Exist[0], Stale) == Truth(FloorMod(4, 1) == 0);
    assert Eval(Bin(Add, XRange.min, XRange.extent), Stale) == 10;
    assert Eval(Bin(Add, YRange.min, YRange.extent), Stale) == 101;
  }

  /** The destination of the transform holds at x = 100, z = -4. */
  lemma {:induction false} StaleHolds()
    ensures Satisfies(E.Target(Pieces, [Z]), Stale)
  {
    ConditionsHold();
    E.TargetRelations(Pieces, [Z], Stale);
  }

  lemma {:induction false} StaleReturnsNowhere()
    ensures !Satisfies(Dependent, Through(ToNew, Stale))
  {
    NewForms(Stale);
    var env := Through(ToNew, Stale);
    Extent(env);
    assert Get(env, X) == 0 && Get(env, Y) == 4;
    assert !InRange(Dependent.ranges[Y], Get(env, Y), env);
  }

  /** The range of y is copied with the solved variable x in it, so a value left over for x puts
      y = 4 in range, and the destination solution returns to x = 0 and y = 4, which is none. */
  lemma {:induction false} StaleRange()
    ensures E.Assembled(Pieces) && X in FreeVars(Conds[3])
    ensures Satisfies(E.Target(Pieces, [Z]), Stale) && !Satisfies(Dependent, Through(ToNew, Stale))
  {
    PiecesAssembled();
    StaleHolds();
    StaleReturnsNowhere();
    assert X in FreeVars(YRange.extent);
    assert FreeVars(YRange.extent) <= FreeVars(Bin(Add, YRange.min, YRange.extent));
  }
}
