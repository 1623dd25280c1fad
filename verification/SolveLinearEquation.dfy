/** Parametrisation of all integer solutions of a system of linear equations
    (SolveLinearEquations in src/arith/solve_linear_equation.cc). */
module SolveLinearEquation {
  import opened IntOperator
  import opened PrimExprs
  import opened LinearAlgebra
  import opened Wrappers
  import opened IntConstraintSystems
  import opened SmithNormalForm

  // ----- oracles ---------------------------------------------------------------------------

  /** The helpers the solver calls: the simplifier, DetectLinearEquation (empty, or one
      coefficient per variable followed by the constant part), and the covering range of an
      expression over given ranges. */
  datatype Oracle = Oracle(
    simplify: Simplifier,
    detect: (Expr, seq<nat>) -> seq<Expr>,
    cover: (Ranges, Expr) -> Option<Range>)

  function VarValues(vs: seq<nat>, env: Env): (r: seq<int>)
    ensures |r| == |vs| && forall i :: 0 <= i < |vs| ==> r[i] == Get(env, vs[i])
  {
    seq(|vs|, i requires 0 <= i < |vs| => Get(env, vs[i]))
  }

  ghost predicate NoneOf(vs: set<nat>, variables: seq<nat>) {
    forall v :: v in vs ==> v !in variables
  }

  ghost predicate DetectSound(detect: (Expr, seq<nat>) -> seq<Expr>) {
    forall e: Expr, vs: seq<nat> ::
      var c := detect(e, vs);
      c == [] || (
        && |c| == |vs| + 1
        && FreeVars(c[|vs|]) <= FreeVars(e) && NoneOf(FreeVars(c[|vs|]), vs)
        && forall env: Env :: Eval(e, env) == Dot(EvalAll(c[..|vs|], env), VarValues(vs, env)) + Eval(c[|vs|], env))
  }

  ghost predicate CoverSound(cover: (Ranges, Expr) -> Option<Range>, limit: nat) {
    forall rs: Ranges, e: Expr :: cover(rs, e).Some? ==>
      var r := cover(rs, e).value;
      (Below(FreeVars(e), limit) && Below(AllRangeVars(rs), limit) ==> Below(RangeVars(r), limit)) &&
      forall env: Env :: InAll(rs, env) ==> InRange(r, Eval(e, env), env)
  }

  ghost predicate Sound(o: Oracle, limit: nat) {
    SimplifierSound(o.simplify) && DetectSound(o.detect) && CoverSound(o.cover, limit)
  }

  /** There are sound oracles: one that simplifies, splits and covers nothing. */
  lemma {:induction false} SoundOracleExists(limit: nat)
    ensures Sound(Oracle((_, e) => e, (_, _) => [], (_, _) => None), limit)
  {}

  /** Distinct variables, and all variable ids below limit, where the ids of new variables start. */
  ghost predicate WellFormed(sys: IntConstraints, limit: nat) {
    && NoRepeats(sys.variables)
    && (forall i :: 0 <= i < |sys.variables| ==> sys.variables[i] < limit)
    && (forall v :: v in sys.ranges ==> v < limit && Below(RangeVars(sys.ranges[v]), limit))
    && (forall i :: 0 <= i < |sys.relations| ==> Below(FreeVars(sys.relations[i]), limit))
  }

  // ----- the matrix form of the equations --------------------------------------------------

  ghost predicate RowsHold(A: Matrix, y: seq<Expr>, variables: seq<nat>, env: Env)
    requires Rect(A, |y|, |variables|)
  {
    forall i :: 0 <= i < |y| ==> Dot(A[i], VarValues(variables, env)) == Eval(y[i], env)
  }

  /** A*x = y together with `rest` says what the first k relations say, on in-range valuations. */
  ghost predicate Represents(sys: IntConstraints, k: nat, A: Matrix, y: seq<Expr>, rest: seq<Expr>)
    requires k <= |sys.relations| && Rect(A, |y|, |sys.variables|)
  {
    forall env: Env :: InAll(sys.ranges, env) ==>
      (AllHold(sys.relations[..k], env) <==> RowsHold(A, y, sys.variables, env) && AllHold(rest, env))
  }

  /** The constant coefficients as a row, or None when one of them is not a literal. */
  method IntegerRow(coeffs: seq<Expr>) returns (row: Option<seq<int>>)
    ensures row.Some? ==> |row.value| == |coeffs| && forall env: Env :: EvalAll(coeffs, env) == row.value
    ensures row.None? <==> exists j :: 0 <= j < |coeffs| && !coeffs[j].IntImm?
  {
    var r := [];
    for j := 0 to |coeffs|
      invariant |r| == j
      invariant forall k :: 0 <= k < j ==> coeffs[k].IntImm? && r[k] == coeffs[k].value
    {
      if coeffs[j].IntImm? {
        r := r + [coeffs[j].value];
      } else {
        return None;
      }
    }
    assert forall env: Env :: EvalAll(coeffs, env) == r;
    return Some(r);
  }

  /** What DetectLinearEquation finds in an equation. */
  function Coefficients(o: Oracle, sys: IntConstraints, e: Expr): seq<Expr> {
    if e.Bin? && e.op == EQ then o.detect(o.simplify(sys.ranges, Bin(Sub, e.a, e.b)), sys.variables) else []
  }

  /** An equality that is linear in the variables with literal coefficients. */
  predicate Solvable(o: Oracle, sys: IntConstraints, e: Expr) {
    var c := Coefficients(o, sys, e);
    |sys.variables| > 0 && c != [] && forall j :: 0 <= j < |c| - 1 ==> c[j].IntImm?
  }

  /** The places of the solvable ones among the first k relations, and the others. */
  ghost function Equations(o: Oracle, sys: IntConstraints, k: nat): (r: seq<nat>)
    requires k <= |sys.relations|
    ensures forall i :: 0 <= i < |r| ==> r[i] < k && Solvable(o, sys, sys.relations[r[i]])
    ensures forall i :: 0 <= i < k && Solvable(o, sys, sys.relations[i]) ==> i in r
  {
    if k == 0 then []
    else Equations(o, sys, k - 1) + if Solvable(o, sys, sys.relations[k - 1]) then [k - 1] else []
  }

  ghost function Others(o: Oracle, sys: IntConstraints, k: nat): seq<Expr>
    requires k <= |sys.relations|
  {
    if k == 0 then []
    else Others(o, sys, k - 1) + if Solvable(o, sys, sys.relations[k - 1]) then [] else [sys.relations[k - 1]]
  }

  /** The row says what the relation says, wherever the variables of the relation are in range. */
  ghost predicate RowSays(sys: IntConstraints, e: Expr, row: seq<int>, rhs: Expr)
    requires |row| == |sys.variables|
  {
    forall env: Env :: InClosure(FreeVars(e), sys.ranges, env) ==>
      (Holds(e, env) <==> Dot(row, VarValues(sys.variables, env)) == Eval(rhs, env))
  }

  /** The rows are the solvable relations, in order. */
  ghost predicate RowsOf(o: Oracle, sys: IntConstraints, k: nat, A: Matrix, y: seq<Expr>)
    requires k <= |sys.relations| && Rect(A, |y|, |sys.variables|)
  {
    && |y| == |Equations(o, sys, k)|
    && forall i :: 0 <= i < |y| ==> RowSays(sys, sys.relations[Equations(o, sys, k)[i]], A[i], y[i])
  }

  /** A solvable relation read as the matrix row `row` with right-hand side -konst. */
  lemma {:induction false} EquationAsRow(o: Oracle, sys: IntConstraints, limit: nat, k: nat, row: seq<int>)
    requires Sound(o, limit) && WellFormed(sys, limit) && k < |sys.relations|
    requires var n, c := |sys.variables|, Coefficients(o, sys, sys.relations[k]);
             c != [] && |row| == n && |c| == n + 1 && forall env: Env :: EvalAll(c[..n], env) == row
    ensures var n, c := |sys.variables|, Coefficients(o, sys, sys.relations[k]);
            && RowSays(sys, sys.relations[k], row, Negated(c[n]))
            && NoneOf(FreeVars(Negated(c[n])), sys.variables) && Below(FreeVars(Negated(c[n])), limit)
  {
    var n := |sys.variables|;
    var rel := sys.relations[k];
    var diff := Bin(Sub, rel.a, rel.b);
    var e := o.simplify(sys.ranges, diff);
    var c := o.detect(e, sys.variables);
    assert FreeVars(Negated(c[n])) == FreeVars(c[n]);
    assert FreeVars(diff) == FreeVars(rel);
    SimplifiedBelow(o.simplify, sys, limit, diff);
    forall env: Env | InClosure(FreeVars(rel), sys.ranges, env)
      ensures Holds(rel, env) <==> Dot(row, VarValues(sys.variables, env)) == Eval(Negated(c[n]), env)
    {
      Simplified(o.simplify, sys.ranges, diff, env);
      assert EvalAll(c[..n], env) == row;
      assert Eval(e, env) == Dot(EvalAll(c[..n], env), VarValues(sys.variables, env)) + Eval(c[n], env);
    }
  }

  /** The row of relation k and its right-hand side, if it is solvable. */
  method ReadRow(o: Oracle, sys: IntConstraints, ghost limit: nat, k: nat) returns (row: Option<(seq<int>, Expr)>)
    requires Sound(o, limit) && WellFormed(sys, limit) && k < |sys.relations|
    ensures row.Some? <==> Solvable(o, sys, sys.relations[k])
    ensures row.Some? ==>
              |row.value.0| == |sys.variables| && RowSays(sys, sys.relations[k], row.value.0, row.value.1) &&
              NoneOf(FreeVars(row.value.1), sys.variables) && Below(FreeVars(row.value.1), limit)
  {
    var equation := sys.relations[k];
    row := None;
    if equation.Bin? && equation.op == EQ {
      var coeffs := o.detect(o.simplify(sys.ranges, Bin(Sub, equation.a, equation.b)), sys.variables);
      if coeffs != [] {
        var integers := IntegerRow(coeffs[..|coeffs| - 1]);
        if integers.Some? && integers.value != [] {
          EquationAsRow(o, sys, limit, k, integers.value);
          row := Some((integers.value, Negated(coeffs[|coeffs| - 1])));
        }
      }
    }
  }

  /** The first k relations as rows and rest. */
  ghost predicate Built(o: Oracle, sys: IntConstraints, limit: nat, k: nat, A: Matrix, y: seq<Expr>, rest: seq<Expr>)
    requires k <= |sys.relations|
  {
    && Rect(A, |y|, |sys.variables|) && (|sys.variables| == 0 ==> A == [])
    && RowsOf(o, sys, k, A, y) && rest == Others(o, sys, k)
    && Represents(sys, k, A, y, rest)
    && NoneOf(VarsOf(y), sys.variables) && Below(VarsOf(y), limit) && Below(VarsOf(rest), limit)
  }

  /** Sorts the relations: exactly the solvable ones become matrix rows, in order, and the others are
      the rest. */
  method BuildMatrix(o: Oracle, sys: IntConstraints, ghost limit: nat)
    returns (A: Matrix, y: seq<Expr>, rest: seq<Expr>)
    requires Sound(o, limit) && WellFormed(sys, limit)
    ensures Built(o, sys, limit, |sys.relations|, A, y, rest)
  {
    A, y, rest := [], [], [];
    for k := 0 to |sys.relations|
      invariant Built(o, sys, limit, k, A, y, rest)
    {
      var row := ReadRow(o, sys, limit, k);
      if row.Some? {
        AddRow(o, sys, k, A, y, rest, row.value.0, row.value.1);
        AppendVars(y, row.value.1);
        A, y := A + [row.value.0], y + [row.value.1];
      } else {
        AddRest(o, sys, k, A, y, rest);
        AppendVars(rest, sys.relations[k]);
        rest := rest + [sys.relations[k]];
      }
    }
  }

  lemma {:induction false} AppendVars(es: seq<Expr>, e: Expr)
    ensures VarsOf(es + [e]) == VarsOf(es) + FreeVars(e)
  {
    var all := es + [e];
    assert forall i :: 0 <= i < |es| ==> all[i] == es[i];
    assert all[|es|] == e;
  }

  lemma {:induction false} AddRow(o: Oracle, sys: IntConstraints, k: nat, A: Matrix, y: seq<Expr>, rest: seq<Expr>,
      row: seq<int>, rhs: Expr)
    requires k < |sys.relations| && Rect(A, |y|, |sys.variables|) && |row| == |sys.variables|
    requires Represents(sys, k, A, y, rest) && RowsOf(o, sys, k, A, y)
    requires Solvable(o, sys, sys.relations[k]) && RowSays(sys, sys.relations[k], row, rhs)
    ensures Rect(A + [row], |y| + 1, |sys.variables|) && Represents(sys, k + 1, A + [row], y + [rhs], rest)
    ensures RowsOf(o, sys, k + 1, A + [row], y + [rhs])
  {
    var A', y' := A + [row], y + [rhs];
    assert forall i :: 0 <= i < |y| ==> A'[i] == A[i] && y'[i] == y[i];
    assert A'[|y|] == row && y'[|y|] == rhs;
    RowRepresents(sys, k, A, y, rest, row, rhs);
  }

  lemma {:induction false} RowRepresents(sys: IntConstraints, k: nat, A: Matrix, y: seq<Expr>, rest: seq<Expr>,
      row: seq<int>, rhs: Expr)
    requires k < |sys.relations| && Rect(A, |y|, |sys.variables|) && |row| == |sys.variables|
    requires Represents(sys, k, A, y, rest) && RowSays(sys, sys.relations[k], row, rhs)
    ensures Represents(sys, k + 1, A + [row], y + [rhs], rest)
  {
    forall env: Env | InAll(sys.ranges, env)
      ensures AllHold(sys.relations[..k + 1], env) <==>
              RowsHold(A + [row], y + [rhs], sys.variables, env) && AllHold(rest, env)
    {
      assert sys.relations[..k + 1] == sys.relations[..k] + [sys.relations[k]];
      AllHoldAppend(sys.relations[..k], [sys.relations[k]], env);
      ClosureAll(FreeVars(sys.relations[k]), sys.ranges, env);
      assert AllHold([sys.relations[k]], env) <==> Holds([sys.relations[k]][0], env);
      RowsHoldNext(sys, A, y, row, rhs, env);
    }
  }

  lemma {:induction false} RowsHoldNext(sys: IntConstraints, A: Matrix, y: seq<Expr>, row: seq<int>, rhs: Expr,
      env: Env)
    requires Rect(A, |y|, |sys.variables|) && |row| == |sys.variables|
    ensures RowsHold(A + [row], y + [rhs], sys.variables, env) <==>
            RowsHold(A, y, sys.variables, env) && Dot(row, VarValues(sys.variables, env)) == Eval(rhs, env)
  {
    var A', y' := A + [row], y + [rhs];
    assert forall i :: 0 <= i < |y| ==> A'[i] == A[i] && y'[i] == y[i];
    assert A'[|y|] == row && y'[|y|] == rhs;
  }

  lemma {:induction false} AddRest(o: Oracle, sys: IntConstraints, k: nat, A: Matrix, y: seq<Expr>, rest: seq<Expr>)
    requires k < |sys.relations| && Rect(A, |y|, |sys.variables|) && !Solvable(o, sys, sys.relations[k])
    requires Represents(sys, k, A, y, rest) && RowsOf(o, sys, k, A, y)
    ensures Represents(sys, k + 1, A, y, rest + [sys.relations[k]]) && RowsOf(o, sys, k + 1, A, y)
  {
    assert Equations(o, sys, k + 1) == Equations(o, sys, k);
    RestRepresents(sys, k, A, y, rest);
  }

  lemma {:induction false} RestRepresents(sys: IntConstraints, k: nat, A: Matrix, y: seq<Expr>, rest: seq<Expr>)
    requires k < |sys.relations| && Rect(A, |y|, |sys.variables|) && Represents(sys, k, A, y, rest)
    ensures Represents(sys, k + 1, A, y, rest + [sys.relations[k]])
  {
    forall env: Env | InAll(sys.ranges, env)
      ensures AllHold(sys.relations[..k + 1], env) <==>
              RowsHold(A, y, sys.variables, env) && AllHold(rest + [sys.relations[k]], env)
    {
      assert sys.relations[..k + 1] == sys.relations[..k] + [sys.relations[k]];
      AllHoldAppend(sys.relations[..k], [sys.relations[k]], env);
      AllHoldAppend(rest, [sys.relations[k]], env);
    }
  }

  // ----- reading solutions off the diagonal ------------------------------------------------

  /** Variable j of the diagonal system is unconstrained. */
  predicate IsFree(S: Matrix, j: nat)
    requires j < |S| ==> j < |S[j]|
  {
    j >= |S| || S[j][j] == 0
  }

  /** When row j has a solution: its right-hand side is 0, or the diagonal entry divides it. */
  function ExistenceCondition(S: Matrix, y: seq<Expr>, j: nat): Expr
    requires j < |S| && j < |y|
  {
    if j >= |S[j]| || S[j][j] == 0 then Bin(EQ, y[j], IntImm(0))
    else Bin(EQ, Bin(FloorModOp, y[j], IntImm(Abs(S[j][j]))), IntImm(0))
  }

  /** The value of variable j forced by a nonzero diagonal entry s. */
  function Quotient(s: int, y: Expr): Expr
    requires s != 0
  {
    if s >= 0 then Bin(FloorDivOp, y, IntImm(s)) else Bin(FloorDivOp, Negated(y), IntImm(-s))
  }

  /** The condition says that s divides the right-hand side, and then Quotient is the factor. */
  lemma {:induction false} QuotientSolves(s: int, y: Expr, env: Env)
    requires s != 0
    ensures Holds(Bin(EQ, Bin(FloorModOp, y, IntImm(Abs(s))), IntImm(0)), env) <==> Divides(s, Eval(y, env))
    ensures Divides(s, Eval(y, env)) ==> s * Eval(Quotient(s, y), env) == Eval(y, env)
  {
    var v := Eval(y, env);
    var md := Bin(FloorModOp, y, IntImm(Abs(s)));
    assert Eval(md, env) == FloorMod(v, Abs(s));
    assert Eval(Bin(EQ, md, IntImm(0)), env) == Truth(Eval(md, env) == 0);
    RemainderZero(v, Abs(s));
    DividesAbs(s, v);
    if Divides(s, v) {
      var k := DividesElim(s, v);
      QuotientExact(s, k, y, env);
    }
  }

  lemma {:induction false} QuotientExact(s: int, t: int, y: Expr, env: Env)
    requires s != 0 && s * t == Eval(y, env)
    ensures Divides(s, Eval(y, env)) && t == Eval(Quotient(s, y), env)
  {
    DividesIntro(s, t);
    if s > 0 {
      TruncDivExact(t, s);
    } else {
      MulSigns(t, s);
      assert Eval(Negated(y), env) == t * (-s);
      TruncDivExact(t, -s);
    }
  }

  /** What the diagonalised state says about the original system. */
  ghost predicate DiagonalForm(sys: IntConstraints, st: State, m: nat, n: nat, limit: nat) {
    && n == |sys.variables| && Shaped(st, m, n)
    && (forall i, j :: 0 <= i < m && 0 <= j < n && i != j ==> st.S[i][j] == 0)
    && (forall env: Env :: MatVec(st.V, EvalAll(st.x, env)) == VarValues(sys.variables, env))
    && Injective(st.V, n)
    && NoneOf(VarsOf(st.y), sys.variables) && Below(VarsOf(st.y), limit) && Below(VarsOf(st.x), limit)
  }

  /** A row of the diagonal system is one product. */
  lemma {:induction false} DiagonalRow(sys: IntConstraints, st: State, m: nat, n: nat, limit: nat, i: nat, env: Env)
    requires DiagonalForm(sys, st, m, n, limit) && i < m
    ensures RowSolved(st, i, env) <==>
            (if i < n then st.S[i][i] * EvalAll(st.x, env)[i] else 0) == Eval(st.y[i], env)
  {
    DotSingle(st.S[i], EvalAll(st.x, env), i, n);
  }

  /** The solution set, exactly: rows without a pivot ask for a zero right-hand side, the others
      for divisibility and one forced value; the remaining values are free. */
  lemma {:induction false} SolvedExactly(sys: IntConstraints, st: State, m: nat, n: nat, limit: nat, env: Env)
    requires DiagonalForm(sys, st, m, n, limit)
    ensures Solved(st, m, n, env) <==>
            forall i :: 0 <= i < m ==> RowExactly(st, n, i, env)
  {
    forall i | 0 <= i < m ensures RowSolved(st, i, env) <==> RowExactly(st, n, i, env) {
      DiagonalRow(sys, st, m, n, limit, i, env);
      if i < n && st.S[i][i] != 0 {
        QuotientSolves(st.S[i][i], st.y[i], env);
        var x := EvalAll(st.x, env)[i];
        if st.S[i][i] * x == Eval(st.y[i], env) { QuotientExact(st.S[i][i], x, st.y[i], env); }
      }
    }
  }

  ghost predicate RowExactly(st: State, n: nat, i: nat, env: Env)
    requires i < |st.S| && i < |st.y| && |st.S[i]| == n && |st.x| == n
  {
    if i < n && st.S[i][i] != 0 then
      Divides(st.S[i][i], Eval(st.y[i], env)) && EvalAll(st.x, env)[i] == Eval(Quotient(st.S[i][i], st.y[i]), env)
    else Eval(st.y[i], env) == 0
  }

  /** V is invertible over the integers: every vector is the image of exactly one. */
  lemma {:induction false} ColumnTransformInvertible(sys: IntConstraints, st: State, m: nat, n: nat, limit: nat,
      t: seq<int>)
    returns (w: seq<int>)
    requires DiagonalForm(sys, st, m, n, limit) && |t| == n
    requires NoRepeats(sys.variables)
    ensures |w| == n && MatVec(st.V, w) == t
    ensures forall w': seq<int> :: |w'| == n && MatVec(st.V, w') == t ==> w' == w
  {
    var env := Assigned(sys.variables, t, n);
    AssignedValues(sys.variables, t, n);
    w := EvalAll(st.x, env);
    assert VarValues(sys.variables, env) == t;
  }

  /** The valuation that gives the first k variables the first k values. */
  function Assigned(vs: seq<nat>, t: seq<int>, k: nat): Env
    requires k <= |vs| && k <= |t|
  {
    if k == 0 then map[] else Assigned(vs, t, k - 1)[vs[k - 1] := t[k - 1]]
  }

  lemma {:induction false} AssignedValues(vs: seq<nat>, t: seq<int>, k: nat)
    requires k <= |vs| && k <= |t| && NoRepeats(vs)
    ensures forall i :: 0 <= i < k ==> Get(Assigned(vs, t, k), vs[i]) == t[i]
  {
    if k > 0 { AssignedValues(vs, t, k - 1); }
  }

  function NewVar(limit: nat, j: nat): nat { limit + j }

  /** The term for variable j of the diagonal system: a new variable, or the forced value. */
  function SolutionTerm(o: Oracle, sys: IntConstraints, st: State, limit: nat, j: nat): Expr
    requires j < |st.S| ==> j < |st.S[j]| && j < |st.y|
  {
    if IsFree(st.S, j) then Var(NewVar(limit, j)) else o.simplify(sys.ranges, Quotient(st.S[j][j], st.y[j]))
  }

  /** The sum of the first k products of constants and terms. */
  function Combine(coefs: seq<int>, es: seq<Expr>, k: nat): Expr
    requires k <= |coefs| && k <= |es|
  {
    if k == 0 then IntImm(0) else Bin(Add, Combine(coefs, es, k - 1), Scale(coefs[k - 1], es[k - 1]))
  }

  lemma {:induction false} CombineEval(coefs: seq<int>, es: seq<Expr>, k: nat, env: Env)
    requires k <= |coefs| && k <= |es|
    ensures Eval(Combine(coefs, es, k), env) == DotTo(coefs, EvalAll(es, env), k)
    ensures FreeVars(Combine(coefs, es, k)) <= VarsOf(es)
  {
    if k > 0 {
      CombineEval(coefs, es, k - 1, env);
      assert Eval(Scale(coefs[k - 1], es[k - 1]), env) == coefs[k - 1] * Eval(es[k - 1], env);
      assert FreeVars(IntImm(coefs[k - 1])) == {};
      assert FreeVars(Scale(coefs[k - 1], es[k - 1])) == FreeVars(IntImm(coefs[k - 1])) + FreeVars(es[k - 1]);
    }
  }

  // ----- the assembled transform -----------------------------------------------------------

  /** All the pieces of one run that reaches the end. */
  datatype Parts = Parts(
    o: Oracle, sys: IntConstraints, st: State, m: nat, n: nat, limit: nat,
    rest: seq<Expr>, exist: seq<Expr>, sols: seq<Expr>,
    toOld: Subst, toNew: Subst, ranges: Ranges, conds: seq<Expr>)

  /** The terms of the first j columns, and the old forms of those that are free. */
  ghost predicate TermsUpTo(o: Oracle, sys: IntConstraints, st: State, m: nat, n: nat, limit: nat, j: nat,
      sols: seq<Expr>, toOld: Subst)
    requires Shaped(st, m, n) && j <= n
  {
    && |sols| == j
    && (forall k :: 0 <= k < j ==> sols[k] == SolutionTerm(o, sys, st, limit, k))
    && (forall z :: z in toOld ==>
          limit <= z < limit + j && toOld[z] == o.simplify(sys.ranges, st.x[z - limit]))
    && (forall k :: 0 <= k < j && IsFree(st.S, k) ==>
          NewVar(limit, k) in toOld && toOld[NewVar(limit, k)] == o.simplify(sys.ranges, st.x[k]))
  }

  /** The terms solving the diagonal system, and the new variables in terms of the old. */
  ghost predicate SolutionTerms(o: Oracle, sys: IntConstraints, st: State, m: nat, n: nat, limit: nat, sols: seq<Expr>,
      toOld: Subst)
    requires Shaped(st, m, n)
  {
    TermsUpTo(o, sys, st, m, n, limit, n, sols, toOld)
  }

  /** The old variables in terms of the solution terms: V times the terms. */
  ghost predicate OldForms(o: Oracle, sys: IntConstraints, V: Matrix, sols: seq<Expr>, toNew: Subst) {
    var n := |sys.variables|;
    && Rect(V, n, n) && |sols| == n
    && (forall v :: v in toNew <==> v in sys.variables)
    && (forall i :: 0 <= i < n ==>
          sys.variables[i] in toNew &&
          toNew[sys.variables[i]] == o.simplify(sys.ranges, Combine(V[i], sols, n)))
  }

  ghost predicate Terms(p: Parts) {
    && Sound(p.o, p.limit) && WellFormed(p.sys, p.limit)
    && DiagonalForm(p.sys, p.st, p.m, p.n, p.limit)
    && SolutionTerms(p.o, p.sys, p.st, p.m, p.n, p.limit, p.sols, p.toOld)
    && OldForms(p.o, p.sys, p.st.V, p.sols, p.toNew)
    && p.ranges == InferRange(p.o, p.toOld, p.sys)
  }

  ghost predicate ExistenceHolds(o: Oracle, sys: IntConstraints, st: State, m: nat, n: nat, env: Env)
    requires Shaped(st, m, n)
  {
    forall j :: 0 <= j < m ==> Holds(o.simplify(sys.ranges, ExistenceCondition(st.S, st.y, j)), env)
  }

  /** The old ranges of the solved variables, stated on their new forms. */
  ghost predicate OldRangesHold(o: Oracle, sys: IntConstraints, ranges: Ranges, toNew: Subst, env: Env)
    requires forall v :: v in sys.variables ==> v in toNew
  {
    forall v :: v in sys.ranges && v in sys.variables ==>
      Holds(o.simplify(ranges, LowerCondition(sys.ranges[v], toNew[v])), env) &&
      Holds(o.simplify(ranges, UpperCondition(sys.ranges[v], toNew[v])), env)
  }

  /** On in-range valuations, the relations are the diagonal equations and the rest. */
  ghost predicate Decomposed(sys: IntConstraints, st: State, m: nat, n: nat, rest: seq<Expr>)
    requires Shaped(st, m, n)
  {
    forall env: Env :: InAll(sys.ranges, env) ==>
      (AllHold(sys.relations, env) <==> Solved(st, m, n, env) && AllHold(rest, env))
  }

  ghost predicate SaysExistence(o: Oracle, sys: IntConstraints, st: State, m: nat, n: nat, exist: seq<Expr>)
    requires Shaped(st, m, n)
  {
    forall env: Env :: AllHold(exist, env) <==> ExistenceHolds(o, sys, st, m, n, env)
  }

  ghost predicate SaysOldRanges(o: Oracle, sys: IntConstraints, ranges: Ranges, toNew: Subst, conds: seq<Expr>)
    requires forall v :: v in sys.variables ==> v in toNew
  {
    forall env: Env :: AllHold(conds, env) <==> OldRangesHold(o, sys, ranges, toNew, env)
  }

  ghost predicate Assembled(p: Parts) {
    && Terms(p) && Below(VarsOf(p.rest), p.limit)
    && Decomposed(p.sys, p.st, p.m, p.n, p.rest)
    && SaysExistence(p.o, p.sys, p.st, p.m, p.n, p.exist)
    && SaysOldRanges(p.o, p.sys, p.ranges, p.toNew, p.conds)
  }

  /** Ranges of outer variables carry over; a new variable gets the range covering its old form. */
  function InferRange(o: Oracle, toOld: Subst, sys: IntConstraints): Ranges {
    (map v | v in sys.ranges && v !in sys.variables :: sys.ranges[v]) +
    (map z | z in toOld && o.cover(sys.ranges, toOld[z]).Some? :: o.cover(sys.ranges, toOld[z]).value)
  }

  function LowerCondition(r: Range, e: Expr): Expr { Bin(LE, r.min, e) }
  function UpperCondition(r: Range, e: Expr): Expr { Bin(LT, e, Bin(Add, r.min, r.extent)) }

  // ----- from solutions of the source to solutions of the result ---------------------------

  lemma {:induction false} RangeAgree(r: Range, x: int, env: Env, env': Env)
    requires Agree(RangeVars(r), env, env')
    ensures InRange(r, x, env) <==> InRange(r, x, env')
  {
    EvalAgree(r.min, env, env');
    EvalAgree(r.extent, env, env');
  }

  /** Ranges of the source read no new variable. */
  lemma {:induction false} SourceRangesAgree(sys: IntConstraints, limit: nat, vs: set<nat>, env: Env, env': Env)
    requires WellFormed(sys, limit) && forall v: nat :: v < limit ==> Get(env, v) == Get(env', v)
    ensures InRanges(vs, sys.ranges, env) <==> InRanges(vs, sys.ranges, env')
  {
    forall v | v in vs && v in sys.ranges
      ensures InRange(sys.ranges[v], Get(env, v), env) <==> InRange(sys.ranges[v], Get(env', v), env')
    {
      RangeAgree(sys.ranges[v], Get(env, v), env, env');
    }
  }

  /** Right-hand sides read neither the solved variables nor the new ones. */
  lemma {:induction false} RhsAgree(p: Parts, j: nat, env: Env, env': Env)
    requires Terms(p) && j < p.m
    requires forall v: nat :: v < p.limit && v !in p.sys.variables ==> Get(env, v) == Get(env', v)
    ensures Eval(p.st.y[j], env) == Eval(p.st.y[j], env')
    ensures FreeVars(p.st.y[j]) <= VarsOf(p.st.y)
  {
    assert FreeVars(p.st.y[j]) <= VarsOf(p.st.y);
    EvalAgree(p.st.y[j], env, env');
  }

  lemma {:induction false} ConditionVars(S: Matrix, y: seq<Expr>, j: nat)
    requires j < |S| && j < |y|
    ensures FreeVars(ExistenceCondition(S, y, j)) == FreeVars(y[j])
    ensures j < |S[j]| && S[j][j] != 0 ==> FreeVars(Quotient(S[j][j], y[j])) == FreeVars(y[j])
  {
    assert FreeVars(IntImm(0)) == {};
    if j < |S[j]| && S[j][j] != 0 {
      assert FreeVars(IntImm(Abs(S[j][j]))) == {};
      assert FreeVars(Bin(FloorModOp, y[j], IntImm(Abs(S[j][j])))) == FreeVars(y[j]);
      assert FreeVars(Negated(y[j])) == FreeVars(y[j]);
      assert FreeVars(IntImm(S[j][j])) == {} && FreeVars(IntImm(-S[j][j])) == {};
    }
  }

  /** Where the outer variables are in range, the simplified condition of row j says that the
      row has a solution. */
  lemma {:induction false} ConditionMeaning(simplify: Simplifier, rs: Ranges, st: State, m: nat, n: nat, j: nat,
      env: Env)
    requires SimplifierSound(simplify) && Shaped(st, m, n) && j < m
    requires InClosure(VarsOf(st.y), rs, env)
    ensures Holds(simplify(rs, ExistenceCondition(st.S, st.y, j)), env) <==>
            (if j < n && st.S[j][j] != 0 then Divides(st.S[j][j], Eval(st.y[j], env)) else Eval(st.y[j], env) == 0)
  {
    var cond := ExistenceCondition(st.S, st.y, j);
    assert FreeVars(st.y[j]) <= VarsOf(st.y);
    ConditionVars(st.S, st.y, j);
    ClosurePart(FreeVars(cond), VarsOf(st.y), rs, env);
    Simplified(simplify, rs, cond, env);
    if j < n && st.S[j][j] != 0 {
      QuotientSolves(st.S[j][j], st.y[j], env);
    } else {
      assert Eval(cond, env) == Truth(Eval(st.y[j], env) == 0);
    }
  }

  /** And the simplified quotient is that solution. */
  lemma {:induction false} RowMeaning(p: Parts, j: nat, env: Env)
    requires Terms(p) && j < p.m
    requires InClosure(VarsOf(p.st.y), p.sys.ranges, env)
    ensures Holds(p.o.simplify(p.sys.ranges, ExistenceCondition(p.st.S, p.st.y, j)), env) <==>
            (if j < p.n && p.st.S[j][j] != 0 then Divides(p.st.S[j][j], Eval(p.st.y[j], env))
             else Eval(p.st.y[j], env) == 0)
    ensures j < p.n && p.st.S[j][j] != 0 ==>
            Eval(p.sols[j], env) == Eval(Quotient(p.st.S[j][j], p.st.y[j]), env)
  {
    ConditionMeaning(p.o.simplify, p.sys.ranges, p.st, p.m, p.n, j, env);
    if j < p.n && p.st.S[j][j] != 0 {
      assert FreeVars(p.st.y[j]) <= VarsOf(p.st.y);
      ConditionVars(p.st.S, p.st.y, j);
      ClosurePart(FreeVars(p.st.y[j]), VarsOf(p.st.y), p.sys.ranges, env);
      Simplified(p.o.simplify, p.sys.ranges, Quotient(p.st.S[j][j], p.st.y[j]), env);
    }
  }

  /** The terms of the solution read outer variables and new variables. */
  lemma {:induction false} SolutionVars(p: Parts, j: nat)
    requires Terms(p) && j < p.n
    ensures IsFree(p.st.S, j) ==> FreeVars(p.sols[j]) == {NewVar(p.limit, j)}
    ensures !IsFree(p.st.S, j) ==> Reached(FreeVars(p.sols[j]), VarsOf(p.st.y), p.sys.ranges)
  {
    if !IsFree(p.st.S, j) {
      var q := Quotient(p.st.S[j][j], p.st.y[j]);
      ConditionVars(p.st.S, p.st.y, j);
      assert FreeVars(p.st.y[j]) <= VarsOf(p.st.y);
      SimplifiedVars(p.o.simplify, p.sys.ranges, q);
      ReachedPart(FreeVars(p.sols[j]), FreeVars(q), VarsOf(p.st.y), p.sys.ranges);
    }
  }

  /** A set closed under the ranges that holds the outer variables of the right-hand sides holds all
      that the terms read, up to new variables, which have no range in the source. */
  lemma {:induction false} TermsWithin(p: Parts, i: nat, c: set<nat>)
    requires Terms(p) && i < p.n && VarsOf(p.st.y) <= c && Closed(c, p.sys.ranges)
    ensures var e := Combine(p.st.V[i], p.sols, p.n);
            (forall v :: v in FreeVars(e) ==> v in c || v >= p.limit) && Closed(c + FreeVars(e), p.sys.ranges)
  {
    var e := Combine(p.st.V[i], p.sols, p.n);
    CombineEval(p.st.V[i], p.sols, p.n, map[]);
    forall v | v in FreeVars(e) ensures v in c || v >= p.limit {
      assert v in VarsOf(p.sols);
      var j :| 0 <= j < p.n && v in FreeVars(p.sols[j]);
      SolutionVars(p, j);
    }
  }

  lemma {:induction false} TermsClosure(p: Parts, i: nat, env: Env)
    requires Terms(p) && i < p.n && InClosure(VarsOf(p.st.y), p.sys.ranges, env)
    ensures InClosure(FreeVars(Combine(p.st.V[i], p.sols, p.n)), p.sys.ranges, env)
  {
    var e := Combine(p.st.V[i], p.sols, p.n);
    var c :| VarsOf(p.st.y) <= c && Closed(c, p.sys.ranges) && InRanges(c, p.sys.ranges, env);
    TermsWithin(p, i, c);
    var c' := c + FreeVars(e);
    assert FreeVars(e) <= c' && Closed(c', p.sys.ranges) && InRanges(c', p.sys.ranges, env);
  }

  /** An old variable in terms of the new ones: its row of V applied to the solution terms. */
  lemma {:induction false} OldFromNew(p: Parts, i: nat, env: Env)
    requires Terms(p) && i < p.n && InClosure(VarsOf(p.st.y), p.sys.ranges, env)
    ensures Eval(p.toNew[p.sys.variables[i]], env) == Dot(p.st.V[i], EvalAll(p.sols, env))
  {
    var e := Combine(p.st.V[i], p.sols, p.n);
    CombineEval(p.st.V[i], p.sols, p.n, env);
    TermsClosure(p, i, env);
    Simplified(p.o.simplify, p.sys.ranges, e, env);
  }

  ghost function Forward(p: Parts, env: Env): Env { Through(p.toOld, env) }

  lemma {:induction false} ForwardKeeps(p: Parts, env: Env)
    requires Terms(p)
    ensures forall v: nat :: v < p.limit ==> Get(Forward(p, env), v) == Get(env, v)
  {}

  /** Carried forward, the solution terms take the values of V^{-1} x, and the existence
      conditions hold. */
  lemma {:induction false} ForwardRows(p: Parts, env: Env)
    requires Terms(p) && InAll(p.sys.ranges, env) && Solved(p.st, p.m, p.n, env)
    ensures InClosure(VarsOf(p.st.y), p.sys.ranges, Forward(p, env))
    ensures EvalAll(p.sols, Forward(p, env)) == EvalAll(p.st.x, env)
    ensures ExistenceHolds(p.o, p.sys, p.st, p.m, p.n, Forward(p, env))
  {
    var env' := Forward(p, env);
    ForwardKeeps(p, env);
    SourceRangesAgree(p.sys, p.limit, p.sys.ranges.Keys, env, env');
    ClosureAll(VarsOf(p.st.y), p.sys.ranges, env');
    forall j | 0 <= j < p.m
      ensures Holds(p.o.simplify(p.sys.ranges, ExistenceCondition(p.st.S, p.st.y, j)), env')
    {
      ForwardRow(p, env, j);
    }
    forall j | 0 <= j < p.n ensures Eval(p.sols[j], env') == Eval(p.st.x[j], env) {
      if IsFree(p.st.S, j) { ForwardFree(p, env, j); } else { ForwardRow(p, env, j); }
    }
  }

  lemma {:induction false} ForwardFree(p: Parts, env: Env, j: nat)
    requires SimplifierSound(p.o.simplify) && InAll(p.sys.ranges, env)
    requires j < |p.st.x| && j < |p.sols| && NewVar(p.limit, j) in p.toOld
    requires p.toOld[NewVar(p.limit, j)] == p.o.simplify(p.sys.ranges, p.st.x[j])
    requires p.sols[j] == Var(NewVar(p.limit, j))
    ensures Eval(p.sols[j], Forward(p, env)) == Eval(p.st.x[j], env)
  {
    NewVariableValue(p.o.simplify, p.sys.ranges, p.toOld, NewVar(p.limit, j), p.st.x[j], env);
  }

  lemma {:induction false} NewVariableValue(simplify: Simplifier, rs: Ranges, toOld: Subst, z: nat, e: Expr, env: Env)
    requires SimplifierSound(simplify) && InAll(rs, env)
    requires z in toOld && toOld[z] == simplify(rs, e)
    ensures Eval(Var(z), Through(toOld, env)) == Eval(e, env)
  {
    SimplifiedInAll(simplify, rs, e, env);
  }

  lemma {:induction false} RangesBelow(sys: IntConstraints, limit: nat)
    requires WellFormed(sys, limit)
    ensures Below(AllRangeVars(sys.ranges), limit)
  {
    forall u | u in AllRangeVars(sys.ranges) ensures u < limit {
      var v :| v in sys.ranges && u in RangeVars(sys.ranges[v]);
    }
  }

  /** The covering range of an old expression covers its value and mentions old variables only. */
  lemma {:induction false} CoveredValue(o: Oracle, sys: IntConstraints, limit: nat, e: Expr, env: Env)
    requires CoverSound(o.cover, limit) && WellFormed(sys, limit) && InAll(sys.ranges, env)
    requires Below(FreeVars(e), limit) && o.cover(sys.ranges, e).Some?
    ensures Below(RangeVars(o.cover(sys.ranges, e).value), limit)
    ensures InRange(o.cover(sys.ranges, e).value, Eval(e, env), env)
  {
    RangesBelow(sys, limit);
  }

  /** A simplified old form reads old variables only. */
  lemma {:induction false} OldFormBelow(simplify: Simplifier, sys: IntConstraints, limit: nat, xs: seq<Expr>, j: nat)
    requires SimplifierSound(simplify) && WellFormed(sys, limit) && Below(VarsOf(xs), limit) && j < |xs|
    ensures Below(FreeVars(simplify(sys.ranges, xs[j])), limit)
  {
    assert FreeVars(xs[j]) <= VarsOf(xs);
    SimplifiedBelow(simplify, sys, limit, xs[j]);
  }

  lemma {:induction false} SimplifiedBelow(simplify: Simplifier, sys: IntConstraints, limit: nat, e: Expr)
    requires SimplifierSound(simplify) && WellFormed(sys, limit) && Below(FreeVars(e), limit)
    ensures Below(FreeVars(simplify(sys.ranges, e)), limit)
  {
    SimplifiedVars(simplify, sys.ranges, e);
    RangesBelow(sys, limit);
  }

  /** What the new variable z stands for in the old ones. */
  ghost predicate OldFormOf(simplify: Simplifier, sys: IntConstraints, limit: nat, xs: seq<Expr>, toOld: Subst,
      z: nat)
  {
    z in toOld && limit <= z < limit + |xs| && toOld[z] == simplify(sys.ranges, xs[z - limit])
  }

  lemma {:induction false} TermsOldForm(p: Parts, z: nat)
    requires Terms(p) && z in p.toOld
    ensures OldFormOf(p.o.simplify, p.sys, p.limit, p.st.x, p.toOld, z)
  {}

  lemma {:induction false} ToOldBelow(simplify: Simplifier, sys: IntConstraints, limit: nat, xs: seq<Expr>,
      toOld: Subst, z: nat)
    requires SimplifierSound(simplify) && WellFormed(sys, limit) && Below(VarsOf(xs), limit)
    requires OldFormOf(simplify, sys, limit, xs, toOld, z)
    ensures Below(FreeVars(toOld[z]), limit)
  {
    OldFormBelow(simplify, sys, limit, xs, z - limit);
  }

  /** A range of the result covers the value that its variable is given. */
  lemma {:induction false} InferredRange(o: Oracle, sys: IntConstraints, limit: nat, toOld: Subst, v: nat, env: Env)
    requires CoverSound(o.cover, limit) && WellFormed(sys, limit) && InAll(sys.ranges, env)
    requires v in InferRange(o, toOld, sys) && (v in toOld ==> v !in sys.ranges && Below(FreeVars(toOld[v]), limit))
    ensures Below(RangeVars(InferRange(o, toOld, sys)[v]), limit)
    ensures InRange(InferRange(o, toOld, sys)[v], if v in toOld then Eval(toOld[v], env) else Get(env, v), env)
  {
    if v in toOld { CoveredValue(o, sys, limit, toOld[v], env); }
  }

  lemma {:induction false} ForwardRange(p: Parts, env: Env, v: nat)
    requires Terms(p) && InAll(p.sys.ranges, env) && v in p.ranges
    ensures InRange(p.ranges[v], Get(Forward(p, env), v), Forward(p, env))
  {
    var env' := Forward(p, env);
    ForwardKeeps(p, env);
    if v in p.toOld {
      TermsOldForm(p, v);
      ToOldBelow(p.o.simplify, p.sys, p.limit, p.st.x, p.toOld, v);
    }
    InferredRange(p.o, p.sys, p.limit, p.toOld, v, env);
    RangeAgree(p.ranges[v], Get(env', v), env, env');
  }

  lemma {:induction false} ForwardRow(p: Parts, env: Env, j: nat)
    requires Terms(p) && Solved(p.st, p.m, p.n, env) && j < p.m
    requires InClosure(VarsOf(p.st.y), p.sys.ranges, Forward(p, env))
    ensures Holds(p.o.simplify(p.sys.ranges, ExistenceCondition(p.st.S, p.st.y, j)), Forward(p, env))
    ensures j < p.n && p.st.S[j][j] != 0 ==> Eval(p.sols[j], Forward(p, env)) == Eval(p.st.x[j], env)
  {
    var env' := Forward(p, env);
    ForwardKeeps(p, env);
    assert RowSolved(p.st, j, env);
    DiagonalRow(p.sys, p.st, p.m, p.n, p.limit, j, env);
    RhsAgree(p, j, env, env');
    RowMeaning(p, j, env');
    if j < p.n && p.st.S[j][j] != 0 {
      QuotientExact(p.st.S[j][j], Eval(p.st.x[j], env), p.st.y[j], env');
    }
  }

  /** Every old variable is recovered, and the new ranges hold. */
  lemma {:induction false} ForwardRecovers(p: Parts, env: Env)
    requires Terms(p) && InAll(p.sys.ranges, env) && Solved(p.st, p.m, p.n, env)
    ensures forall i :: 0 <= i < p.n ==>
              Eval(p.toNew[p.sys.variables[i]], Forward(p, env)) == Get(env, p.sys.variables[i])
    ensures InAll(p.ranges, Forward(p, env))
  {
    var env' := Forward(p, env);
    ForwardKeeps(p, env);
    ForwardRows(p, env);
    forall i | 0 <= i < p.n ensures Eval(p.toNew[p.sys.variables[i]], env') == Get(env, p.sys.variables[i]) {
      OldFromNew(p, i, env');
      assert MatVec(p.st.V, EvalAll(p.st.x, env))[i] == VarValues(p.sys.variables, env)[i];
    }
    forall v | v in p.ranges ensures InRange(p.ranges[v], Get(env', v), env') {
      ForwardRange(p, env, v);
    }
  }

  /** The dst system of the assembled transform. */
  function Target(p: Parts, newVars: seq<nat>): IntConstraints {
    IntConstraints(newVars, p.ranges, p.exist + p.conds + ApplyAll(p.rest, p.toNew))
  }

  lemma {:induction false} TargetRelations(p: Parts, newVars: seq<nat>, env: Env)
    ensures AllHold(Target(p, newVars).relations, env) <==>
            AllHold(p.exist, env) && AllHold(p.conds, env) && AllHold(ApplyAll(p.rest, p.toNew), env)
  {
    AllHoldAppend(p.exist + p.conds, ApplyAll(p.rest, p.toNew), env);
    AllHoldAppend(p.exist, p.conds, env);
  }

  lemma {:induction false} RestThrough(p: Parts, env: Env, env': Env)
    requires Below(VarsOf(p.rest), p.limit)
    requires forall v: nat :: v < p.limit ==> Get(Through(p.toNew, env'), v) == Get(env, v)
    ensures AllHold(ApplyAll(p.rest, p.toNew), env') <==> AllHold(p.rest, env)
  {
    forall i | 0 <= i < |p.rest|
      ensures Holds(ApplyAll(p.rest, p.toNew)[i], env') <==> Holds(p.rest[i], env)
    {
      SubstituteEval(p.rest[i], p.toNew, env');
      assert FreeVars(p.rest[i]) <= VarsOf(p.rest);
      EvalAgree(p.rest[i], Through(p.toNew, env'), env);
    }
  }

  /** The simplified range conditions on e say that e is in range. */
  lemma {:induction false} RangeConditions(simplify: Simplifier, rs: Ranges, r: Range, e: Expr, env: Env)
    requires SimplifierSound(simplify) && InAll(rs, env)
    ensures (Holds(simplify(rs, LowerCondition(r, e)), env) && Holds(simplify(rs, UpperCondition(r, e)), env)) <==>
            InRange(r, Eval(e, env), env)
  {
    SimplifiedInAll(simplify, rs, LowerCondition(r, e), env);
    SimplifiedInAll(simplify, rs, UpperCondition(r, e), env);
    assert Eval(Bin(Add, r.min, r.extent), env) == Eval(r.min, env) + Eval(r.extent, env);
  }

  lemma {:induction false} ForwardCarries(p: Parts, newVars: seq<nat>, env: Env)
    requires Assembled(p) && Satisfies(p.sys, env)
    ensures Satisfies(Target(p, newVars), Forward(p, env))
    ensures forall v :: v in p.sys.variables ==> v in p.toNew && Eval(p.toNew[v], Forward(p, env)) == Get(env, v)
  {
    var env' := Forward(p, env);
    ForwardKeeps(p, env);
    ForwardRows(p, env);
    ForwardRecovers(p, env);
    forall v | v in p.sys.variables ensures v in p.toNew && Eval(p.toNew[v], env') == Get(env, v) {
      var i :| 0 <= i < p.n && p.sys.variables[i] == v;
    }
    assert OldRangesHold(p.o, p.sys, p.ranges, p.toNew, env') by {
      forall v | v in p.sys.ranges && v in p.sys.variables
        ensures Holds(p.o.simplify(p.ranges, LowerCondition(p.sys.ranges[v], p.toNew[v])), env')
        ensures Holds(p.o.simplify(p.ranges, UpperCondition(p.sys.ranges[v], p.toNew[v])), env')
      {
        RangeConditions(p.o.simplify, p.ranges, p.sys.ranges[v], p.toNew[v], env');
        RangeAgree(p.sys.ranges[v], Get(env, v), env, env');
      }
    }
    RestThrough(p, env, env');
    TargetRelations(p, newVars, env');
  }

  // ----- and back --------------------------------------------------------------------------

  ghost function Backward(p: Parts, env: Env): Env { Through(p.toNew, env) }

  lemma {:induction false} BackwardKeeps(p: Parts, env: Env)
    requires Terms(p)
    ensures forall v: nat :: v !in p.sys.variables ==> Get(Backward(p, env), v) == Get(env, v)
    ensures forall i :: 0 <= i < p.n ==>
              Get(Backward(p, env), p.sys.variables[i]) == Eval(p.toNew[p.sys.variables[i]], env)
  {}

  lemma {:induction false} OuterInRange(p: Parts, v: nat, env: Env)
    requires Terms(p) && InAll(p.ranges, env) && v in p.sys.ranges && v !in p.sys.variables
    ensures InRange(p.sys.ranges[v], Get(env, v), env)
  {
    assert v !in p.toOld;
    assert v in p.ranges && p.ranges[v] == p.sys.ranges[v];
  }

  /** The solved variables that the ranges mention are settled, and the old ranges hold. */
  ghost predicate Ready(p: Parts, env: Env)
    requires Terms(p)
  {
    && InAll(p.ranges, env) && OldRangesHold(p.o, p.sys, p.ranges, p.toNew, env)
    && Settled(AllRangeVars(p.sys.ranges), p.toNew, env)
  }

  /** Both sides read the same values in the ranges. */
  lemma {:induction false} RangesSettled(p: Parts, env: Env, v: nat, x: int)
    requires Terms(p) && Settled(AllRangeVars(p.sys.ranges), p.toNew, env) && v in p.sys.ranges
    ensures InRange(p.sys.ranges[v], x, env) <==> InRange(p.sys.ranges[v], x, Backward(p, env))
  {
    BackwardKeeps(p, env);
    forall u | u in RangeVars(p.sys.ranges[v]) ensures Get(env, u) == Get(Backward(p, env), u) {
      assert u in AllRangeVars(p.sys.ranges);
    }
    RangeAgree(p.sys.ranges[v], x, env, Backward(p, env));
  }

  lemma {:induction false} BackwardRange(p: Parts, env: Env, v: nat)
    requires Terms(p) && Ready(p, env) && v in p.sys.ranges
    ensures InRange(p.sys.ranges[v], Get(Backward(p, env), v), Backward(p, env))
  {
    BackwardKeeps(p, env);
    RangesSettled(p, env, v, Get(Backward(p, env), v));
    if v in p.sys.variables {
      OldRangeHolds(p.o, p.sys, p.ranges, p.toNew, env, v);
    } else {
      OuterInRange(p, v, env);
    }
  }

  lemma {:induction false} OldRangeHolds(o: Oracle, sys: IntConstraints, ranges: Ranges, toNew: Subst, env: Env, v: nat)
    requires SimplifierSound(o.simplify) && forall u :: u in sys.variables ==> u in toNew
    requires InAll(ranges, env) && OldRangesHold(o, sys, ranges, toNew, env)
    requires v in sys.ranges && v in sys.variables
    ensures InRange(sys.ranges[v], Eval(toNew[v], env), env)
  {
    RangeConditions(o.simplify, ranges, sys.ranges[v], toNew[v], env);
  }

  /** V applied to the solution terms gives the old variables, and V is one-to-one, so the
      terms are V^{-1} x. */
  lemma {:induction false} BackwardVector(p: Parts, env: Env)
    requires Terms(p) && InClosure(VarsOf(p.st.y), p.sys.ranges, env)
    ensures EvalAll(p.st.x, Backward(p, env)) == EvalAll(p.sols, env)
  {
    var env' := Backward(p, env);
    BackwardKeeps(p, env);
    var s, w := EvalAll(p.sols, env), EvalAll(p.st.x, env');
    forall i | 0 <= i < p.n ensures MatVec(p.st.V, s)[i] == MatVec(p.st.V, w)[i] {
      OldFromNew(p, i, env);
      assert MatVec(p.st.V, w)[i] == VarValues(p.sys.variables, env')[i];
    }
    assert MatVec(p.st.V, s) == MatVec(p.st.V, w);
  }

  lemma {:induction false} BackwardRows(p: Parts, env: Env)
    requires Terms(p) && InClosure(VarsOf(p.st.y), p.sys.ranges, env) && ExistenceHolds(p.o, p.sys, p.st, p.m, p.n, env)
    ensures Solved(p.st, p.m, p.n, Backward(p, env))
  {
    var env' := Backward(p, env);
    BackwardKeeps(p, env);
    BackwardVector(p, env);
    forall j | 0 <= j < p.m ensures RowSolved(p.st, j, env') {
      DiagonalRow(p.sys, p.st, p.m, p.n, p.limit, j, env');
      RhsAgree(p, j, env, env');
      RowMeaning(p, j, env);
      if j < p.n && p.st.S[j][j] != 0 { QuotientSolves(p.st.S[j][j], p.st.y[j], env); }
      assert EvalAll(p.st.x, env') == EvalAll(p.sols, env);
    }
  }

  /** Every new variable is recovered from the old ones. */
  lemma {:induction false} BackwardRecovers(p: Parts, env: Env, j: nat)
    requires Terms(p) && InClosure(VarsOf(p.st.y), p.sys.ranges, env) && j < p.n && IsFree(p.st.S, j)
    requires InAll(p.sys.ranges, Backward(p, env))
    ensures NewVar(p.limit, j) in p.toOld
    ensures Eval(p.toOld[NewVar(p.limit, j)], Backward(p, env)) == Get(env, NewVar(p.limit, j))
  {
    BackwardVector(p, env);
    TermsAgree(p.st.x, p.sols, Backward(p, env), env, j);
    SimplifiedInAll(p.o.simplify, p.sys.ranges, p.st.x[j], Backward(p, env));
  }

  lemma {:induction false} TermsAgree(es: seq<Expr>, es': seq<Expr>, env: Env, env': Env, j: nat)
    requires EvalAll(es, env) == EvalAll(es', env') && j < |es|
    ensures |es'| == |es| && Eval(es[j], env) == Eval(es'[j], env')
  {
    assert EvalAll(es, env)[j] == EvalAll(es', env')[j];
  }

  /** The new variables are the ones of the free columns. */
  ghost predicate NewVariables(p: Parts, newVars: seq<nat>, columns: seq<nat>)
    requires Shaped(p.st, p.m, p.n)
  {
    |columns| == |newVars| &&
    forall k :: 0 <= k < |newVars| ==>
      columns[k] < p.n && IsFree(p.st.S, columns[k]) && newVars[k] == NewVar(p.limit, columns[k])
  }

  // ----- which solutions return --------------------------------------------------------------

  /** The forms of the old variables and the existence conditions read variables of c and new ones. */
  ghost predicate FormsRead(p: Parts, c: set<nat>)
    requires Terms(p)
  {
    && (forall i, v :: 0 <= i < p.n && v in FreeVars(p.toNew[p.sys.variables[i]]) ==> v in c || v >= p.limit)
    && (forall j :: 0 <= j < p.m ==> FreeVars(p.o.simplify(p.sys.ranges, ExistenceCondition(p.st.S, p.st.y, j))) <= c)
  }

  /** They read what the ranges of the outer variables in the right-hand sides depend on. */
  lemma {:induction false} FormsReadClosed(p: Parts, c: set<nat>)
    requires Terms(p) && VarsOf(p.st.y) <= c && Closed(c, p.sys.ranges)
    ensures FormsRead(p, c)
  {
    forall i, v | 0 <= i < p.n && v in FreeVars(p.toNew[p.sys.variables[i]]) ensures v in c || v >= p.limit {
      var e := Combine(p.st.V[i], p.sols, p.n);
      TermsWithin(p, i, c);
      SimplifiedVars(p.o.simplify, p.sys.ranges, e);
      assert FreeVars(e) <= c + FreeVars(e);
    }
    forall j | 0 <= j < p.m
      ensures FreeVars(p.o.simplify(p.sys.ranges, ExistenceCondition(p.st.S, p.st.y, j))) <= c
    {
      ConditionVars(p.st.S, p.st.y, j);
      assert FreeVars(p.st.y[j]) <= VarsOf(p.st.y);
      SimplifiedVars(p.o.simplify, p.sys.ranges, ExistenceCondition(p.st.S, p.st.y, j));
    }
  }

  /** The simplifier never brings in a variable. */
  ghost predicate AddsNoVariable(simplify: Simplifier) {
    forall rs: Ranges, e: Expr :: FreeVars(simplify(rs, e)) <= FreeVars(e)
  }

  lemma {:induction false} FormsReadOuter(p: Parts)
    requires Terms(p) && AddsNoVariable(p.o.simplify)
    ensures FormsRead(p, VarsOf(p.st.y))
  {
    forall j | 0 <= j < p.n
      ensures forall v :: v in FreeVars(p.sols[j]) ==> v in VarsOf(p.st.y) || v >= p.limit
    {
      if !IsFree(p.st.S, j) {
        ConditionVars(p.st.S, p.st.y, j);
        assert FreeVars(p.st.y[j]) <= VarsOf(p.st.y);
      }
    }
    forall i, v | 0 <= i < p.n && v in FreeVars(p.toNew[p.sys.variables[i]])
      ensures v in VarsOf(p.st.y) || v >= p.limit
    {
      CombineEval(p.st.V[i], p.sols, p.n, map[]);
      assert v in VarsOf(p.sols);
      var j :| 0 <= j < p.n && v in FreeVars(p.sols[j]);
    }
    forall j | 0 <= j < p.m
      ensures FreeVars(p.o.simplify(p.sys.ranges, ExistenceCondition(p.st.S, p.st.y, j))) <= VarsOf(p.st.y)
    {
      ConditionVars(p.st.S, p.st.y, j);
      assert FreeVars(p.st.y[j]) <= VarsOf(p.st.y);
    }
  }

  /** Where the solved variables that the forms read are settled, the way back is idempotent and the
      existence conditions hold on both sides. */
  lemma {:induction false} BackwardAgain(p: Parts, c: set<nat>, env: Env)
    requires Terms(p) && FormsRead(p, c) && Settled(c, p.toNew, env)
    ensures Backward(p, Backward(p, env)) == Backward(p, env)
    ensures ExistenceHolds(p.o, p.sys, p.st, p.m, p.n, env) ==>
            ExistenceHolds(p.o, p.sys, p.st, p.m, p.n, Backward(p, env))
  {
    var env' := Backward(p, env);
    BackwardKeeps(p, env);
    forall v: nat | v in c || v >= p.limit ensures Get(env, v) == Get(env', v) {
      if v in p.sys.variables { assert v in p.toNew; }
    }
    forall i | 0 <= i < p.n
      ensures Eval(p.toNew[p.sys.variables[i]], env') == Eval(p.toNew[p.sys.variables[i]], env)
    {
      EvalAgree(p.toNew[p.sys.variables[i]], env, env');
    }
    SameAgain(p.toNew, p.sys.variables, env);
    forall j | 0 <= j < p.m
      ensures Holds(p.o.simplify(p.sys.ranges, ExistenceCondition(p.st.S, p.st.y, j)), env') <==>
              Holds(p.o.simplify(p.sys.ranges, ExistenceCondition(p.st.S, p.st.y, j)), env)
    {
      EvalAgree(p.o.simplify(p.sys.ranges, ExistenceCondition(p.st.S, p.st.y, j)), env, env');
    }
  }

  lemma {:induction false} SameAgain(s: Subst, variables: seq<nat>, env: Env)
    requires forall v :: v in s <==> v in variables
    requires forall i :: 0 <= i < |variables| ==> Eval(s[variables[i]], Through(s, env)) == Eval(s[variables[i]], env)
    ensures Through(s, Through(s, env)) == Through(s, env)
  {
    var env' := Through(s, env);
    forall v | v in s ensures Eval(s[v], env') == env'[v] { var i :| 0 <= i < |variables| && variables[i] == v; }
    assert Through(s, env').Keys == env'.Keys;
  }

  /** A solution of the result returns exactly where the ranges hold, if the solved variables that the
      forms read are settled. */
  lemma {:induction false} BackwardExact(p: Parts, newVars: seq<nat>, columns: seq<nat>, c: set<nat>, env: Env)
    requires Assembled(p) && NewVariables(p, newVars, columns) && Satisfies(Target(p, newVars), env)
    requires FormsRead(p, c) && Settled(c, p.toNew, env)
    ensures ReturnsInRange(IntConstraintsTransform(p.sys, Target(p, newVars), p.toNew, p.toOld), env)
  {
    var env' := Backward(p, env);
    TargetRelations(p, newVars, env);
    BackwardAgain(p, c, env);
    if InAll(p.sys.ranges, env') {
      ClosureAll(VarsOf(p.st.y), p.sys.ranges, env');
      BackwardRows(p, env');
      RestThrough(p, env', env);
      forall z | z in newVars ensures z in p.toOld && Eval(p.toOld[z], env') == Get(env, z) {
        var k :| 0 <= k < |newVars| && newVars[k] == z;
        BackwardRecovers(p, env', columns[k]);
      }
    }
  }

  /** The ranges of outer variables do not mention the variables solved for. */
  ghost predicate OuterApart(sys: IntConstraints) {
    forall u :: u in sys.ranges && u !in sys.variables ==> NoneOf(RangeVars(sys.ranges[u]), sys.variables)
  }

  lemma {:induction false} OuterClosed(sys: IntConstraints, vs: set<nat>) returns (c: set<nat>)
    requires OuterApart(sys) && NoneOf(vs, sys.variables)
    ensures vs <= c && Closed(c, sys.ranges) && NoneOf(c, sys.variables)
  {
    c := vs + set u, v | u in sys.ranges && u !in sys.variables && v in RangeVars(sys.ranges[u]) :: v;
  }

  /** So every solution of the result returns exactly where the ranges hold, if no outer range mentions
      a solved variable or if simplifying adds no variable. */
  lemma {:induction false} OuterReturns(p: Parts, newVars: seq<nat>, columns: seq<nat>, env: Env)
    requires Assembled(p) && NewVariables(p, newVars, columns) && Satisfies(Target(p, newVars), env)
    requires OuterApart(p.sys) || AddsNoVariable(p.o.simplify)
    ensures ReturnsInRange(IntConstraintsTransform(p.sys, Target(p, newVars), p.toNew, p.toOld), env)
  {
    if OuterApart(p.sys) {
      var c := OuterClosed(p.sys, VarsOf(p.st.y));
      FormsReadClosed(p, c);
      BackwardExact(p, newVars, columns, c, env);
    } else {
      FormsReadOuter(p);
      BackwardExact(p, newVars, columns, VarsOf(p.st.y), env);
    }
  }

  /** And every one that settles the solved variables in ranges returns. */
  lemma {:induction false} BackwardCarries(p: Parts, newVars: seq<nat>, columns: seq<nat>, env: Env)
    requires Assembled(p) && NewVariables(p, newVars, columns) && Satisfies(Target(p, newVars), env)
    requires Settled(AllRangeVars(p.sys.ranges), p.toNew, env)
    ensures Satisfies(p.sys, Backward(p, env))
    ensures forall z :: z in newVars ==> z in p.toOld && Eval(p.toOld[z], Backward(p, env)) == Get(env, z)
  {
    var c := VarsOf(p.st.y) + AllRangeVars(p.sys.ranges);
    FormsReadClosed(p, c);
    assert Settled(c, p.toNew, env);
    BackwardExact(p, newVars, columns, c, env);
    TargetRelations(p, newVars, env);
    forall v | v in p.sys.ranges ensures InRange(p.sys.ranges[v], Get(Backward(p, env), v), Backward(p, env)) {
      BackwardRange(p, env, v);
    }
  }

  lemma {:induction false} CarriesForward(p: Parts, newVars: seq<nat>)
    requires Assembled(p)
    ensures CarriesSolutions(p.sys, Target(p, newVars), p.toOld, p.toNew)
  {
    forall env: Env | Satisfies(p.sys, env)
      ensures Satisfies(Target(p, newVars), Through(p.toOld, env))
      ensures forall v :: v in p.sys.variables ==>
                v in p.toNew && Eval(p.toNew[v], Through(p.toOld, env)) == Get(env, v)
    {
      ForwardCarries(p, newVars, env);
    }
  }

  lemma {:induction false} CarriesBack(p: Parts, newVars: seq<nat>, columns: seq<nat>)
    requires Assembled(p) && NewVariables(p, newVars, columns)
    ensures IsSettledBijection(IntConstraintsTransform(p.sys, Target(p, newVars), p.toNew, p.toOld))
  {
    CarriesForward(p, newVars);
    forall env: Env | Satisfies(Target(p, newVars), env) && Settled(AllRangeVars(p.sys.ranges), p.toNew, env)
      ensures Satisfies(p.sys, Through(p.toNew, env))
      ensures forall z :: z in newVars ==> z in p.toOld && Eval(p.toOld[z], Through(p.toNew, env)) == Get(env, z)
    {
      BackwardCarries(p, newVars, columns, env);
    }
  }

  /** A plainly false existence condition means that the system has no solution. */
  lemma {:induction false} Unsolvable(o: Oracle, sys: IntConstraints, st: State, m: nat, n: nat, limit: nat, j: nat,
      env: Env)
    requires Sound(o, limit) && DiagonalForm(sys, st, m, n, limit) && j < m
    requires o.simplify(sys.ranges, ExistenceCondition(st.S, st.y, j)) == IntImm(0)
    requires InAll(sys.ranges, env)
    ensures !Solved(st, m, n, env)
  {
    ClosureAll(VarsOf(st.y), sys.ranges, env);
    ConditionMeaning(o.simplify, sys.ranges, st, m, n, j, env);
    if Solved(st, m, n, env) {
      assert RowSolved(st, j, env);
      DiagonalRow(sys, st, m, n, limit, j, env);
      if j < n && st.S[j][j] != 0 {
        QuotientExact(st.S[j][j], Eval(st.x[j], env), st.y[j], env);
      }
    }
  }

  // ----- the solver ------------------------------------------------------------------------

  /** The relations for the existence of a solution, or None when one is plainly false. */
  method ExistenceRelations(o: Oracle, sys: IntConstraints, st: State, ghost m: nat, ghost n: nat)
    returns (relations: Option<seq<Expr>>)
    requires Shaped(st, m, n)
    ensures relations.None? ==>
              exists j :: 0 <= j < m && o.simplify(sys.ranges, ExistenceCondition(st.S, st.y, j)) == IntImm(0)
    ensures relations.Some? ==> SaysExistence(o, sys, st, m, n, relations.value)
    ensures relations.Some? ==> forall e :: e in relations.value ==> IsExistence(o, sys, st, m, e)
  {
    var rs := [];
    for k := 0 to |st.S|
      invariant forall e :: e in rs ==> IsExistence(o, sys, st, m, e)
      invariant forall env: Env :: AllHold(rs, env) <==>
        forall j :: 0 <= j < k ==> Holds(o.simplify(sys.ranges, ExistenceCondition(st.S, st.y, j)), env)
    {
      var rel := o.simplify(sys.ranges, ExistenceCondition(st.S, st.y, k));
      if rel == IntImm(0) {
        return None;
      } else if rel != IntImm(1) {
        AppendCondition(rs, rel);
        assert IsExistence(o, sys, st, m, rel);
        rs := rs + [rel];
      }
    }
    return Some(rs);
  }

  ghost predicate IsExistence(o: Oracle, sys: IntConstraints, st: State, m: nat, e: Expr)
    requires m <= |st.S| && m <= |st.y|
  {
    exists j :: 0 <= j < m && e == o.simplify(sys.ranges, ExistenceCondition(st.S, st.y, j))
  }

  /** The existence conditions speak of old variables only. */
  lemma {:induction false} ExistenceBelow(o: Oracle, sys: IntConstraints, st: State, m: nat, limit: nat, es: seq<Expr>)
    requires SimplifierSound(o.simplify) && WellFormed(sys, limit) && m == |st.S| == |st.y|
    requires Below(VarsOf(st.y), limit) && forall e :: e in es ==> IsExistence(o, sys, st, m, e)
    ensures Below(VarsOf(es), limit)
  {
    forall i | 0 <= i < |es| ensures Below(FreeVars(es[i]), limit) {
      assert es[i] in es;
      var j :| 0 <= j < m && es[i] == o.simplify(sys.ranges, ExistenceCondition(st.S, st.y, j));
      ConditionVars(st.S, st.y, j);
      assert FreeVars(st.y[j]) <= VarsOf(st.y);
      SimplifiedBelow(o.simplify, sys, limit, ExistenceCondition(st.S, st.y, j));
    }
  }

  /** The nonzero entries among the first k of the diagonal. */
  ghost function Pivots(S: Matrix, k: nat): nat
    requires forall j :: 0 <= j < k && j < |S| ==> j < |S[j]|
  {
    if k == 0 then 0 else Pivots(S, k - 1) + if IsFree(S, k - 1) then 0 else 1
  }

  lemma {:induction false} AppendCondition(rs: seq<Expr>, rel: Expr)
    ensures forall env: Env :: AllHold(rs + [rel], env) <==> AllHold(rs, env) && Holds(rel, env)
  {
    forall env: Env ensures AllHold(rs + [rel], env) <==> AllHold(rs, env) && Holds(rel, env) {
      AllHoldAppend(rs, [rel], env);
      assert AllHold([rel], env) <==> Holds([rel][0], env);
    }
  }

  /** The new variables of the free columns among the first j. */
  ghost predicate NewUpTo(S: Matrix, limit: nat, j: nat, newVars: seq<nat>, columns: seq<nat>)
    requires forall k :: 0 <= k < j && k < |S| ==> k < |S[k]|
  {
    && |columns| == |newVars| && |newVars| + Pivots(S, j) == j
    && forall k :: 0 <= k < |newVars| ==>
         columns[k] < j && IsFree(S, columns[k]) && newVars[k] == NewVar(limit, columns[k])
  }

  lemma {:induction false} TermsNext(o: Oracle, sys: IntConstraints, st: State, m: nat, n: nat, limit: nat, j: nat,
      sols: seq<Expr>, toOld: Subst)
    requires Shaped(st, m, n) && j < n && TermsUpTo(o, sys, st, m, n, limit, j, sols, toOld)
    ensures IsFree(st.S, j) ==>
              var v := NewVar(limit, j);
              TermsUpTo(o, sys, st, m, n, limit, j + 1, sols + [Var(v)], toOld[v := o.simplify(sys.ranges, st.x[j])])
    ensures !IsFree(st.S, j) ==>
              var term := o.simplify(sys.ranges, Quotient(st.S[j][j], st.y[j]));
              TermsUpTo(o, sys, st, m, n, limit, j + 1, sols + [term], toOld)
  {}

  lemma {:induction false} NewNext(S: Matrix, limit: nat, j: nat, newVars: seq<nat>, columns: seq<nat>)
    requires forall k :: 0 <= k < j + 1 && k < |S| ==> k < |S[k]|
    requires NewUpTo(S, limit, j, newVars, columns)
    ensures if IsFree(S, j) then NewUpTo(S, limit, j + 1, newVars + [NewVar(limit, j)], columns + [j])
            else NewUpTo(S, limit, j + 1, newVars, columns)
  {}

  /** New variables for the free columns, forced values for the others. */
  method SolveDiagonal(o: Oracle, sys: IntConstraints, st: State, limit: nat, ghost m: nat, n: nat)
    returns (newVars: seq<nat>, sols: seq<Expr>, toOld: Subst, ghost columns: seq<nat>)
    requires Shaped(st, m, n)
    ensures SolutionTerms(o, sys, st, m, n, limit, sols, toOld)
    ensures |columns| == |newVars|
    ensures forall k :: 0 <= k < |newVars| ==>
              columns[k] < n && IsFree(st.S, columns[k]) && newVars[k] == NewVar(limit, columns[k])
    ensures |newVars| + Pivots(st.S, n) == n
  {
    newVars, sols, toOld, columns := [], [], map[], [];
    for j := 0 to n
      invariant TermsUpTo(o, sys, st, m, n, limit, j, sols, toOld) && NewUpTo(st.S, limit, j, newVars, columns)
    {
      TermsNext(o, sys, st, m, n, limit, j, sols, toOld);
      NewNext(st.S, limit, j, newVars, columns);
      if j >= |st.S| || st.S[j][j] == 0 {
        var v := NewVar(limit, j);
        sols := sols + [Var(v)];
        newVars, columns := newVars + [v], columns + [j];
        toOld := toOld[v := o.simplify(sys.ranges, st.x[j])];
      } else {
        sols := sols + [o.simplify(sys.ranges, Quotient(st.S[j][j], st.y[j]))];
      }
    }
  }

  /** V times the solution terms, row by row. */
  method ExpressOld(o: Oracle, sys: IntConstraints, V: Matrix, sols: seq<Expr>) returns (toNew: Subst)
    requires Rect(V, |sys.variables|, |sys.variables|) && |sols| == |sys.variables|
    requires NoRepeats(sys.variables)
    ensures OldForms(o, sys, V, sols, toNew)
  {
    toNew := map[];
    for i := 0 to |sys.variables|
      invariant forall v :: v in toNew <==> v in sys.variables[..i]
      invariant forall k :: 0 <= k < i ==>
                  sys.variables[k] in toNew &&
                  toNew[sys.variables[k]] == o.simplify(sys.ranges, Combine(V[k], sols, |sols|))
    {
      var e := IntImm(0);
      for j := 0 to |sols|
        invariant e == Combine(V[i], sols, j)
      {
        e := Bin(Add, e, Scale(V[i][j], sols[j]));
      }
      toNew := toNew[sys.variables[i] := o.simplify(sys.ranges, e)];
      assert sys.variables[..i + 1] == sys.variables[..i] + [sys.variables[i]];
    }
    assert sys.variables[..|sys.variables|] == sys.variables;
  }

  /** The old ranges as relations over the new variables, visited in any order. */
  method OldRangeRelations(o: Oracle, sys: IntConstraints, ranges: Ranges, toNew: Subst) returns (conds: seq<Expr>)
    requires forall v :: v in sys.variables ==> v in toNew
    requires forall v :: v in toNew ==> v in sys.variables
    ensures SaysOldRanges(o, sys, ranges, toNew, conds)
  {
    conds := [];
    var todo := sys.ranges.Keys;
    while todo != {}
      invariant todo <= sys.ranges.Keys
      invariant forall env: Env :: AllHold(conds, env) <==>
        forall v :: v in sys.ranges && v !in todo && v in sys.variables ==>
          Holds(o.simplify(ranges, LowerCondition(sys.ranges[v], toNew[v])), env) &&
          Holds(o.simplify(ranges, UpperCondition(sys.ranges[v], toNew[v])), env)
      decreases todo
    {
      var v :| v in todo;
      if v in toNew {
        var lower := o.simplify(ranges, LowerCondition(sys.ranges[v], toNew[v]));
        var upper := o.simplify(ranges, UpperCondition(sys.ranges[v], toNew[v]));
        if lower != IntImm(1) {
          AppendCondition(conds, lower);
          conds := conds + [lower];
        }
        if upper != IntImm(1) {
          AppendCondition(conds, upper);
          conds := conds + [upper];
        }
      }
      todo := todo - {v};
    }
  }

  function AsVars(vs: seq<nat>): (es: seq<Expr>)
    ensures |es| == |vs| && forall i :: 0 <= i < |vs| ==> es[i] == Var(vs[i])
  {
    seq(|vs|, i requires 0 <= i < |vs| => Var(vs[i]))
  }

  /** The state diagonalisation starts from: A, the identity, the variables, and y. */
  function InitialState(sys: IntConstraints, A: Matrix, y: seq<Expr>): State {
    State(A, Identity(|sys.variables|), AsVars(sys.variables), y)
  }

  /** Diagonalising the initial state gives the diagonal form of the system. */
  lemma {:induction false} DiagonalFormReached(sys: IntConstraints, A: Matrix, y: seq<Expr>, st: State, limit: nat)
    requires WellFormed(sys, limit) && Rect(A, |y|, |sys.variables|)
    requires NoneOf(VarsOf(y), sys.variables) && Below(VarsOf(y), limit)
    requires Preserves(InitialState(sys, A, y), st, |y|, |sys.variables|)
    requires forall i, j :: 0 <= i < |y| && 0 <= j < |sys.variables| && i != j ==> st.S[i][j] == 0
    ensures DiagonalForm(sys, st, |y|, |sys.variables|, limit)
    ensures forall env: Env :: Solved(st, |y|, |sys.variables|, env) <==> RowsHold(A, y, sys.variables, env)
  {
    var n := |sys.variables|;
    var st0 := InitialState(sys, A, y);
    IdentityInjective(n);
    forall env: Env
      ensures MatVec(st.V, EvalAll(st.x, env)) == VarValues(sys.variables, env)
      ensures Solved(st, |y|, n, env) <==> RowsHold(A, y, sys.variables, env)
    {
      assert EvalAll(st0.x, env) == VarValues(sys.variables, env);
      InitialRows(sys, A, y, env);
    }
    assert Below(VarsOf(st0.x), limit);
  }

  lemma {:induction false} InitialRows(sys: IntConstraints, A: Matrix, y: seq<Expr>, env: Env)
    requires Rect(A, |y|, |sys.variables|)
    ensures Solved(InitialState(sys, A, y), |y|, |sys.variables|, env) <==> RowsHold(A, y, sys.variables, env)
  {
    var st0 := InitialState(sys, A, y);
    assert EvalAll(st0.x, env) == VarValues(sys.variables, env);
    assert forall i :: 0 <= i < |y| ==>
      (RowSolved(st0, i, env) <==> Dot(A[i], VarValues(sys.variables, env)) == Eval(y[i], env));
  }

  /** Whatever the new variables are, the old ones solve the diagonal system where the existence
      conditions hold. */
  ghost predicate SolvesDiagonal(sys: IntConstraints, st: State, m: nat, n: nat, toNew: Subst, exist: seq<Expr>)
    requires Shaped(st, m, n)
  {
    forall env: Env :: InClosure(VarsOf(st.y), sys.ranges, env) && AllHold(exist, env) ==>
      Solved(st, m, n, Through(toNew, env))
  }

  /** A result that says there is no solution. */
  ghost predicate SaysNone(t: IntConstraintsTransform) { t.dst == IntConstraints([], map[], [IntImm(0)]) }

  lemma {:induction false} NoneSolves(o: Oracle, sys: IntConstraints, st: State, m: nat, n: nat, none: IntConstraints)
    requires none == IntConstraints([], map[], [IntImm(0)]) && Shaped(st, m, n)
    ensures forall env: Env :: !Satisfies(none, env)
    ensures SolvesDiagonal(sys, st, m, n, map[], [IntImm(0)])
    ensures Below(VarsOf([IntImm(0)]), 0) && CoversNew(o, IntConstraintsTransform(sys, none, map[], map[]))
  {
    forall env: Env ensures !AllHold([IntImm(0)], env) { assert !Holds([IntImm(0)][0], env); }
  }

  /** From the diagonal form to the transform. The existence conditions come first among the relations. */
  method Parametrise(o: Oracle, sys: IntConstraints, st: State, rest: seq<Expr>, limit: nat, ghost m: nat, n: nat)
    returns (t: IntConstraintsTransform, ghost exist: seq<Expr>)
    requires Sound(o, limit) && WellFormed(sys, limit) && DiagonalForm(sys, st, m, n, limit)
    requires Decomposed(sys, st, m, n, rest) && Below(VarsOf(rest), limit)
    ensures t.src == sys && t.srcToDst.Keys <= Elements(sys.variables) && IsSettledBijection(t)
    ensures OuterApart(sys) || AddsNoVariable(o.simplify) ==>
              forall env: Env :: Satisfies(t.dst, env) ==> ReturnsInRange(t, env)
    ensures exist <= t.dst.relations && Below(VarsOf(exist), limit)
    ensures SolvesDiagonal(sys, st, m, n, t.srcToDst, exist)
    ensures SaysNone(t) || |t.dst.variables| + Pivots(st.S, n) == n
    ensures CoversNew(o, t)
  {
    var relations := ExistenceRelations(o, sys, st, m, n);
    if relations.None? {
      var none := IntConstraints([], map[], [IntImm(0)]);
      t := IntConstraintsTransform(sys, none, map[], map[]);
      exist := [IntImm(0)];
      NoSolutions(o, sys, st, m, n, limit, rest, none);
      NoneSolves(o, sys, st, m, n, none);
      return;
    }
    exist := relations.value;
    var newVars, sols, toOld, columns := SolveDiagonal(o, sys, st, limit, m, n);
    var toNew := ExpressOld(o, sys, st.V, sols);
    var ranges := InferRange(o, toOld, sys);
    var conds := OldRangeRelations(o, sys, ranges, toNew);
    t := IntConstraintsTransform(sys, IntConstraints(newVars, ranges, relations.value + conds + ApplyAll(rest, toNew)),
                                 toNew, toOld);
    ghost var p := Parts(o, sys, st, m, n, limit, rest, exist, sols, toOld, toNew, ranges, conds);
    ParametrisedRight(p, newVars, columns);
    ExistenceBelow(o, sys, st, m, limit, exist);
  }

  /** Every new variable whose old form has a covering range gets it, and outer ranges carry over. */
  ghost predicate CoversNew(o: Oracle, t: IntConstraintsTransform) {
    && (forall z :: z in t.dst.variables ==> z in t.dstToSrc)
    && (forall z :: z in t.dst.variables && o.cover(t.src.ranges, t.dstToSrc[z]).Some? ==>
          z in t.dst.ranges && t.dst.ranges[z] == o.cover(t.src.ranges, t.dstToSrc[z]).value)
    && (!SaysNone(t) ==> forall v :: v in t.src.ranges && v !in t.src.variables && v !in t.dstToSrc ==>
          v in t.dst.ranges && t.dst.ranges[v] == t.src.ranges[v])
  }

  lemma {:induction false} ParametrisedRight(p: Parts, newVars: seq<nat>, columns: seq<nat>)
    requires Assembled(p) && NewVariables(p, newVars, columns)
    ensures var t := IntConstraintsTransform(p.sys, Target(p, newVars), p.toNew, p.toOld);
            && IsSettledBijection(t) && CoversNew(p.o, t)
            && (OuterApart(p.sys) || AddsNoVariable(p.o.simplify) ==>
                  forall env: Env :: Satisfies(t.dst, env) ==> ReturnsInRange(t, env))
            && SolvesDiagonal(p.sys, p.st, p.m, p.n, p.toNew, p.exist)
  {
    var t := IntConstraintsTransform(p.sys, Target(p, newVars), p.toNew, p.toOld);
    CarriesBack(p, newVars, columns);
    forall env: Env | Satisfies(t.dst, env) && (OuterApart(p.sys) || AddsNoVariable(p.o.simplify))
      ensures ReturnsInRange(t, env)
    {
      OuterReturns(p, newVars, columns, env);
    }
    forall env: Env | InClosure(VarsOf(p.st.y), p.sys.ranges, env) && AllHold(p.exist, env)
      ensures Solved(p.st, p.m, p.n, Through(p.toNew, env))
    {
      BackwardRows(p, env);
    }
  }

  function Elements(vs: seq<nat>): set<nat> { set v | v in vs }

  /** No range mentions a variable that is solved for. */
  ghost predicate RangesApart(sys: IntConstraints) { AllRangeVars(sys.ranges) !! Elements(sys.variables) }

  /** Then every valuation is settled. */
  lemma {:induction false} ApartBijection(t: IntConstraintsTransform)
    requires IsSettledBijection(t) && t.srcToDst.Keys <= Elements(t.src.variables) && RangesApart(t.src)
    ensures IsBijection(t)
  {
    forall env: Env ensures Settled(AllRangeVars(t.src.ranges), t.srcToDst, env) {}
  }

  /** The variables other than those solved for are in range, and so are those that their ranges
      depend on. */
  ghost predicate OuterKnown(sys: IntConstraints, env: Env) {
    InAll(sys.ranges, env) ||
    (OuterApart(sys) && forall u :: u in sys.ranges && u !in sys.variables ==> InRange(sys.ranges[u], Get(env, u), env))
  }

  lemma {:induction false} KnownClosure(sys: IntConstraints, vs: set<nat>, env: Env)
    requires OuterKnown(sys, env) && NoneOf(vs, sys.variables)
    ensures InClosure(vs, sys.ranges, env)
  {
    if InAll(sys.ranges, env) {
      ClosureAll(vs, sys.ranges, env);
    } else {
      var c := OuterClosed(sys, vs);
      assert vs <= c && Closed(c, sys.ranges) && InRanges(c, sys.ranges, env);
    }
  }

  /** Every solvable equation is solved: at any values of the new variables it holds of the old ones,
      given only the existence conditions, which do not mention new variables, and that the
      variables it speaks of are in range. */
  ghost predicate EquationsSolved(o: Oracle, t: IntConstraintsTransform, exist: seq<Expr>, limit: nat) {
    && exist <= t.dst.relations && Below(VarsOf(exist), limit)
    && forall env: Env, e :: e in t.src.relations && Solvable(o, t.src, e) ==> SolvedAt(t, exist, e, env)
  }

  ghost predicate SolvedAt(t: IntConstraintsTransform, exist: seq<Expr>, e: Expr, env: Env) {
    OuterKnown(t.src, env) && AllHold(exist, env) && InClosure(FreeVars(e), t.src.ranges, Through(t.srcToDst, env)) ==>
      Holds(e, Through(t.srcToDst, env))
  }

  lemma {:induction false} DiagonalSolves(o: Oracle, t: IntConstraintsTransform, A: Matrix, y: seq<Expr>, st: State,
      exist: seq<Expr>, limit: nat, e: Expr, env: Env)
    requires Rect(A, |y|, |t.src.variables|) && Shaped(st, |y|, |t.src.variables|)
    requires RowsOf(o, t.src, |t.src.relations|, A, y) && NoneOf(VarsOf(st.y), t.src.variables)
    requires forall env': Env :: Solved(st, |y|, |t.src.variables|, env') <==> RowsHold(A, y, t.src.variables, env')
    requires SolvesDiagonal(t.src, st, |y|, |t.src.variables|, t.srcToDst, exist)
    requires e in t.src.relations && Solvable(o, t.src, e)
    ensures SolvedAt(t, exist, e, env)
  {
    if OuterKnown(t.src, env) && AllHold(exist, env) {
      KnownClosure(t.src, VarsOf(st.y), env);
      var k :| 0 <= k < |t.src.relations| && t.src.relations[k] == e;
      var es := Equations(o, t.src, |t.src.relations|);
      var i :| 0 <= i < |es| && es[i] == k;
      assert RowSays(t.src, e, A[i], y[i]);
      assert RowsHold(A, y, t.src.variables, Through(t.srcToDst, env));
    }
  }

  /** On in-range valuations the diagonal system says exactly what the solvable equations say. */
  ghost predicate SaysEquations(o: Oracle, sys: IntConstraints, st: State, m: nat, n: nat)
    requires Shaped(st, m, n)
  {
    forall env: Env :: InAll(sys.ranges, env) ==>
      (Solved(st, m, n, env) <==> forall e :: e in sys.relations && Solvable(o, sys, e) ==> Holds(e, env))
  }

  lemma {:induction false} RowsSayEquations(o: Oracle, sys: IntConstraints, A: Matrix, y: seq<Expr>, st: State)
    requires Rect(A, |y|, |sys.variables|) && Shaped(st, |y|, |sys.variables|)
    requires RowsOf(o, sys, |sys.relations|, A, y)
    requires forall env: Env :: Solved(st, |y|, |sys.variables|, env) <==> RowsHold(A, y, sys.variables, env)
    ensures SaysEquations(o, sys, st, |y|, |sys.variables|)
  {
    var es := Equations(o, sys, |sys.relations|);
    forall env: Env | InAll(sys.ranges, env)
      ensures RowsHold(A, y, sys.variables, env) <==>
              forall e :: e in sys.relations && Solvable(o, sys, e) ==> Holds(e, env)
    {
      forall i | 0 <= i < |y|
        ensures Holds(sys.relations[es[i]], env) <==> Dot(A[i], VarValues(sys.variables, env)) == Eval(y[i], env)
      {
        ClosureAll(FreeVars(sys.relations[es[i]]), sys.ranges, env);
        assert RowSays(sys, sys.relations[es[i]], A[i], y[i]);
      }
      if RowsHold(A, y, sys.variables, env) {
        forall e | e in sys.relations && Solvable(o, sys, e) ensures Holds(e, env) {
          var k :| 0 <= k < |sys.relations| && sys.relations[k] == e;
          var i :| 0 <= i < |es| && es[i] == k;
        }
      }
    }
  }

  /** SolveLinearEquations: the returned transform carries every solution of the system to one of the
      parametrised system and back. Those of the latter return exactly where the ranges hold, and
      where they settle the solved variables that ranges mention. If ranges mention none, the
      transform is a bijection. The equations are solved, and there are as many new variables as the
      diagonal system has columns without a pivot. */
  method SolveLinearEquations(o: Oracle, sys: IntConstraints, limit: nat)
    returns (t: IntConstraintsTransform, ghost exist: seq<Expr>, ghost st: State)
    requires Sound(o, limit) && WellFormed(sys, limit)
    ensures t.src == sys && IsSettledBijection(t) && (RangesApart(sys) ==> IsBijection(t))
    ensures OuterApart(sys) || AddsNoVariable(o.simplify) ==>
              forall env: Env :: Satisfies(t.dst, env) ==> ReturnsInRange(t, env)
    ensures EquationsSolved(o, t, exist, limit) && CoversNew(o, t)
    ensures var m, n := |Equations(o, sys, |sys.relations|)|, |sys.variables|;
            && DiagonalForm(sys, st, m, n, limit) && SaysEquations(o, sys, st, m, n)
            && (SaysNone(t) || |t.dst.variables| + Pivots(st.S, n) == n)
  {
    var A, y, rest := BuildMatrix(o, sys, limit);
    var d := new Diagonalizer(InitialState(sys, A, y));
    d.Diagonalize(|y|, |sys.variables|);
    var diagonal := State(d.S, d.V, d.x, d.y);
    st := diagonal;
    DiagonalFormReached(sys, A, y, st, limit);
    assert sys.relations[..|sys.relations|] == sys.relations;
    t, exist := Parametrise(o, sys, diagonal, rest, limit, |y|, |sys.variables|);
    if RangesApart(sys) { ApartBijection(t); }
    RowsSayEquations(o, sys, A, y, st);
    forall env: Env, e | e in sys.relations && Solvable(o, sys, e) ensures SolvedAt(t, exist, e, env) {
      DiagonalSolves(o, t, A, y, st, exist, limit, e, env);
    }
  }

  lemma {:induction false} NoSolutions(o: Oracle, sys: IntConstraints, st: State, m: nat, n: nat, limit: nat,
      rest: seq<Expr>, none: IntConstraints)
    requires Sound(o, limit) && DiagonalForm(sys, st, m, n, limit)
    requires exists j :: 0 <= j < m && o.simplify(sys.ranges, ExistenceCondition(st.S, st.y, j)) == IntImm(0)
    requires Decomposed(sys, st, m, n, rest)
    requires none.relations == [IntImm(0)]
    ensures IsSettledBijection(IntConstraintsTransform(sys, none, map[], map[]))
  {
    var j :| 0 <= j < m && o.simplify(sys.ranges, ExistenceCondition(st.S, st.y, j)) == IntImm(0);
    forall env: Env ensures !Satisfies(sys, env) && !Satisfies(none, env) {
      if Satisfies(sys, env) { Unsolvable(o, sys, st, m, n, limit, j, env); }
      assert !Holds(none.relations[0], env);
    }
  }
}
