/** Integer expressions of the compiler (PrimExpr), their value under a valuation, and
    substitution. Comparisons and connectives evaluate to 0 or 1. */
module PrimExprs {
  import opened IntOperator

  datatype BinOp =
    | Add | Sub | Mul | Div | Mod | FloorDivOp | FloorModOp | MinOp | MaxOp
    | EQ | NE | LT | LE | GT | GE | And | Or

  datatype Expr =
    | Var(id: nat)
    | IntImm(value: int)
    | Bin(op: BinOp, a: Expr, b: Expr)
    | Not(a: Expr)
    | Select(cond: Expr, onTrue: Expr, onFalse: Expr)

  /** A valuation; a variable outside the map has value 0. */
  type Env = map<nat, int>

  function Get(env: Env, v: nat): int { if v in env then env[v] else 0 }

  function Truth(b: bool): int { if b then 1 else 0 }

  /** Division and remainder by zero have no meaning in the source; here they are 0. */
  function EvalBin(op: BinOp, x: int, y: int): int {
    match op
    case Add => x + y
    case Sub => x - y
    case Mul => x * y
    case Div => if y == 0 then 0 else TruncDiv(x, y)
    case Mod => if y == 0 then 0 else TruncMod(x, y)
    case FloorDivOp => if y == 0 then 0 else FloorDiv(x, y)
    case FloorModOp => if y == 0 then 0 else FloorMod(x, y)
    case MinOp => Min(x, y)
    case MaxOp => Max(x, y)
    case EQ => Truth(x == y)
    case NE => Truth(x != y)
    case LT => Truth(x < y)
    case LE => Truth(x <= y)
    case GT => Truth(x > y)
    case GE => Truth(x >= y)
    case And => Truth(x != 0 && y != 0)
    case Or => Truth(x != 0 || y != 0)
  }

  function Eval(e: Expr, env: Env): int {
    match e
    case Var(v) => Get(env, v)
    case IntImm(n) => n
    case Bin(op, a, b) => EvalBin(op, Eval(a, env), Eval(b, env))
    case Not(a) => Truth(Eval(a, env) == 0)
    case Select(c, t, f) => if Eval(c, env) != 0 then Eval(t, env) else Eval(f, env)
  }

  predicate Holds(e: Expr, env: Env) { Eval(e, env) != 0 }

  function EvalAll(es: seq<Expr>, env: Env): (r: seq<int>)
    ensures |r| == |es|
    ensures forall i :: 0 <= i < |es| ==> r[i] == Eval(es[i], env)
  {
    seq(|es|, i requires 0 <= i < |es| => Eval(es[i], env))
  }

  function FreeVars(e: Expr): set<nat> {
    match e
    case Var(v) => {v}
    case IntImm(_) => {}
    case Bin(_, a, b) => FreeVars(a) + FreeVars(b)
    case Not(a) => FreeVars(a)
    case Select(c, t, f) => FreeVars(c) + FreeVars(t) + FreeVars(f)
  }

  function VarsOf(es: seq<Expr>): (r: set<nat>)
    ensures forall i :: 0 <= i < |es| ==> FreeVars(es[i]) <= r
  {
    set i, v | 0 <= i < |es| && v in FreeVars(es[i]) :: v
  }

  ghost predicate Agree(vs: set<nat>, env: Env, env': Env) {
    forall v :: v in vs ==> Get(env, v) == Get(env', v)
  }

  /** An expression reads only its free variables. */
  lemma {:induction false} EvalAgree(e: Expr, env: Env, env': Env)
    requires Agree(FreeVars(e), env, env')
    ensures Eval(e, env) == Eval(e, env')
  {
    match e
    case Var(v) =>
      assert v in FreeVars(e);
    case IntImm(_) =>
    case Bin(op, a, b) =>
      EvalAgree(a, env, env');
      EvalAgree(b, env, env');
    case Not(a) =>
      EvalAgree(a, env, env');
    case Select(c, t, f) =>
      EvalAgree(c, env, env');
      EvalAgree(t, env, env');
      EvalAgree(f, env, env');
  }

  /** The first valuation on vs, and the second elsewhere. */
  function Merge(first: Env, second: Env, vs: set<nat>): Env {
    map u | u in first.Keys + second.Keys + vs :: if u in vs then Get(first, u) else Get(second, u)
  }

  lemma {:induction false} MergedEval(x: Expr, y: Expr, first: Env, second: Env)
    requires FreeVars(x) !! FreeVars(y)
    ensures Eval(x, Merge(first, second, FreeVars(x))) == Eval(x, first)
    ensures Eval(y, Merge(first, second, FreeVars(x))) == Eval(y, second)
  {
    var env := Merge(first, second, FreeVars(x));
    EvalAgree(x, env, first);
    EvalAgree(y, env, second);
  }

  // ----- products with constants and negation ----------------------------------------------

  function Scale(c: int, e: Expr): Expr { Bin(Mul, IntImm(c), e) }

  function Negated(e: Expr): Expr { Bin(Sub, IntImm(0), e) }

  lemma {:induction false} ScaledEval(op: BinOp, c: int, e: Expr, c': int, e': Expr, env: Env)
    ensures Eval(Bin(op, Scale(c, e), Scale(c', e')), env) == EvalBin(op, c * Eval(e, env), c' * Eval(e', env))
  {
    assert Eval(Scale(c, e), env) == c * Eval(e, env);
    assert Eval(Scale(c', e'), env) == c' * Eval(e', env);
  }

  lemma {:induction false} ScaleVars(op: BinOp, c: int, e: Expr, c': int, e': Expr)
    ensures FreeVars(Bin(op, Scale(c, e), Scale(c', e'))) == FreeVars(e) + FreeVars(e')
  {
    assert FreeVars(IntImm(c)) == {} && FreeVars(IntImm(c')) == {};
    assert FreeVars(Scale(c, e)) == FreeVars(IntImm(c)) + FreeVars(e);
    assert FreeVars(Scale(c', e')) == FreeVars(IntImm(c')) + FreeVars(e');
  }

  /** Addition and subtraction fold constants and a zero. */
  function Plus(a: Expr, b: Expr): Expr {
    if a.IntImm? && b.IntImm? then IntImm(a.value + b.value)
    else if a == IntImm(0) then b
    else if b == IntImm(0) then a
    else Bin(Add, a, b)
  }

  function Minus(a: Expr, b: Expr): Expr {
    if a.IntImm? && b.IntImm? then IntImm(a.value - b.value)
    else if b == IntImm(0) then a
    else Bin(Sub, a, b)
  }

  lemma {:induction false} FoldedEval(a: Expr, b: Expr, env: Env)
    ensures Eval(Plus(a, b), env) == Eval(a, env) + Eval(b, env)
    ensures Eval(Minus(a, b), env) == Eval(a, env) - Eval(b, env)
  {}

  // ----- substitution --------------------------------------------------------------------

  type Subst = map<nat, Expr>

  function Substitute(e: Expr, s: Subst): Expr {
    match e
    case Var(v) => if v in s then s[v] else e
    case IntImm(_) => e
    case Bin(op, a, b) => Bin(op, Substitute(a, s), Substitute(b, s))
    case Not(a) => Not(Substitute(a, s))
    case Select(c, t, f) => Select(Substitute(c, s), Substitute(t, s), Substitute(f, s))
  }

  /** The valuation that reads every substituted variable through its replacement. */
  function Through(s: Subst, env: Env): (r: Env)
    ensures forall v :: Get(r, v) == if v in s then Eval(s[v], env) else Get(env, v)
  {
    map v | v in env.Keys + s.Keys :: if v in s then Eval(s[v], env) else env[v]
  }

  /** Substituting then evaluating is evaluating through the substitution. */
  lemma {:induction false} SubstituteEval(e: Expr, s: Subst, env: Env)
    ensures Eval(Substitute(e, s), env) == Eval(e, Through(s, env))
  {
    match e
    case Var(v) =>
    case IntImm(_) =>
    case Bin(op, a, b) =>
      SubstituteEval(a, s, env);
      SubstituteEval(b, s, env);
    case Not(a) =>
      SubstituteEval(a, s, env);
    case Select(c, t, f) =>
      SubstituteEval(c, s, env);
      SubstituteEval(t, s, env);
      SubstituteEval(f, s, env);
  }

  function ApplyAll(es: seq<Expr>, s: Subst): (r: seq<Expr>)
    ensures |r| == |es| && forall i :: 0 <= i < |es| ==> r[i] == Substitute(es[i], s)
  {
    seq(|es|, i requires 0 <= i < |es| => Substitute(es[i], s))
  }

  /** The variables left after substitution. */
  lemma {:induction false} SubstituteVars(e: Expr, s: Subst, allowed: set<nat>)
    requires forall v :: v in FreeVars(e) ==> if v in s then FreeVars(s[v]) <= allowed else v in allowed
    ensures FreeVars(Substitute(e, s)) <= allowed
  {
    match e
    case Var(v) =>
      assert v in FreeVars(e);
    case IntImm(_) =>
    case Bin(op, a, b) =>
      SubstituteVars(a, s, allowed);
      SubstituteVars(b, s, allowed);
    case Not(a) =>
      SubstituteVars(a, s, allowed);
    case Select(c, t, f) =>
      SubstituteVars(c, s, allowed);
      SubstituteVars(t, s, allowed);
      SubstituteVars(f, s, allowed);
  }
}
