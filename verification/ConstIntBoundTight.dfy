/** The bound of an expression is reached (src/arith/const_int_bound.cc): if no variable occurs twice and
    every operator is exact, some valuations within the bindings give its two ends. */
module ConstIntBoundTight {
  import opened PrimExprs
  import opened Wrappers
  import opened ConstIntBound

  predicate Leaf(e: Expr) { e.Var? || e.IntImm? }

  /** Every operator of e is exact on what it is applied to, and no bound saturates. A remainder, or a
      quotient by a range around zero, is taken of variables or literals. */
  predicate Tight(e: Expr, vars: Bindings, bits: nat) {
    match e
    case Var(v) => v in vars && Finite(vars[v])
    case IntImm(n) => NEG_INF < n < POS_INF
    case Bin(op, x, y) =>
      && Arithmetic(op) && Tight(x, vars, bits) && Tight(y, vars, bits) && FreeVars(x) !! FreeVars(y)
      && var a, b := Visit(x, vars, [], bits), Visit(y, vars, [], bits);
         a.Some? && b.Some? && Finite(a.value) && Finite(b.value) && Exact(op, a.value, b.value) &&
         (ExactAtCorners(op, b.value) || (Leaf(x) && Leaf(y))) &&
         var r := BinBound(op, a.value, b.value, bits); r.Some? && Finite(r.value)
    case Select(c, t, f) =>
      && c.Var? && c.id !in vars && c.id !in FreeVars(t) && c.id !in FreeVars(f)
      && Tight(t, vars, bits) && Tight(f, vars, bits)
    case Not(_) => false
  }

  lemma {:induction false} Merged(x: Expr, y: Expr, first: Env, second: Env, vars: Bindings)
    requires FreeVars(x) !! FreeVars(y) && KnownVars(vars, first) && KnownVars(vars, second)
    ensures var env := Merge(first, second, FreeVars(x));
            KnownVars(vars, env) && Eval(x, env) == Eval(x, first) && Eval(y, env) == Eval(y, second)
  {
    var env := Merge(first, second, FreeVars(x));
    MergedEval(x, y, first, second);
    forall v | v in vars ensures Covers(vars[v], Get(env, v)) {
      assert Get(env, v) == Get(first, v) || Get(env, v) == Get(second, v);
    }
  }

  /** Some valuation within the bindings. */
  lemma {:induction false} Binding(vars: Bindings) returns (env: Env)
    requires forall v :: v in vars ==> Finite(vars[v])
    ensures KnownVars(vars, env)
  {
    env := map v | v in vars :: vars[v].min;
  }

  /** A variable or literal takes every value within its bound. */
  lemma {:induction false} LeafReaches(e: Expr, vars: Bindings, bits: nat, n: int) returns (env: Env)
    requires Leaf(e) && Tight(e, vars, bits) && forall v :: v in vars ==> Finite(vars[v])
    requires Visit(e, vars, [], bits).Some? && Inside(Visit(e, vars, [], bits).value, n)
    ensures KnownVars(vars, env) && Eval(e, env) == n
  {
    env := Binding(vars);
    if e.Var? {
      env := env[e.id := n];
      assert Eval(e, env) == Get(env, e.id) == n;
    }
  }

  lemma {:induction false} OperandReaches(e: Expr, vars: Bindings, bits: nat, n: int) returns (env: Env)
    requires Tight(e, vars, bits) && forall v :: v in vars ==> Finite(vars[v])
    requires Visit(e, vars, [], bits).Some? && Inside(Visit(e, vars, [], bits).value, n)
    requires Leaf(e) || n == Visit(e, vars, [], bits).value.min || n == Visit(e, vars, [], bits).value.max
    ensures KnownVars(vars, env) && Eval(e, env) == n
    decreases e, 2
  {
    if Leaf(e) {
      env := LeafReaches(e, vars, bits, n);
    } else {
      var lo, hi := VisitTight(e, vars, bits);
      env := if n == Visit(e, vars, [], bits).value.min then lo else hi;
    }
  }

  /** Two operands are reached together. */
  lemma {:induction false} BothReached(e: Expr, vars: Bindings, bits: nat, m: int, n: int) returns (env: Env)
    requires e.Bin? && Tight(e, vars, bits) && forall v :: v in vars ==> Finite(vars[v])
    requires var a, b := Visit(e.a, vars, [], bits).value, Visit(e.b, vars, [], bits).value;
             Inside(a, m) && Inside(b, n) && (AtCorner(a, b, m, n) || (Leaf(e.a) && Leaf(e.b)))
    ensures KnownVars(vars, env) && Eval(e.a, env) == m && Eval(e.b, env) == n
    decreases e, 0
  {
    var first := OperandReaches(e.a, vars, bits, m);
    var second := OperandReaches(e.b, vars, bits, n);
    Merged(e.a, e.b, first, second, vars);
    env := Merge(first, second, FreeVars(e.a));
  }

  /** Both ends of the bound of e are values of e within the bindings. */
  lemma {:induction false} VisitTight(e: Expr, vars: Bindings, bits: nat) returns (lo: Env, hi: Env)
    requires Tight(e, vars, bits) && forall v :: v in vars ==> Finite(vars[v])
    ensures Visit(e, vars, [], bits).Some? && Finite(Visit(e, vars, [], bits).value)
    ensures KnownVars(vars, lo) && Eval(e, lo) == Visit(e, vars, [], bits).value.min
    ensures KnownVars(vars, hi) && Eval(e, hi) == Visit(e, vars, [], bits).value.max
    decreases e, 1
  {
    match e {
      case Var(v) =>
        lo := LeafReaches(e, vars, bits, vars[v].min);
        hi := LeafReaches(e, vars, bits, vars[v].max);
      case IntImm(n) =>
        lo := Binding(vars);
        hi := lo;
      case Bin(op, x, y) =>
        var a, b := Visit(x, vars, [], bits).value, Visit(y, vars, [], bits).value;
        var m, n, m', n' := BinBoundTight(op, a, b, bits);
        lo := BothReached(e, vars, bits, m, n);
        hi := BothReached(e, vars, bits, m', n');
      case Select(c, t, f) =>
        lo, hi := SelectTight(e, vars, bits);
    }
  }

  lemma {:induction false} SelectTight(e: Expr, vars: Bindings, bits: nat) returns (lo: Env, hi: Env)
    requires e.Select? && Tight(e, vars, bits) && forall v :: v in vars ==> Finite(vars[v])
    ensures Visit(e, vars, [], bits).Some? && Finite(Visit(e, vars, [], bits).value)
    ensures KnownVars(vars, lo) && Eval(e, lo) == Visit(e, vars, [], bits).value.min
    ensures KnownVars(vars, hi) && Eval(e, hi) == Visit(e, vars, [], bits).value.max
    decreases e, 0
  {
    var tlo, thi := VisitTight(e.onTrue, vars, bits);
    var flo, fhi := VisitTight(e.onFalse, vars, bits);
    var a, b := Visit(e.onTrue, vars, [], bits).value, Visit(e.onFalse, vars, [], bits).value;
    lo := Chosen(e, vars, if a.min <= b.min then tlo else flo, a.min <= b.min);
    hi := Chosen(e, vars, if a.max >= b.max then thi else fhi, a.max >= b.max);
  }

  lemma {:induction false} Chosen(e: Expr, vars: Bindings, env: Env, branch: bool) returns (r: Env)
    requires e.Select? && e.cond.Var? && e.cond.id !in vars && KnownVars(vars, env)
    requires e.cond.id !in FreeVars(e.onTrue) && e.cond.id !in FreeVars(e.onFalse)
    ensures KnownVars(vars, r) && Eval(e, r) == Eval(if branch then e.onTrue else e.onFalse, env)
  {
    r := env[e.cond.id := if branch then 1 else 0];
    EvalAgree(if branch then e.onTrue else e.onFalse, r, env);
    assert Eval(e.cond, r) == if branch then 1 else 0;
  }
}
