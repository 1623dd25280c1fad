/** Fourier-Motzkin elimination (src/arith/solve_linear_inequality.cc and AsConditions in
    src/arith/int_constraints.cc). Hash-set iteration is modelled by any order. */
module SolveLinearInequality {
  import opened IntOperator
  import opened PrimExprs
  import opened Wrappers
  import opened IntConstraintSystems

  // ----- oracles -----------------------------------------------------------------------------

  /** The analyzer (Simplify and CanProve under bound ranges) and DetectLinearEquation for one
      variable, which splits e into coefficient * v + base. */
  datatype Oracle = Oracle(
    simplify: Simplifier,
    prove: (Ranges, Expr) -> bool,
    detect: (Expr, nat) -> Option<(Expr, Expr)>)

  /** The split is exact, the base does not mention v, and a literal 0 coefficient means that the
      expression does not mention v either. */
  ghost predicate DetectSound(detect: (Expr, nat) -> Option<(Expr, Expr)>) {
    forall e: Expr, v: nat :: detect(e, v).Some? ==>
      var (c, b) := detect(e, v).value;
      && v !in FreeVars(b) && FreeVars(b) <= FreeVars(e)
      && (c == IntImm(0) ==> v !in FreeVars(e))
      && forall env: Env :: Eval(e, env) == Eval(c, env) * Get(env, v) + Eval(b, env)
  }

  ghost predicate Sound(o: Oracle) {
    SimplifierSound(o.simplify) && ProverSound(o.prove) && DetectSound(o.detect)
  }

  /** There are sound oracles: one that simplifies, proves and splits nothing. */
  lemma {:induction false} SoundOracleExists()
    ensures Sound(Oracle((_, e) => e, (_, _) => false, (_, _) => None))
  {}

  // ----- normalised comparisons --------------------------------------------------------------

  /** NormalizeComparisons: comparisons become `e <= 0`, `e == 0` or `e != 0`; the analyzer used
      here has no ranges. */
  function Normalize(o: Oracle, e: Expr): Expr {
    match e
    case Bin(op, a, b) =>
      (match op
       case EQ => Bin(EQ, o.simplify(map[], Bin(Sub, a, b)), IntImm(0))
       case NE => Bin(NE, o.simplify(map[], Bin(Sub, a, b)), IntImm(0))
       case LE => Bin(LE, o.simplify(map[], Bin(Sub, a, b)), IntImm(0))
       case LT => Bin(LE, o.simplify(map[], Bin(Add, Bin(Sub, a, b), IntImm(1))), IntImm(0))
       case GE => Bin(LE, o.simplify(map[], Bin(Sub, b, a)), IntImm(0))
       case GT => Bin(LE, o.simplify(map[], Bin(Add, Bin(Sub, b, a), IntImm(1))), IntImm(0))
       case _ => Bin(op, Normalize(o, a), Normalize(o, b)))
    case Not(a) => Not(Normalize(o, a))
    case Select(c, t, f) => Select(Normalize(o, c), Normalize(o, t), Normalize(o, f))
    case _ => e
  }

  predicate IsLe(e: Expr) { e.Bin? && e.op == LE }
  predicate IsEq(e: Expr) { e.Bin? && e.op == EQ }

  /** `<=` and `==` compare with literal 0. */
  predicate Normal(e: Expr) { IsLe(e) || IsEq(e) ==> e.b == IntImm(0) }

  lemma {:induction false} SimplifiedAnywhere(o: Oracle, e: Expr, env: Env)
    requires Sound(o)
    ensures Eval(o.simplify(map[], e), env) == Eval(e, env) && FreeVars(o.simplify(map[], e)) <= FreeVars(e)
  {
    SimplifiedInAll(o.simplify, map[], e, env);
    SimplifiedVars(o.simplify, map[], e);
  }

  lemma {:induction false} DifferenceEval(a: Expr, b: Expr, env: Env)
    ensures Eval(Bin(Sub, a, b), env) == Eval(a, env) - Eval(b, env)
    ensures Eval(Bin(Add, Bin(Sub, a, b), IntImm(1)), env) == Eval(a, env) - Eval(b, env) + 1
    ensures FreeVars(Bin(Sub, a, b)) == FreeVars(a) + FreeVars(b)
    ensures FreeVars(Bin(Add, Bin(Sub, a, b), IntImm(1))) == FreeVars(a) + FreeVars(b)
  {
    assert FreeVars(IntImm(1)) == {};
  }

  lemma {:induction false} AgainstZero(o: Oracle, op: BinOp, d: Expr, env: Env)
    requires Sound(o)
    ensures Eval(Bin(op, o.simplify(map[], d), IntImm(0)), env) == EvalBin(op, Eval(d, env), 0)
    ensures FreeVars(Bin(op, o.simplify(map[], d), IntImm(0))) <= FreeVars(d)
  {
    assert FreeVars(IntImm(0)) == {};
    SimplifiedAnywhere(o, d, env);
  }

  lemma {:induction false} ComparisonNormalized(o: Oracle, e: Expr, env: Env)
    requires Sound(o) && e.Bin? && e.op in {EQ, NE, LE, LT, GE, GT}
    ensures Eval(Normalize(o, e), env) == Eval(e, env) && FreeVars(Normalize(o, e)) <= FreeVars(e)
  {
    var a, b := e.a, e.b;
    match e.op
    case EQ => DifferenceEval(a, b, env); AgainstZero(o, EQ, Bin(Sub, a, b), env);
    case NE => DifferenceEval(a, b, env); AgainstZero(o, NE, Bin(Sub, a, b), env);
    case LE => DifferenceEval(a, b, env); AgainstZero(o, LE, Bin(Sub, a, b), env);
    case LT => DifferenceEval(a, b, env); AgainstZero(o, LE, Bin(Add, Bin(Sub, a, b), IntImm(1)), env);
    case GE => DifferenceEval(b, a, env); AgainstZero(o, LE, Bin(Sub, b, a), env);
    case GT => DifferenceEval(b, a, env); AgainstZero(o, LE, Bin(Add, Bin(Sub, b, a), IntImm(1)), env);
    case _ =>
  }

  /** Normalising keeps the value and introduces no variable. */
  lemma {:induction false} NormalizeEval(o: Oracle, e: Expr, env: Env)
    requires Sound(o)
    ensures Eval(Normalize(o, e), env) == Eval(e, env) && FreeVars(Normalize(o, e)) <= FreeVars(e)
    ensures Normal(Normalize(o, e))
  {
    match e
    case Bin(op, a, b) =>
      if op in {EQ, NE, LE, LT, GE, GT} {
        ComparisonNormalized(o, e, env);
      } else {
        NormalizeEval(o, a, env);
        NormalizeEval(o, b, env);
      }
    case Not(a) =>
      NormalizeEval(o, a, env);
    case Select(c, t, f) =>
      NormalizeEval(o, c, env);
      NormalizeEval(o, t, env);
      NormalizeEval(o, f, env);
    case _ =>
  }

  // ----- sets of inequalities ----------------------------------------------------------------

  /** Every comparison becomes one with 0, and an order becomes `<=`. */
  lemma {:induction false} NormalizeShape(o: Oracle, e: Expr)
    requires e.Bin? && e.op in {EQ, NE, LE, LT, GE, GT}
    ensures Normalize(o, e).Bin? && Normalize(o, e).b == IntImm(0)
    ensures Normalize(o, e).op == if e.op == EQ then EQ else if e.op == NE then NE else LE
  {}

  ghost predicate SetHolds(s: set<Expr>, env: Env) { forall e :: e in s ==> Holds(e, env) }

  ghost predicate NormalSet(s: set<Expr>) { forall e :: e in s ==> Normal(e) }

  /** No expression of s mentions a variable of vs. */
  ghost predicate Avoids(s: set<Expr>, vs: seq<nat>) {
    forall e, v :: e in s && v in vs ==> v !in FreeVars(e)
  }

  /** On in-range valuations, r says what s and e say. */
  ghost predicate Adds(r: set<Expr>, s: set<Expr>, e: Expr, rs: Ranges) {
    forall env: Env :: InAll(rs, env) ==> (SetHolds(r, env) <==> SetHolds(s, env) && Holds(e, env))
  }

  function LeZero(a: Expr): Expr { Bin(LE, a, IntImm(0)) }

  /** A proved `a - b <= 0` orders the values. */
  lemma {:induction false} ProvedOrder(o: Oracle, rs: Ranges, op: BinOp, a: Expr, b: Expr, env: Env)
    requires Sound(o) && (op == LE || op == GE) && o.prove(rs, Bin(op, Bin(Sub, a, b), IntImm(0)))
    requires InClosure(FreeVars(a) + FreeVars(b), rs, env)
    ensures if op == LE then Eval(a, env) <= Eval(b, env) else Eval(a, env) >= Eval(b, env)
  {
    var d := Bin(Sub, a, b);
    assert FreeVars(IntImm(0)) == {};
    assert FreeVars(Bin(op, d, IntImm(0))) == FreeVars(a) + FreeVars(b);
    assert Holds(Bin(op, d, IntImm(0)), env);
    assert Eval(d, env) == Eval(a, env) - Eval(b, env);
    assert Eval(Bin(op, d, IntImm(0)), env) == EvalBin(op, Eval(d, env), 0);
  }

  /** AddInequality: drops what follows from the ranges, is already there or is dominated, and
      erases what the new inequality dominates. */
  method AddInequality(o: Oracle, rs: Ranges, s: set<Expr>, e: Expr) returns (r: set<Expr>)
    requires Sound(o) && NormalSet(s) && Normal(e)
    ensures r <= s + {e} && Adds(r, s, e, rs)
    ensures o.prove(rs, e) || e in s ==> r == s
    ensures !o.prove(rs, e) && s == {} ==> r == {e}
  {
    if o.prove(rs, e) || e in s {
      forall env: Env | InAll(rs, env) && SetHolds(s, env) ensures Holds(e, env) {
        if e !in s { ProvedInAll(o.prove, rs, e, env); }
      }
      return s;
    }
    r := s;
    if IsLe(e) {
      var todo := s;
      while todo != {}
        invariant todo <= r <= s
        invariant forall env: Env :: InAll(rs, env) && SetHolds(r, env) && Holds(e, env) ==> SetHolds(s, env)
        decreases todo
      {
        var f :| f in todo;
        if IsLe(f) && o.prove(rs, LeZero(Bin(Sub, e.a, f.a))) {
          forall env: Env | InAll(rs, env) && SetHolds(r, env) ensures Holds(e, env) {
            Dominated(o, rs, e, f, env);
          }
          return r;
        } else if IsLe(f) && o.prove(rs, LeZero(Bin(Sub, f.a, e.a))) {
          forall env: Env | InAll(rs, env) && SetHolds(r - {f}, env) && Holds(e, env) ensures SetHolds(s, env) {
            Dominated(o, rs, f, e, env);
            assert forall g :: g in r ==> g == f || g in r - {f};
          }
          r := r - {f};
        }
        todo := todo - {f};
      }
    }
    forall env: Env | InAll(rs, env) ensures SetHolds(r + {e}, env) <==> SetHolds(s, env) && Holds(e, env) {
      assert SetHolds(r + {e}, env) <==> SetHolds(r, env) && Holds(e, env);
    }
    r := r + {e};
  }

  /** If e.a - f.a <= 0 is proved then f implies e. */
  lemma {:induction false} Dominated(o: Oracle, rs: Ranges, e: Expr, f: Expr, env: Env)
    requires Sound(o) && IsLe(e) && IsLe(f) && Normal(e) && Normal(f)
    requires o.prove(rs, LeZero(Bin(Sub, e.a, f.a))) && InAll(rs, env) && Holds(f, env)
    ensures Holds(e, env)
  {
    ClosureAll(FreeVars(e.a) + FreeVars(f.a), rs, env);
    ProvedOrder(o, rs, LE, e.a, f.a, env);
    assert Eval(e, env) == Truth(Eval(e.a, env) <= 0) && Eval(f, env) == Truth(Eval(f.a, env) <= 0);
  }

  // ----- inequalities split at a variable ----------------------------------------------------

  /** c*v + e <= 0, for a variable v given separately. */
  datatype Lin = Lin(c: int, e: Expr)

  predicate LinHolds(l: Lin, x: int, env: Env) { l.c * x + Eval(l.e, env) <= 0 }

  ghost predicate LinsHold(ls: seq<Lin>, x: int, env: Env) {
    forall i :: 0 <= i < |ls| ==> LinHolds(ls[i], x, env)
  }

  /** No base mentions a variable of vs. */
  ghost predicate LinsAvoid(ls: seq<Lin>, vs: seq<nat>) {
    forall i, v :: 0 <= i < |ls| && v in vs ==> v !in FreeVars(ls[i].e)
  }

  ghost predicate Positive(ls: seq<Lin>) { forall i :: 0 <= i < |ls| ==> ls[i].c > 0 }
  ghost predicate Negative(ls: seq<Lin>) { forall i :: 0 <= i < |ls| ==> ls[i].c < 0 }

  lemma {:induction false} LinsHoldAppend(ls: seq<Lin>, l: Lin, x: int, env: Env)
    ensures LinsHold(ls + [l], x, env) <==> LinsHold(ls, x, env) && LinHolds(l, x, env)
  {
    if LinsHold(ls + [l], x, env) {
      forall i | 0 <= i < |ls| ensures LinHolds(ls[i], x, env) { assert LinHolds((ls + [l])[i], x, env); }
      assert LinHolds((ls + [l])[|ls|], x, env);
    }
  }

  /** How ClassifyByPolarity treats one formula. */
  datatype Polarity = Zero | Split(pos: seq<Lin>, neg: seq<Lin>) | Unclassified

  function Classify(o: Oracle, e: Expr, v: nat): Polarity {
    if !IsLe(e) && !IsEq(e) then Unclassified
    else
      var d := o.detect(e.a, v);
      if d.None? || !d.value.0.IntImm? then Unclassified
      else
        var c, b := d.value.0.value, d.value.1;
        if c == 0 then Zero
        else if IsLe(e) then (if c > 0 then Split([Lin(c, b)], []) else Split([], [Lin(c, b)]))
        else if c > 0 then Split([Lin(c, b)], [Lin(-c, Negated(b))])
        else Split([Lin(-c, Negated(b))], [Lin(c, b)])
  }

  /** The parts say what the formula says, without mentioning v in their bases. */
  lemma {:induction false} ClassifySound(o: Oracle, e: Expr, v: nat)
    requires Sound(o) && Normal(e)
    ensures var p := Classify(o, e, v);
            && (p.Zero? ==> v !in FreeVars(e))
            && (p.Split? ==>
                  Positive(p.pos) && Negative(p.neg) &&
                  (forall i :: 0 <= i < |p.pos| ==> FreeVars(p.pos[i].e) <= FreeVars(e) - {v}) &&
                  (forall i :: 0 <= i < |p.neg| ==> FreeVars(p.neg[i].e) <= FreeVars(e) - {v}) &&
                  forall env: Env :: Holds(e, env) <==>
                    LinsHold(p.pos, Get(env, v), env) && LinsHold(p.neg, Get(env, v), env))
  {
    var p := Classify(o, e, v);
    if IsLe(e) || IsEq(e) {
      assert FreeVars(IntImm(0)) == {};
      assert FreeVars(e) == FreeVars(e.a);
      if p.Split? {
        var (c, b) := o.detect(e.a, v).value;
        assert FreeVars(Negated(b)) == FreeVars(b);
        forall env: Env
          ensures Holds(e, env) <==> LinsHold(p.pos, Get(env, v), env) && LinsHold(p.neg, Get(env, v), env)
        {
          var x := Get(env, v);
          assert Eval(e.a, env) == c.value * x + Eval(b, env);
          assert Eval(Negated(b), env) == -Eval(b, env);
          MulSigns(c.value, x);
          assert LinsHold([], x, env);
          forall l: Lin ensures LinsHold([l], x, env) <==> LinHolds(l, x, env) {
            assert LinsHold([l], x, env) ==> LinHolds([l][0], x, env);
          }
        }
      }
    }
  }

  /** A comparison with 0 whose coefficient of v is a literal, and no other formula, is taken apart: it
      has no part exactly if the coefficient is 0, and otherwise one for `<=` and two for `==`. */
  lemma {:induction false} ClassifyExact(o: Oracle, e: Expr, v: nat)
    ensures var p := Classify(o, e, v);
            var literal := (IsLe(e) || IsEq(e)) && o.detect(e.a, v).Some? && o.detect(e.a, v).value.0.IntImm?;
            && (p.Unclassified? <==> !literal)
            && (p.Zero? <==> literal && o.detect(e.a, v).value.0 == IntImm(0))
            && (p.Split? ==> |p.pos| + |p.neg| == if IsLe(e) then 1 else 2)
            && (p.Split? && IsEq(e) ==> |p.pos| == |p.neg| == 1)
            && (p.Split? ==> (|p.pos| > 0 <==> IsEq(e) || o.detect(e.a, v).value.0.value > 0))
  {}

  /** The formulas taken from `done` are accounted for by next, rest and the linear parts. */
  ghost predicate Accounts(done: set<Expr>, next: set<Expr>, rest: seq<Expr>, pos: seq<Lin>, neg: seq<Lin>, v: nat,
      rs: Ranges)
  {
    forall env: Env :: InAll(rs, env) ==>
      (SetHolds(done, env) <==>
       SetHolds(next, env) && AllHold(rest, env) && LinsHold(pos, Get(env, v), env) && LinsHold(neg, Get(env, v), env))
  }

  ghost predicate IsPart(o: Oracle, v: nat, s: set<Expr>, l: Lin, upper: bool) {
    exists e :: e in s && IsPartOf(o, v, e, l, upper)
  }

  predicate IsPartOf(o: Oracle, v: nat, e: Expr, l: Lin, upper: bool) {
    var p := Classify(o, e, v);
    p.Split? && l in if upper then p.pos else p.neg
  }

  /** Exactly the formulas that cannot be taken apart are in rest, those without v are the only ones
      passed on, and the parts are those of the others. */
  ghost predicate Sorted(o: Oracle, v: nat, done: set<Expr>, next: set<Expr>, rest: seq<Expr>, pos: seq<Lin>,
      neg: seq<Lin>)
  {
    && (forall e :: e in rest <==> e in done && Classify(o, e, v).Unclassified?)
    && (forall e :: e in next ==> e in done && Classify(o, e, v).Zero?)
    && (forall l :: l in pos <==> IsPart(o, v, done, l, true))
    && (forall l :: l in neg <==> IsPart(o, v, done, l, false))
  }

  lemma {:induction false} SortedNext(o: Oracle, v: nat, done: set<Expr>, next: set<Expr>, rest: seq<Expr>,
      pos: seq<Lin>, neg: seq<Lin>, e: Expr)
    requires Sorted(o, v, done, next, rest, pos, neg)
    ensures match Classify(o, e, v)
            case Zero => forall next' :: next' <= next + {e} ==> Sorted(o, v, done + {e}, next', rest, pos, neg)
            case Split(ps, ns) => Sorted(o, v, done + {e}, next, rest, pos + ps, neg + ns)
            case Unclassified => Sorted(o, v, done + {e}, next, rest + [e], pos, neg)
  {
    forall l: Lin, upper: bool
      ensures IsPart(o, v, done + {e}, l, upper) <==> IsPart(o, v, done, l, upper) || IsPartOf(o, v, e, l, upper)
    {
      PartOfMore(o, v, done, e, l, upper);
    }
  }

  lemma {:induction false} PartOfMore(o: Oracle, v: nat, done: set<Expr>, e: Expr, l: Lin, upper: bool)
    ensures IsPart(o, v, done + {e}, l, upper) <==> IsPart(o, v, done, l, upper) || IsPartOf(o, v, e, l, upper)
  {
    if IsPart(o, v, done, l, upper) {
      var f :| f in done && IsPartOf(o, v, f, l, upper);
      assert f in done + {e};
    }
    if IsPartOf(o, v, e, l, upper) { assert e in done + {e}; }
  }

  /** ClassifyByPolarity. */
  method ClassifyByPolarity(o: Oracle, rs: Ranges, v: nat, current: set<Expr>, ghost earlier: seq<nat>)
    returns (next: set<Expr>, rest: seq<Expr>, pos: seq<Lin>, neg: seq<Lin>)
    requires Sound(o) && NormalSet(current) && Avoids(current, earlier)
    ensures Accounts(current, next, rest, pos, neg, v, rs)
    ensures Positive(pos) && Negative(neg) && NormalSet(next)
    ensures Avoids(next, earlier + [v]) && LinsAvoid(pos, earlier + [v]) && LinsAvoid(neg, earlier + [v])
    ensures Sorted(o, v, current, next, rest, pos, neg)
  {
    next, rest, pos, neg := {}, [], [], [];
    var todo := current;
    ghost var done: set<Expr> := {};
    while todo != {}
      invariant todo <= current && done == current - todo && next <= current
      invariant Accounts(done, next, rest, pos, neg, v, rs)
      invariant Positive(pos) && Negative(neg)
      invariant Avoids(next, earlier + [v]) && LinsAvoid(pos, earlier + [v]) && LinsAvoid(neg, earlier + [v])
      invariant Sorted(o, v, done, next, rest, pos, neg)
      decreases todo
    {
      var e :| e in todo;
      var p := Classify(o, e, v);
      ClassifySound(o, e, v);
      SortedNext(o, v, done, next, rest, pos, neg, e);
      match p {
        case Zero =>
          var next' := AddInequality(o, rs, next, e);
          AccountZero(done, next, next', rest, pos, neg, v, rs, e);
          next := next';
        case Split(ps, ns) =>
          AccountSplit(done, next, rest, pos, neg, v, rs, e, ps, ns);
          pos, neg := pos + ps, neg + ns;
        case Unclassified =>
          AccountRest(done, next, rest, pos, neg, v, rs, e);
          rest := rest + [e];
      }
      todo := todo - {e};
      done := done + {e};
    }
    assert done == current;
  }

  lemma {:induction false} SetHoldsAdd(s: set<Expr>, e: Expr, env: Env)
    ensures SetHolds(s + {e}, env) <==> SetHolds(s, env) && Holds(e, env)
  {}

  lemma {:induction false} AccountZero(done: set<Expr>, next: set<Expr>, next': set<Expr>, rest: seq<Expr>,
      pos: seq<Lin>, neg: seq<Lin>, v: nat, rs: Ranges, e: Expr)
    requires Accounts(done, next, rest, pos, neg, v, rs) && Adds(next', next, e, rs)
    ensures Accounts(done + {e}, next', rest, pos, neg, v, rs)
  {
    forall env: Env | InAll(rs, env)
      ensures SetHolds(done + {e}, env) <==>
              (SetHolds(next', env) && AllHold(rest, env) && LinsHold(pos, Get(env, v), env) &&
                  LinsHold(neg, Get(env, v), env))
    {
      SetHoldsAdd(done, e, env);
    }
  }

  lemma {:induction false} AccountSplit(done: set<Expr>, next: set<Expr>, rest: seq<Expr>, pos: seq<Lin>, neg: seq<Lin>,
      v: nat, rs: Ranges, e: Expr, ps: seq<Lin>, ns: seq<Lin>)
    requires Accounts(done, next, rest, pos, neg, v, rs)
    requires forall env: Env :: Holds(e, env) <==> LinsHold(ps, Get(env, v), env) && LinsHold(ns, Get(env, v), env)
    ensures Accounts(done + {e}, next, rest, pos + ps, neg + ns, v, rs)
  {
    forall env: Env | InAll(rs, env)
      ensures SetHolds(done + {e}, env) <==>
              (SetHolds(next, env) && AllHold(rest, env) && LinsHold(pos + ps, Get(env, v), env) &&
                  LinsHold(neg + ns, Get(env, v), env))
    {
      SetHoldsAdd(done, e, env);
      LinsHoldConcat(pos, ps, Get(env, v), env);
      LinsHoldConcat(neg, ns, Get(env, v), env);
    }
  }

  lemma {:induction false} LinsHoldConcat(ls: seq<Lin>, ms: seq<Lin>, x: int, env: Env)
    ensures LinsHold(ls + ms, x, env) <==> LinsHold(ls, x, env) && LinsHold(ms, x, env)
  {
    if LinsHold(ls + ms, x, env) {
      forall i | 0 <= i < |ls| ensures LinHolds(ls[i], x, env) { assert LinHolds((ls + ms)[i], x, env); }
      forall i | 0 <= i < |ms| ensures LinHolds(ms[i], x, env) { assert LinHolds((ls + ms)[|ls| + i], x, env); }
    }
  }

  lemma {:induction false} AccountRest(done: set<Expr>, next: set<Expr>, rest: seq<Expr>, pos: seq<Lin>, neg: seq<Lin>,
      v: nat, rs: Ranges, e: Expr)
    requires Accounts(done, next, rest, pos, neg, v, rs)
    ensures Accounts(done + {e}, next, rest + [e], pos, neg, v, rs)
  {
    forall env: Env | InAll(rs, env)
      ensures SetHolds(done + {e}, env) <==>
              (SetHolds(next, env) && AllHold(rest + [e], env) && LinsHold(pos, Get(env, v), env) &&
                  LinsHold(neg, Get(env, v), env))
    {
      SetHoldsAdd(done, e, env);
      AllHoldAppend(rest, [e], env);
      assert AllHold([e], env) <==> Holds([e][0], env);
    }
  }

  // ----- combining upper and lower parts -----------------------------------------------------

  /** The variable-free consequence of p (c > 0) and n (c < 0), before simplification. */
  function Combination(p: Lin, n: Lin): Expr
    requires p.c > 0 && n.c < 0
  {
    BezoutIdentity(p.c, -n.c);
    GcdIsGreatest(p.c, -n.c);
    var g := Bezout(p.c, -n.c).0;
    LeZero(Bin(Sub, Scale(TruncDiv(p.c, g), n.e), Scale(TruncDiv(n.c, g), p.e)))
  }

  /** Some rational value of the variable is within both parts. */
  ghost predicate Meet(p: Lin, n: Lin, env: Env) { p.c * Eval(n.e, env) - n.c * Eval(p.e, env) <= 0 }

  /** The combination says exactly that. */
  lemma {:induction false} CombinationExact(p: Lin, n: Lin, env: Env)
    requires p.c > 0 && n.c < 0
    ensures Holds(Combination(p, n), env) <==> Meet(p, n, env)
  {
    BezoutIdentity(p.c, -n.c);
    GcdIsGreatest(p.c, -n.c);
    var g := Bezout(p.c, -n.c).0;
    DividesNegate(g, -n.c);
    RemainderZero(p.c, g);
    RemainderZero(n.c, g);
    var cn, cp := TruncDiv(p.c, g), TruncDiv(n.c, g);
    ScaledEval(Sub, cn, n.e, cp, p.e, env);
    var d := Bin(Sub, Scale(cn, n.e), Scale(cp, p.e));
    assert Eval(LeZero(d), env) == Truth(Eval(d, env) <= 0);
    CombinationScaled(g, cn, cp, Eval(p.e, env), Eval(n.e, env));
  }

  lemma {:induction false} CombinationScaled(g: int, cn: int, cp: int, ep: int, en: int)
    requires g > 0
    ensures cn * en - cp * ep <= 0 <==> (cn * g) * en - (cp * g) * ep <= 0
  {
    assert g * (cn * en - cp * ep) == (cn * g) * en - (cp * g) * ep;
    SignOfProduct(g, cn * en - cp * ep);
  }

  /** It follows from the two parts. */
  lemma {:induction false} CombinationHolds(p: Lin, n: Lin, x: int, env: Env)
    requires p.c > 0 && n.c < 0 && LinHolds(p, x, env) && LinHolds(n, x, env)
    ensures Holds(Combination(p, n), env)
  {
    var ep, en := Eval(p.e, env), Eval(n.e, env);
    MulLe(p.c * x + ep, 0, -n.c);
    MulLe(n.c * x + en, 0, p.c);
    MeetIdentity(p.c, n.c, x, ep, en);
    CombinationExact(p, n, env);
  }

  lemma {:induction false} MeetIdentity(cp: int, cn: int, x: int, ep: int, en: int)
    ensures -cn * (cp * x + ep) + cp * (cn * x + en) == cp * en - cn * ep
  {}

  lemma {:induction false} CombinationVars(p: Lin, n: Lin)
    requires p.c > 0 && n.c < 0
    ensures FreeVars(Combination(p, n)) == FreeVars(p.e) + FreeVars(n.e)
  {
    BezoutIdentity(p.c, -n.c);
    GcdIsGreatest(p.c, -n.c);
    var g := Bezout(p.c, -n.c).0;
    ScaleVars(Sub, TruncDiv(p.c, g), n.e, TruncDiv(n.c, g), p.e);
    assert FreeVars(IntImm(0)) == {};
  }

  /** Each of the first i positive parts meets each negative one, and part i the first j. */
  ghost predicate MeetTo(pos: seq<Lin>, neg: seq<Lin>, i: nat, j: nat, env: Env) {
    forall a, b :: 0 <= a < |pos| && 0 <= b < |neg| && (a < i || (a == i && b < j)) ==> Meet(pos[a], neg[b], env)
  }

  ghost predicate AllMeet(pos: seq<Lin>, neg: seq<Lin>, env: Env) { MeetTo(pos, neg, |pos|, 0, env) }

  /** On in-range valuations, r is s and the combinations so far. */
  ghost predicate CombinedTo(r: set<Expr>, s: set<Expr>, pos: seq<Lin>, neg: seq<Lin>, i: nat, j: nat, rs: Ranges) {
    forall env: Env :: InAll(rs, env) ==> (SetHolds(r, env) <==> SetHolds(s, env) && MeetTo(pos, neg, i, j, env))
  }

  /** Combines each positive part with each negative one: the new set says that s holds and that the
      parts meet, which is all that can be said without the variable. */
  method CombineAll(o: Oracle, rs: Ranges, s: set<Expr>, pos: seq<Lin>, neg: seq<Lin>, ghost avoid: seq<nat>)
    returns (r: set<Expr>)
    requires Sound(o) && NormalSet(s) && Positive(pos) && Negative(neg)
    requires Avoids(s, avoid) && LinsAvoid(pos, avoid) && LinsAvoid(neg, avoid) && RangesAvoid(rs, avoid)
    ensures NormalSet(r) && Avoids(r, avoid)
    ensures forall env: Env :: InAll(rs, env) ==> (SetHolds(r, env) <==> SetHolds(s, env) && AllMeet(pos, neg, env))
  {
    r := s;
    for i := 0 to |pos|
      invariant NormalSet(r) && Avoids(r, avoid) && CombinedTo(r, s, pos, neg, i, 0, rs)
    {
      for j := 0 to |neg|
        invariant NormalSet(r) && Avoids(r, avoid) && CombinedTo(r, s, pos, neg, i, j, rs)
      {
        var e := Normalize(o, o.simplify(rs, Combination(pos[i], neg[j])));
        CombinedInequality(o, rs, pos, neg, i, j, avoid);
        var r' := AddInequality(o, rs, r, e);
        CombinedNext(r, r', s, pos, neg, i, j, rs, e);
        r := r';
      }
      RowCombined(r, s, pos, neg, i, rs);
    }
  }

  lemma {:induction false} CombinedNext(r: set<Expr>, r': set<Expr>, s: set<Expr>, pos: seq<Lin>, neg: seq<Lin>, i: nat,
      j: nat, rs: Ranges, e: Expr)
    requires i < |pos| && j < |neg| && CombinedTo(r, s, pos, neg, i, j, rs) && Adds(r', r, e, rs)
    requires forall env: Env :: InAll(rs, env) ==> (Holds(e, env) <==> Meet(pos[i], neg[j], env))
    ensures CombinedTo(r', s, pos, neg, i, j + 1, rs)
  {
    forall env: Env | InAll(rs, env)
      ensures SetHolds(r', env) <==> SetHolds(s, env) && MeetTo(pos, neg, i, j + 1, env)
    {
      assert MeetTo(pos, neg, i, j + 1, env) <==> MeetTo(pos, neg, i, j, env) && Meet(pos[i], neg[j], env);
    }
  }

  lemma {:induction false} RowCombined(r: set<Expr>, s: set<Expr>, pos: seq<Lin>, neg: seq<Lin>, i: nat, rs: Ranges)
    requires i < |pos| && CombinedTo(r, s, pos, neg, i, |neg|, rs)
    ensures CombinedTo(r, s, pos, neg, i + 1, 0, rs)
  {
    forall env: Env ensures MeetTo(pos, neg, i, |neg|, env) <==> MeetTo(pos, neg, i + 1, 0, env) {}
  }

  lemma {:induction false} CombinedInequality(o: Oracle, rs: Ranges, pos: seq<Lin>, neg: seq<Lin>, i: nat, j: nat,
      avoid: seq<nat>)
    requires Sound(o) && Positive(pos) && Negative(neg) && i < |pos| && j < |neg|
    requires LinsAvoid(pos, avoid) && LinsAvoid(neg, avoid) && RangesAvoid(rs, avoid)
    ensures var e := Normalize(o, o.simplify(rs, Combination(pos[i], neg[j])));
            Normal(e) && Avoids({e}, avoid) &&
            forall env: Env :: InAll(rs, env) ==> (Holds(e, env) <==> Meet(pos[i], neg[j], env))
  {
    var c := Combination(pos[i], neg[j]);
    var e := Normalize(o, o.simplify(rs, c));
    NormalizeEval(o, o.simplify(rs, c), map[]);
    CombinationVars(pos[i], neg[j]);
    SimplifiedVars(o.simplify, rs, c);
    ReachedAvoids(FreeVars(o.simplify(rs, c)), FreeVars(c), avoid, rs);
    forall env: Env | InAll(rs, env) ensures Holds(e, env) <==> Meet(pos[i], neg[j], env) {
      CombinationExact(pos[i], neg[j], env);
      SimplifiedInAll(o.simplify, rs, c, env);
      NormalizeEval(o, o.simplify(rs, c), env);
    }
  }

  /** Parts that hold at some value of the variable meet. */
  lemma {:induction false} HoldingMeet(pos: seq<Lin>, neg: seq<Lin>, x: int, env: Env)
    requires Positive(pos) && Negative(neg) && LinsHold(pos, x, env) && LinsHold(neg, x, env)
    ensures AllMeet(pos, neg, env)
  {
    forall i, j | 0 <= i < |pos| && 0 <= j < |neg| ensures Meet(pos[i], neg[j], env) {
      CombinationHolds(pos[i], neg[j], x, env);
      CombinationExact(pos[i], neg[j], env);
    }
  }

  // ----- bounds for one variable -------------------------------------------------------------

  ghost predicate DivideAll(ls: seq<Lin>, m: int) { forall i :: 0 <= i < |ls| ==> Divides(ls[i].c, m) }

  /** lcm is the least common multiple of the coefficients. */
  ghost predicate LeastFor(lcm: int, pos: seq<Lin>, neg: seq<Lin>) {
    && lcm > 0 && DivideAll(pos, lcm) && DivideAll(neg, lcm)
    && forall m: int :: DivideAll(pos, m) && DivideAll(neg, m) ==> Divides(lcm, m)
  }

  /** One more part: the lcm of c and the coefficients so far. */
  lemma {:induction false} LeastForNext(lcm: int, pos: seq<Lin>, neg: seq<Lin>, l: Lin)
    requires LeastFor(lcm, pos, neg) && l.c != 0
    ensures var next := LeastCommonMultiple(lcm, Abs(l.c));
            LeastFor(next, pos, neg + [l]) && LeastFor(next, pos + [l], neg)
  {
    var next := LeastCommonMultiple(lcm, Abs(l.c));
    LcmIsLeast(lcm, Abs(l.c));
    DividesAbs(l.c, next);
    forall i | 0 <= i < |pos| ensures Divides(pos[i].c, next) { DividesTrans(pos[i].c, lcm, next); }
    forall i | 0 <= i < |neg| ensures Divides(neg[i].c, next) { DividesTrans(neg[i].c, lcm, next); }
    forall m: int | (DivideAll(pos, m) && DivideAll(neg + [l], m)) || (DivideAll(pos + [l], m) && DivideAll(neg, m))
      ensures Divides(next, m)
    {
      LastDivides(pos, neg, l, m);
      DividesAbs(l.c, m);
      assert Divides(lcm, m);
    }
  }

  lemma {:induction false} LastDivides(pos: seq<Lin>, neg: seq<Lin>, l: Lin, m: int)
    requires (DivideAll(pos, m) && DivideAll(neg + [l], m)) || (DivideAll(pos + [l], m) && DivideAll(neg, m))
    ensures Divides(l.c, m) && DivideAll(pos, m) && DivideAll(neg, m)
  {
    var ps, ns := pos + [l], neg + [l];
    assert forall i :: 0 <= i < |pos| ==> ps[i] == pos[i];
    assert forall i :: 0 <= i < |neg| ==> ns[i] == neg[i];
    assert ps[|pos|] == l && ns[|neg|] == l;
  }

  /** The least common multiple of all coefficients. */
  method CommonMultiple(pos: seq<Lin>, neg: seq<Lin>) returns (lcm: int)
    requires Positive(pos) && Negative(neg)
    ensures LeastFor(lcm, pos, neg)
  {
    lcm := 1;
    forall m: int ensures Divides(1, m) { DividesIntro(1, m); }
    for i := 0 to |pos|
      invariant LeastFor(lcm, pos[..i], [])
    {
      LeastForNext(lcm, pos[..i], [], pos[i]);
      lcm := LeastCommonMultiple(lcm, pos[i].c);
      assert pos[..i + 1] == pos[..i] + [pos[i]];
    }
    assert pos[..|pos|] == pos;
    for i := 0 to |neg|
      invariant LeastFor(lcm, pos, neg[..i])
    {
      LeastForNext(lcm, pos, neg[..i], neg[i]);
      lcm := LeastCommonMultiple(lcm, -neg[i].c);
      assert neg[..i + 1] == neg[..i] + [neg[i]];
    }
    assert neg[..|neg|] == neg;
  }

  /** The bound on lcm*v that the part stands for: an upper one for c > 0, a lower one for c < 0. */
  function BoundOf(l: Lin, lcm: int): Expr
    requires l.c != 0
  {
    Scale(TruncDiv(-lcm, l.c), l.e)
  }

  /** lcm*x is on the right side of the bound b. */
  predicate Within(upper: bool, lcm: int, x: int, b: Expr, env: Env) {
    if upper then lcm * x <= Eval(b, env) else lcm * x >= Eval(b, env)
  }

  ghost predicate AllWithin(upper: bool, lcm: int, x: int, bounds: set<Expr>, env: Env) {
    forall b :: b in bounds ==> Within(upper, lcm, x, b, env)
  }

  /** The bound says exactly what the part says. */
  lemma {:induction false} BoundExact(l: Lin, lcm: int, x: int, env: Env)
    requires l.c != 0 && lcm > 0 && Divides(l.c, lcm)
    ensures Within(l.c > 0, lcm, x, BoundOf(l, lcm), env) <==> LinHolds(l, x, env)
    ensures FreeVars(BoundOf(l, lcm)) == FreeVars(l.e)
  {
    DividesNegate(l.c, lcm);
    RemainderZero(-lcm, l.c);
    var k := TruncDiv(-lcm, l.c);
    var y := Eval(l.e, env);
    assert Eval(BoundOf(l, lcm), env) == k * y;
    assert FreeVars(IntImm(k)) == {};
    BoundArithmetic(l.c, k, lcm, x, y);
  }

  lemma {:induction false} BoundArithmetic(c: int, k: int, lcm: int, x: int, y: int)
    requires c != 0 && lcm > 0 && -lcm == k * c
    ensures (if c > 0 then lcm * x <= k * y else lcm * x >= k * y) <==> c * x + y <= 0
  {
    var t := c * x + y;
    assert k * t == k * y - lcm * x by { Distribute(c * x, y, k); MulAssoc(k, c, x); MulSigns(lcm, x); }
    if c > 0 {
      assert k < 0 by { if k >= 0 { MulLe(0, k, c); } }
      SignOfProduct(-k, t); MulSigns(k, t);
    } else {
      assert k > 0 by { if k <= 0 { MulSigns(k, c); MulLe(k, 0, -c); } }
      SignOfProduct(k, t);
    }
  }

  lemma {:induction false} SignOfProduct(k: int, t: int)
    requires k > 0
    ensures k * t <= 0 <==> t <= 0
  {
    if t <= 0 { MulLe(t, 0, k); } else { MulLe(1, t, k); }
  }

  ghost function LinVars(ls: seq<Lin>): set<nat> { set i, v | 0 <= i < |ls| && v in FreeVars(ls[i].e) :: v }

  /** The kept bounds say exactly what the first k parts say, wherever the variables of the bases
      respect their ranges. */
  ghost predicate Represent(bounds: set<Expr>, upper: bool, lcm: int, ls: seq<Lin>, k: nat, rs: Ranges)
    requires k <= |ls|
  {
    forall env: Env, x: int :: InClosure(LinVars(ls), rs, env) ==>
      (AllWithin(upper, lcm, x, bounds, env) <==> LinsHold(ls[..k], x, env))
  }

  ghost predicate BoundVars(bounds: set<Expr>, vs: set<nat>, rs: Ranges) {
    forall b :: b in bounds ==> Reached(FreeVars(b), vs, rs)
  }

  /** The bounds of the first k parts that survive the comparisons proved. */
  ghost function Survivors(o: Oracle, rs: Ranges, upper: bool, lcm: int, ls: seq<Lin>, k: nat): set<Expr>
    requires k <= |ls| && (if upper then Positive(ls) else Negative(ls))
  {
    if k == 0 then {}
    else
      var prior, bound := Survivors(o, rs, upper, lcm, ls, k - 1), o.simplify(rs, BoundOf(ls[k - 1], lcm));
      if exists b :: b in prior && o.prove(rs, Compared(if upper then LE else GE, b, bound)) then prior
      else (set b | b in prior && !o.prove(rs, Compared(if upper then GE else LE, b, bound))) + {bound}
  }

  /** Every survivor is the bound of a part. */
  lemma {:induction false} SurvivorOf(o: Oracle, rs: Ranges, upper: bool, lcm: int, ls: seq<Lin>, k: nat, e: Expr)
    returns (i: nat)
    requires k <= |ls| && (if upper then Positive(ls) else Negative(ls)) && e in Survivors(o, rs, upper, lcm, ls, k)
    ensures i < |ls| && e == o.simplify(rs, BoundOf(ls[i], lcm))
  {
    if e == o.simplify(rs, BoundOf(ls[k - 1], lcm)) { i := k - 1; } else {
      i := SurvivorOf(o, rs, upper, lcm, ls, k - 1, e);
    }
  }

  /** Keeps the bounds of the parts, leaving out a bound when a kept one is at least as good and
      erasing kept ones that a new one makes useless. */
  method KeepBest(o: Oracle, rs: Ranges, upper: bool, lcm: int, ls: seq<Lin>) returns (bounds: set<Expr>)
    requires Sound(o) && lcm > 0 && (if upper then Positive(ls) else Negative(ls))
    requires DivideAll(ls, lcm)
    ensures Represent(bounds, upper, lcm, ls, |ls|, rs) && BoundVars(bounds, LinVars(ls), rs)
    ensures bounds == Survivors(o, rs, upper, lcm, ls, |ls|)
  {
    bounds := {};
    var better, worse := if upper then LE else GE, if upper then GE else LE;
    for k := 0 to |ls|
      invariant Represent(bounds, upper, lcm, ls, k, rs) && BoundVars(bounds, LinVars(ls), rs)
      invariant bounds == Survivors(o, rs, upper, lcm, ls, k)
    {
      var bound := o.simplify(rs, BoundOf(ls[k], lcm));
      BoundMeaning(o, rs, upper, lcm, ls, k);
      var skip := AnyProved(o, rs, better, bounds, bound);
      if skip {
        SkipBound(o, rs, upper, lcm, ls, k, bounds, bound);
      } else {
        var kept := EraseProved(o, rs, worse, bounds, bound);
        EraseBounds(o, rs, upper, lcm, ls, k, bounds, kept, bound);
        bounds := kept + {bound};
      }
    }
    assert ls[..|ls|] == ls;
  }

  function Compared(op: BinOp, a: Expr, b: Expr): Expr { Bin(op, Bin(Sub, a, b), IntImm(0)) }

  /** Whether some kept bound compares provably with the new one. */
  method AnyProved(o: Oracle, rs: Ranges, op: BinOp, bounds: set<Expr>, bound: Expr) returns (found: bool)
    ensures found <==> exists b :: b in bounds && o.prove(rs, Compared(op, b, bound))
  {
    var todo := bounds;
    while todo != {}
      invariant todo <= bounds
      invariant forall b :: b in bounds - todo ==> !o.prove(rs, Compared(op, b, bound))
      decreases todo
    {
      var b :| b in todo;
      if o.prove(rs, Compared(op, b, bound)) { return true; }
      todo := todo - {b};
    }
    return false;
  }

  method EraseProved(o: Oracle, rs: Ranges, op: BinOp, bounds: set<Expr>, bound: Expr) returns (kept: set<Expr>)
    ensures kept == set b | b in bounds && !o.prove(rs, Compared(op, b, bound))
  {
    kept := bounds;
    var todo := bounds;
    while todo != {}
      invariant todo <= kept <= bounds
      invariant forall b :: b in bounds - todo ==> (b in kept <==> !o.prove(rs, Compared(op, b, bound)))
      decreases todo
    {
      var b :| b in todo;
      if o.prove(rs, Compared(op, b, bound)) { kept := kept - {b}; }
      todo := todo - {b};
    }
  }

  /** The simplified bound of part k says what the part says. */
  lemma {:induction false} BoundMeaning(o: Oracle, rs: Ranges, upper: bool, lcm: int, ls: seq<Lin>, k: nat)
    requires Sound(o) && lcm > 0 && (if upper then Positive(ls) else Negative(ls)) && k < |ls|
    requires Divides(ls[k].c, lcm)
    ensures Reached(FreeVars(o.simplify(rs, BoundOf(ls[k], lcm))), LinVars(ls), rs)
    ensures forall env: Env, x: int :: InClosure(LinVars(ls), rs, env) ==>
              (Within(upper, lcm, x, o.simplify(rs, BoundOf(ls[k], lcm)), env) <==> LinHolds(ls[k], x, env))
  {
    var b := BoundOf(ls[k], lcm);
    BoundExact(ls[k], lcm, 0, map[]);
    assert FreeVars(ls[k].e) <= LinVars(ls);
    SimplifiedVars(o.simplify, rs, b);
    ReachedPart(FreeVars(o.simplify(rs, b)), FreeVars(b), LinVars(ls), rs);
    forall env: Env, x: int | InClosure(LinVars(ls), rs, env)
      ensures Within(upper, lcm, x, o.simplify(rs, b), env) <==> LinHolds(ls[k], x, env)
    {
      ClosurePart(FreeVars(b), LinVars(ls), rs, env);
      Simplified(o.simplify, rs, b, env);
      BoundExact(ls[k], lcm, x, env);
    }
  }

  lemma {:induction false} LinsHoldNext(ls: seq<Lin>, k: nat, x: int, env: Env)
    requires k < |ls|
    ensures LinsHold(ls[..k + 1], x, env) <==> LinsHold(ls[..k], x, env) && LinHolds(ls[k], x, env)
  {
    assert ls[..k + 1] == ls[..k] + [ls[k]];
    LinsHoldAppend(ls[..k], ls[k], x, env);
  }

  lemma {:induction false} SkipBound(o: Oracle, rs: Ranges, upper: bool, lcm: int, ls: seq<Lin>, k: nat,
      bounds: set<Expr>, bound: Expr)
    requires Sound(o) && k < |ls| && Represent(bounds, upper, lcm, ls, k, rs) && BoundVars(bounds, LinVars(ls), rs)
    requires Reached(FreeVars(bound), LinVars(ls), rs)
    requires forall env: Env, x: int :: InClosure(LinVars(ls), rs, env) ==>
               (Within(upper, lcm, x, bound, env) <==> LinHolds(ls[k], x, env))
    requires exists b :: b in bounds && o.prove(rs, Compared(if upper then LE else GE, b, bound))
    ensures Represent(bounds, upper, lcm, ls, k + 1, rs)
  {
    var b :| b in bounds && o.prove(rs, Compared(if upper then LE else GE, b, bound));
    forall env: Env, x: int | InClosure(LinVars(ls), rs, env)
      ensures AllWithin(upper, lcm, x, bounds, env) <==> LinsHold(ls[..k + 1], x, env)
    {
      ReachedClosure(FreeVars(b) + FreeVars(bound), LinVars(ls), rs, env);
      ProvedOrder(o, rs, if upper then LE else GE, b, bound, env);
      LinsHoldNext(ls, k, x, env);
      if AllWithin(upper, lcm, x, bounds, env) { assert Within(upper, lcm, x, b, env); }
    }
  }

  lemma {:induction false} EraseBounds(o: Oracle, rs: Ranges, upper: bool, lcm: int, ls: seq<Lin>, k: nat,
      bounds: set<Expr>, kept: set<Expr>, bound: Expr)
    requires Sound(o) && k < |ls| && Represent(bounds, upper, lcm, ls, k, rs) && BoundVars(bounds, LinVars(ls), rs)
    requires Reached(FreeVars(bound), LinVars(ls), rs)
    requires forall env: Env, x: int :: InClosure(LinVars(ls), rs, env) ==>
               (Within(upper, lcm, x, bound, env) <==> LinHolds(ls[k], x, env))
    requires kept <= bounds
    requires forall b :: b in bounds && b !in kept ==> o.prove(rs, Compared(if upper then GE else LE, b, bound))
    ensures Represent(kept + {bound}, upper, lcm, ls, k + 1, rs)
  {
    forall env: Env, x: int | InClosure(LinVars(ls), rs, env)
      ensures AllWithin(upper, lcm, x, kept + {bound}, env) <==> LinsHold(ls[..k + 1], x, env)
    {
      LinsHoldNext(ls, k, x, env);
      assert AllWithin(upper, lcm, x, kept + {bound}, env) <==>
             AllWithin(upper, lcm, x, kept, env) && Within(upper, lcm, x, bound, env);
      if AllWithin(upper, lcm, x, kept + {bound}, env) {
        forall b | b in bounds ensures Within(upper, lcm, x, b, env) {
          if b !in kept {
            ReachedClosure(FreeVars(b) + FreeVars(bound), LinVars(ls), rs, env);
            ProvedOrder(o, rs, if upper then GE else LE, b, bound, env);
          }
        }
      }
    }
  }

  // ----- solved bounds and conditions --------------------------------------------------------

  /** coef*v >= lower, coef*v == equal, coef*v <= upper. */
  datatype GroupBounds = GroupBounds(coef: int, lower: seq<Expr>, equal: seq<Expr>, upper: seq<Expr>)

  ghost predicate BoundsHold(b: GroupBounds, x: int, env: Env) {
    && (forall i :: 0 <= i < |b.equal| ==> b.coef * x == Eval(b.equal[i], env))
    && (forall i :: 0 <= i < |b.lower| ==> b.coef * x >= Eval(b.lower[i], env))
    && (forall i :: 0 <= i < |b.upper| ==> b.coef * x <= Eval(b.upper[i], env))
  }

  function Compare(op: BinOp, lhs: Expr, rhs: seq<Expr>): (r: seq<Expr>)
    ensures |r| == |rhs| && forall i :: 0 <= i < |rhs| ==> r[i] == Bin(op, lhs, rhs[i])
  {
    seq(|rhs|, i requires 0 <= i < |rhs| => Bin(op, lhs, rhs[i]))
  }

  function BoundConditions(v: nat, b: GroupBounds): seq<Expr> {
    var lhs := Scale(b.coef, Var(v));
    Compare(EQ, lhs, b.equal) + Compare(GE, lhs, b.lower) + Compare(LE, lhs, b.upper)
  }

  lemma {:induction false} CompareHolds(op: BinOp, c: int, v: nat, rhs: seq<Expr>, env: Env)
    requires op in {EQ, GE, LE}
    ensures AllHold(Compare(op, Scale(c, Var(v)), rhs), env) <==>
            forall i :: 0 <= i < |rhs| ==> EvalBin(op, c * Get(env, v), Eval(rhs[i], env)) != 0
  {
    var lhs := Scale(c, Var(v));
    assert Eval(lhs, env) == c * Get(env, v);
    var r := Compare(op, lhs, rhs);
    assert forall i :: 0 <= i < |rhs| ==> Eval(r[i], env) == EvalBin(op, c * Get(env, v), Eval(rhs[i], env));
    if AllHold(r, env) {
      forall i | 0 <= i < |rhs| ensures EvalBin(op, c * Get(env, v), Eval(rhs[i], env)) != 0 {
        assert Holds(r[i], env);
      }
    }
  }

  lemma {:induction false} BoundConditionsHold(v: nat, b: GroupBounds, env: Env)
    ensures AllHold(BoundConditions(v, b), env) <==> BoundsHold(b, Get(env, v), env)
  {
    var lhs := Scale(b.coef, Var(v));
    AllHoldAppend(Compare(EQ, lhs, b.equal) + Compare(GE, lhs, b.lower), Compare(LE, lhs, b.upper), env);
    AllHoldAppend(Compare(EQ, lhs, b.equal), Compare(GE, lhs, b.lower), env);
    CompareHolds(EQ, b.coef, v, b.equal, env);
    CompareHolds(GE, b.coef, v, b.lower, env);
    CompareHolds(LE, b.coef, v, b.upper, env);
  }

  type Solved = map<nat, GroupBounds>

  /** The bounds of the variables in order, then the other relations. */
  function AsConditions(variables: seq<nat>, bounds: Solved, relations: seq<Expr>): seq<Expr>
    requires forall i :: 0 <= i < |variables| ==> variables[i] in bounds
  {
    if |variables| == 0 then relations
    else BoundConditions(variables[0], bounds[variables[0]]) + AsConditions(variables[1..], bounds, relations)
  }

  lemma {:induction false} AsConditionsHold(variables: seq<nat>, bounds: Solved, relations: seq<Expr>, env: Env)
    requires forall i :: 0 <= i < |variables| ==> variables[i] in bounds
    ensures AllHold(AsConditions(variables, bounds, relations), env) <==>
            AllHold(relations, env) &&
            forall i :: 0 <= i < |variables| ==> BoundsHold(bounds[variables[i]], Get(env, variables[i]), env)
  {
    if |variables| > 0 {
      var v := variables[0];
      AllHoldAppend(BoundConditions(v, bounds[v]), AsConditions(variables[1..], bounds, relations), env);
      BoundConditionsHold(v, bounds[v], env);
      AsConditionsHold(variables[1..], bounds, relations, env);
      assert forall i :: 1 <= i < |variables| ==> variables[i] == variables[1..][i - 1];
    }
  }

  /** The loop of AsConditions. */
  method CollectConditions(variables: seq<nat>, bounds: Solved, relations: seq<Expr>) returns (res: seq<Expr>)
    requires forall i :: 0 <= i < |variables| ==> variables[i] in bounds
    ensures res == AsConditions(variables, bounds, relations)
  {
    res := [];
    for k := 0 to |variables|
      invariant AsConditions(variables, bounds, relations) == res + AsConditions(variables[k..], bounds, relations)
    {
      var v := variables[k];
      assert variables[k..][1..] == variables[k + 1..];
      assert (res + BoundConditions(v, bounds[v])) + AsConditions(variables[k + 1..], bounds, relations) ==
             res + (BoundConditions(v, bounds[v]) + AsConditions(variables[k + 1..], bounds, relations));
      res := res + BoundConditions(v, bounds[v]);
    }
    res := res + relations;
  }

  /** Moves what is both an upper and a lower bound to the equalities. */
  method MoveEquality(upper0: set<Expr>, lower0: set<Expr>)
    returns (upper: set<Expr>, lower: set<Expr>, equal: set<Expr>)
    ensures equal == upper0 * lower0 && upper == upper0 - equal && lower == lower0 - equal
  {
    upper, lower, equal := upper0, lower0, {};
    var todo := upper0;
    while todo != {}
      invariant todo <= upper0
      invariant equal == (upper0 - todo) * lower0
      invariant upper == upper0 - equal && lower == lower0 - equal
      decreases todo
    {
      var u :| u in todo;
      if u in lower {
        equal, lower, upper := equal + {u}, lower - {u}, upper - {u};
      }
      todo := todo - {u};
    }
  }

  method ToSeq(s: set<Expr>) returns (q: seq<Expr>)
    ensures forall e :: e in q <==> e in s
  {
    q := [];
    var todo := s;
    while todo != {}
      invariant todo <= s
      invariant forall e :: e in q <==> e in s - todo
      decreases todo
    {
      var e :| e in todo;
      q, todo := q + [e], todo - {e};
    }
  }

  /** The bounds of one variable, grouped. */
  method Group(coef: int, upper0: set<Expr>, lower0: set<Expr>) returns (b: GroupBounds)
    ensures b.coef == coef
    ensures forall env: Env, x: int :: BoundsHold(b, x, env) <==>
              AllWithin(true, coef, x, upper0, env) && AllWithin(false, coef, x, lower0, env)
    ensures forall e :: e in b.equal || e in b.lower ==> e in lower0
    ensures forall e :: e in b.equal || e in b.upper ==> e in upper0
  {
    var upper, lower, equal := MoveEquality(upper0, lower0);
    var es := ToSeq(equal);
    var ls := ToSeq(lower);
    var us := ToSeq(upper);
    b := GroupBounds(coef, ls, es, us);
    forall env: Env, x: int
      ensures BoundsHold(b, x, env) <==> AllWithin(true, coef, x, upper0, env) && AllWithin(false, coef, x, lower0, env)
    {
      GroupMeaning(b, upper0, lower0, equal, x, env);
    }
  }

  lemma {:induction false} GroupMeaning(b: GroupBounds, upper0: set<Expr>, lower0: set<Expr>, equal: set<Expr>, x: int,
      env: Env)
    requires equal == upper0 * lower0
    requires forall e :: e in b.equal <==> e in equal
    requires forall e :: e in b.lower <==> e in lower0 - equal
    requires forall e :: e in b.upper <==> e in upper0 - equal
    ensures BoundsHold(b, x, env) <==>
            AllWithin(true, b.coef, x, upper0, env) && AllWithin(false, b.coef, x, lower0, env)
  {
    if BoundsHold(b, x, env) {
      forall e | e in upper0 ensures Within(true, b.coef, x, e, env) { assert e in b.equal || e in b.upper; }
      forall e | e in lower0 ensures Within(false, b.coef, x, e, env) { assert e in b.equal || e in b.lower; }
    }
    if AllWithin(true, b.coef, x, upper0, env) && AllWithin(false, b.coef, x, lower0, env) {
      forall i | 0 <= i < |b.equal| ensures b.coef * x == Eval(b.equal[i], env) {
        assert b.equal[i] in b.equal;
        assert Within(true, b.coef, x, b.equal[i], env) && Within(false, b.coef, x, b.equal[i], env);
      }
      forall i | 0 <= i < |b.lower| ensures b.coef * x >= Eval(b.lower[i], env) {
        assert b.lower[i] in b.lower;
        assert b.lower[i] in lower0 && Within(false, b.coef, x, b.lower[i], env);
      }
      forall i | 0 <= i < |b.upper| ensures b.coef * x <= Eval(b.upper[i], env) {
        assert b.upper[i] in b.upper;
        assert b.upper[i] in upper0 && Within(true, b.coef, x, b.upper[i], env);
      }
    }
  }

  // ----- one elimination step ----------------------------------------------------------------

  /** Every ranged variable outside vs is in range. */
  ghost predicate OthersInRange(vs: seq<nat>, rs: Ranges, env: Env) {
    forall u :: u in rs && u !in vs ==> InRange(rs[u], Get(env, u), env)
  }

  /** The range of v as two linear parts: v - (min + extent - 1) <= 0 and -v + min <= 0. */
  function RangeTop(o: Oracle, rs: Ranges, r: Range): Lin {
    Lin(1, Negated(o.simplify(rs, Bin(Sub, Bin(Add, r.min, r.extent), IntImm(1)))))
  }

  function RangeBottom(o: Oracle, rs: Ranges, r: Range): Lin { Lin(-1, o.simplify(rs, r.min)) }

  lemma {:induction false} RangeParts(o: Oracle, rs: Ranges, r: Range, x: int, env: Env)
    requires Sound(o) && InClosure(RangeVars(r), rs, env)
    ensures LinHolds(RangeTop(o, rs, r), x, env) && LinHolds(RangeBottom(o, rs, r), x, env) <==> InRange(r, x, env)
  {
    var top := Bin(Sub, Bin(Add, r.min, r.extent), IntImm(1));
    RangePartVars(o, rs, r);
    Simplified(o.simplify, rs, top, env);
    ClosurePart(FreeVars(r.min), RangeVars(r), rs, env);
    Simplified(o.simplify, rs, r.min, env);
    assert Eval(Bin(Add, r.min, r.extent), env) == Eval(r.min, env) + Eval(r.extent, env);
    assert Eval(top, env) == Eval(r.min, env) + Eval(r.extent, env) - 1;
    assert Eval(Negated(o.simplify(rs, top)), env) == -Eval(top, env);
  }

  lemma {:induction false} RangePartVars(o: Oracle, rs: Ranges, r: Range)
    requires Sound(o)
    ensures FreeVars(Bin(Sub, Bin(Add, r.min, r.extent), IntImm(1))) == RangeVars(r)
    ensures Reached(FreeVars(RangeTop(o, rs, r).e), RangeVars(r), rs)
    ensures Reached(FreeVars(RangeBottom(o, rs, r).e), RangeVars(r), rs)
  {
    var top := Bin(Sub, Bin(Add, r.min, r.extent), IntImm(1));
    assert FreeVars(IntImm(1)) == {} && FreeVars(IntImm(0)) == {};
    assert FreeVars(Bin(Add, r.min, r.extent)) == RangeVars(r);
    SimplifiedVars(o.simplify, rs, top);
    SimplifiedVars(o.simplify, rs, r.min);
    ReachedPart(FreeVars(o.simplify(rs, r.min)), FreeVars(r.min), RangeVars(r), rs);
    assert FreeVars(Negated(o.simplify(rs, top))) == FreeVars(o.simplify(rs, top));
  }

  /** The ranges of the other variables do not mention the avoided ones. */
  ghost predicate RangesAvoid(rs: Ranges, avoid: seq<nat>) {
    forall u :: u in rs && u !in avoid ==> RangeAvoids(rs[u], avoid)
  }

  ghost predicate RangeAvoids(r: Range, avoid: seq<nat>) { forall v :: v in RangeVars(r) ==> v !in avoid }

  /** On in-range valuations, current is what next, rest and the bounds of v say. */
  ghost predicate Eliminates(current: set<Expr>, next: set<Expr>, rest: seq<Expr>, b: GroupBounds, v: nat, rs: Ranges) {
    forall env: Env :: InAll(rs, env) ==>
      (SetHolds(current, env) <==> SetHolds(next, env) && AllHold(rest, env) && BoundsHold(b, Get(env, v), env))
  }

  /** Where the variables not yet eliminated are in range, the bounds of v put v in its range. */
  ghost predicate ImpliesRange(b: GroupBounds, v: nat, eliminated: seq<nat>, rs: Ranges) {
    forall env: Env :: v in rs && OthersInRange(eliminated, rs, env) && BoundsHold(b, Get(env, v), env) ==>
      InRange(rs[v], Get(env, v), env)
  }

  /** The bounds mention no eliminated variable. */
  ghost predicate BoundsAvoid(b: GroupBounds, vs: seq<nat>) {
    forall e, u :: (e in b.equal || e in b.lower || e in b.upper) && u in vs ==> u !in FreeVars(e)
  }

  /** The bounds say exactly what the parts say, wherever the variables they mention are in range. */
  ghost predicate GroupExact(b: GroupBounds, pos: seq<Lin>, neg: seq<Lin>, rs: Ranges) {
    forall env: Env, x: int :: InClosure(LinVars(pos), rs, env) && InClosure(LinVars(neg), rs, env) ==>
      (BoundsHold(b, x, env) <==> LinsHold(pos, x, env) && LinsHold(neg, x, env))
  }

  /** Every lower bound is at most every upper bound. */
  ghost predicate BoundsMeet(b: GroupBounds, env: Env) {
    forall l, u :: (l in b.equal || l in b.lower) && (u in b.equal || u in b.upper) ==> Eval(l, env) <= Eval(u, env)
  }

  /** The bounds meet where the parts do. */
  ghost predicate GroupMeets(b: GroupBounds, pos: seq<Lin>, neg: seq<Lin>, rs: Ranges) {
    forall env: Env :: InAll(rs, env) && AllMeet(pos, neg, env) ==> BoundsMeet(b, env)
  }

  lemma {:induction false} BoundFactor(l: Lin, lcm: int, env: Env) returns (k: int)
    requires l.c != 0 && lcm > 0 && Divides(l.c, lcm)
    ensures -lcm == k * l.c && Eval(BoundOf(l, lcm), env) == k * Eval(l.e, env)
  {
    DividesNegate(l.c, lcm);
    RemainderZero(-lcm, l.c);
    k := TruncDiv(-lcm, l.c);
  }

  lemma {:induction false} PartsOrdered(p: Lin, n: Lin, lcm: int, env: Env)
    requires p.c > 0 && n.c < 0 && lcm > 0 && Divides(p.c, lcm) && Divides(n.c, lcm) && Meet(p, n, env)
    ensures Eval(BoundOf(n, lcm), env) <= Eval(BoundOf(p, lcm), env)
  {
    var kp := BoundFactor(p, lcm, env);
    var kn := BoundFactor(n, lcm, env);
    OrderArithmetic(p.c, n.c, kp, kn, lcm, Eval(p.e, env), Eval(n.e, env));
  }

  lemma {:induction false} OrderArithmetic(cp: int, cn: int, kp: int, kn: int, lcm: int, ep: int, en: int)
    requires cp > 0 && cn < 0 && lcm > 0 && -lcm == kp * cp && -lcm == kn * cn && cp * en - cn * ep <= 0
    ensures kn * en <= kp * ep
  {
    assert kp < 0 by { if kp >= 0 { MulLe(0, kp, cp); } }
    assert kn > 0 by { if kn <= 0 { MulSigns(kn, cn); MulLe(kn, 0, -cn); } }
    var t := cp * en - cn * ep;
    MulLe(t, 0, kn);
    MulLe(kn * t, 0, -kp);
    OrderIdentity(cp, cn, kp, kn, lcm, ep, en);
    SignOfProduct(lcm, kn * en - kp * ep);
  }

  lemma {:induction false} OrderIdentity(cp: int, cn: int, kp: int, kn: int, lcm: int, ep: int, en: int)
    requires -lcm == kp * cp && -lcm == kn * cn
    ensures -kp * (kn * (cp * en - cn * ep)) == lcm * (kn * en - kp * ep)
  {
    assert -kp * (kn * (cp * en - cn * ep)) == -(kp * cp) * (kn * en) + (kn * cn) * (kp * ep);
  }

  lemma {:induction false} SurvivorsMeet(o: Oracle, rs: Ranges, lcm: int, pos: seq<Lin>, neg: seq<Lin>, l: Expr,
      u: Expr, env: Env)
    requires Sound(o) && Positive(pos) && Negative(neg) && LeastFor(lcm, pos, neg)
    requires l in Survivors(o, rs, false, lcm, neg, |neg|) && u in Survivors(o, rs, true, lcm, pos, |pos|)
    requires InAll(rs, env) && AllMeet(pos, neg, env)
    ensures Eval(l, env) <= Eval(u, env)
  {
    var i := SurvivorOf(o, rs, true, lcm, pos, |pos|, u);
    var j := SurvivorOf(o, rs, false, lcm, neg, |neg|, l);
    assert Meet(pos[i], neg[j], env);
    PartsOrdered(pos[i], neg[j], lcm, env);
    SimplifiedInAll(o.simplify, rs, BoundOf(pos[i], lcm), env);
    SimplifiedInAll(o.simplify, rs, BoundOf(neg[j], lcm), env);
  }

  method SolveParts(o: Oracle, rs: Ranges, pos: seq<Lin>, neg: seq<Lin>, ghost avoid: seq<nat>) returns (b: GroupBounds)
    requires Sound(o) && Positive(pos) && Negative(neg) && LinsAvoid(pos, avoid) && LinsAvoid(neg, avoid)
    requires RangesAvoid(rs, avoid)
    ensures b.coef > 0 && GroupExact(b, pos, neg, rs) && GroupMeets(b, pos, neg, rs) && BoundsAvoid(b, avoid)
  {
    var lcm := CommonMultiple(pos, neg);
    var upper := KeepBest(o, rs, true, lcm, pos);
    var lower := KeepBest(o, rs, false, lcm, neg);
    b := Group(lcm, upper, lower);
    forall env: Env, x: int | InClosure(LinVars(pos), rs, env) && InClosure(LinVars(neg), rs, env)
      ensures BoundsHold(b, x, env) <==> LinsHold(pos, x, env) && LinsHold(neg, x, env)
    {
      assert pos[..|pos|] == pos && neg[..|neg|] == neg;
    }
    forall e, u | (e in b.equal || e in b.lower || e in b.upper) && u in avoid ensures u !in FreeVars(e) {
      if e in upper { LinsReached(e, pos, avoid, rs); } else { LinsReached(e, neg, avoid, rs); }
    }
    forall env: Env, l, u | InAll(rs, env) && AllMeet(pos, neg, env) && l in lower && u in upper
      ensures Eval(l, env) <= Eval(u, env)
    {
      SurvivorsMeet(o, rs, lcm, pos, neg, l, u, env);
    }
  }

  lemma {:induction false} LinsReached(e: Expr, ls: seq<Lin>, avoid: seq<nat>, rs: Ranges)
    requires Reached(FreeVars(e), LinVars(ls), rs) && LinsAvoid(ls, avoid) && RangesAvoid(rs, avoid)
    ensures forall u :: u in avoid ==> u !in FreeVars(e)
  {
    forall u | u in LinVars(ls) ensures u !in avoid { var i :| 0 <= i < |ls| && u in FreeVars(ls[i].e); }
    ReachedAvoids(FreeVars(e), LinVars(ls), avoid, rs);
  }

  /** Eliminates v from the current inequalities. What avoids the earlier variables and v still does,
      as far as the ranges do. */
  method SolveVariable(o: Oracle, rs: Ranges, v: nat, current: set<Expr>, ghost earlier: seq<nat>,
      ghost avoid: seq<nat>)
    returns (b: GroupBounds, next: set<Expr>, rest: seq<Expr>)
    requires Sound(o) && NormalSet(current) && Avoids(current, earlier) && forall u :: u in avoid ==> u in earlier + [v]
    requires RangesAvoid(rs, avoid) && (v in rs ==> RangeAvoids(rs[v], avoid))
    ensures b.coef > 0 && BoundsAvoid(b, avoid)
    ensures NormalSet(next) && Avoids(next, avoid)
    ensures Eliminates(current, next, rest, b, v, rs) && ImpliesRange(b, v, avoid, rs)
    ensures forall env: Env :: InAll(rs, env) && SetHolds(next, env) ==> BoundsMeet(b, env)
    ensures forall e :: e in rest <==> e in current && Classify(o, e, v).Unclassified?
  {
    var next0, rest0, pos0, neg0 := ClassifyByPolarity(o, rs, v, current, earlier);
    rest := rest0;
    var pos, neg := pos0, neg0;
    if v in rs {
      pos, neg := [RangeTop(o, rs, rs[v])] + pos0, [RangeBottom(o, rs, rs[v])] + neg0;
      WithRangeAvoids(o, rs, v, pos0, neg0, avoid);
    }
    next := CombineAll(o, rs, next0, pos, neg, avoid);
    b := SolveParts(o, rs, pos, neg, avoid);
    StepEliminates(o, rs, v, current, next0, next, rest, pos0, neg0, b);
    StepImpliesRange(o, rs, v, pos0, neg0, b, avoid);
  }

  function WithTop(o: Oracle, rs: Ranges, v: nat, pos: seq<Lin>): seq<Lin> {
    if v in rs then [RangeTop(o, rs, rs[v])] + pos else pos
  }

  function WithBottom(o: Oracle, rs: Ranges, v: nat, neg: seq<Lin>): seq<Lin> {
    if v in rs then [RangeBottom(o, rs, rs[v])] + neg else neg
  }

  lemma {:induction false} WithRangeAvoids(o: Oracle, rs: Ranges, v: nat, pos: seq<Lin>, neg: seq<Lin>, avoid: seq<nat>)
    requires Sound(o) && v in rs && RangeAvoids(rs[v], avoid) && RangesAvoid(rs, avoid)
    requires Positive(pos) && Negative(neg) && LinsAvoid(pos, avoid) && LinsAvoid(neg, avoid)
    ensures Positive(WithTop(o, rs, v, pos)) && Negative(WithBottom(o, rs, v, neg))
    ensures LinsAvoid(WithTop(o, rs, v, pos), avoid) && LinsAvoid(WithBottom(o, rs, v, neg), avoid)
  {
    RangePartVars(o, rs, rs[v]);
    ReachedAvoids(FreeVars(RangeTop(o, rs, rs[v]).e), RangeVars(rs[v]), avoid, rs);
    ReachedAvoids(FreeVars(RangeBottom(o, rs, rs[v]).e), RangeVars(rs[v]), avoid, rs);
  }

  lemma {:induction false} WithRangeHolds(o: Oracle, rs: Ranges, v: nat, pos: seq<Lin>, neg: seq<Lin>, x: int, env: Env)
    requires Sound(o) && (v in rs ==> InClosure(RangeVars(rs[v]), rs, env))
    ensures LinsHold(WithTop(o, rs, v, pos), x, env) && LinsHold(WithBottom(o, rs, v, neg), x, env) <==>
            LinsHold(pos, x, env) && LinsHold(neg, x, env) && (v in rs ==> InRange(rs[v], x, env))
  {
    if v in rs {
      var t, b := RangeTop(o, rs, rs[v]), RangeBottom(o, rs, rs[v]);
      RangeParts(o, rs, rs[v], x, env);
      LinsHoldConcat([t], pos, x, env);
      LinsHoldConcat([b], neg, x, env);
      SingleHolds(t, x, env);
      SingleHolds(b, x, env);
    }
  }

  lemma {:induction false} SingleHolds(l: Lin, x: int, env: Env)
    ensures LinsHold([l], x, env) <==> LinHolds(l, x, env)
  {
    assert LinsHold([l], x, env) ==> LinHolds([l][0], x, env);
  }

  lemma {:induction false} StepEliminates(o: Oracle, rs: Ranges, v: nat, current: set<Expr>, next0: set<Expr>,
      next: set<Expr>, rest: seq<Expr>, pos: seq<Lin>, neg: seq<Lin>, b: GroupBounds)
    requires Sound(o) && Accounts(current, next0, rest, pos, neg, v, rs)
    requires Positive(WithTop(o, rs, v, pos)) && Negative(WithBottom(o, rs, v, neg))
    requires forall env: Env :: InAll(rs, env) ==>
               (SetHolds(next, env) <==>
                SetHolds(next0, env) && AllMeet(WithTop(o, rs, v, pos), WithBottom(o, rs, v, neg), env))
    requires GroupExact(b, WithTop(o, rs, v, pos), WithBottom(o, rs, v, neg), rs)
    ensures Eliminates(current, next, rest, b, v, rs)
  {
    forall env: Env | InAll(rs, env)
      ensures SetHolds(current, env) <==> SetHolds(next, env) && AllHold(rest, env) && BoundsHold(b, Get(env, v), env)
    {
      ClosureAll(LinVars(WithTop(o, rs, v, pos)), rs, env);
      ClosureAll(LinVars(WithBottom(o, rs, v, neg)), rs, env);
      if v in rs { ClosureAll(RangeVars(rs[v]), rs, env); }
      WithRangeHolds(o, rs, v, pos, neg, Get(env, v), env);
      if BoundsHold(b, Get(env, v), env) {
        HoldingMeet(WithTop(o, rs, v, pos), WithBottom(o, rs, v, neg), Get(env, v), env);
      }
    }
  }

  lemma {:induction false} StepImpliesRange(o: Oracle, rs: Ranges, v: nat, pos: seq<Lin>, neg: seq<Lin>, b: GroupBounds,
      avoid: seq<nat>)
    requires Sound(o) && RangesAvoid(rs, avoid) && (v in rs ==> RangeAvoids(rs[v], avoid))
    requires LinsAvoid(WithTop(o, rs, v, pos), avoid) && LinsAvoid(WithBottom(o, rs, v, neg), avoid)
    requires GroupExact(b, WithTop(o, rs, v, pos), WithBottom(o, rs, v, neg), rs)
    ensures ImpliesRange(b, v, avoid, rs)
  {
    forall env: Env | v in rs && OthersInRange(avoid, rs, env) && BoundsHold(b, Get(env, v), env)
      ensures InRange(rs[v], Get(env, v), env)
    {
      LinVarsInRange(WithTop(o, rs, v, pos), avoid, rs, env);
      LinVarsInRange(WithBottom(o, rs, v, neg), avoid, rs, env);
      AvoidingInRange(RangeVars(rs[v]), avoid, rs, env);
      WithRangeHolds(o, rs, v, pos, neg, Get(env, v), env);
    }
  }

  lemma {:induction false} LinVarsInRange(ls: seq<Lin>, avoid: seq<nat>, rs: Ranges, env: Env)
    requires LinsAvoid(ls, avoid) && RangesAvoid(rs, avoid) && OthersInRange(avoid, rs, env)
    ensures InClosure(LinVars(ls), rs, env)
  {
    forall u | u in LinVars(ls) ensures u !in avoid { var i :| 0 <= i < |ls| && u in FreeVars(ls[i].e); }
    AvoidingInRange(LinVars(ls), avoid, rs, env);
  }

  lemma {:induction false} AvoidingInRange(vs: set<nat>, avoid: seq<nat>, rs: Ranges, env: Env)
    requires (forall v :: v in vs ==> v !in avoid) && RangesAvoid(rs, avoid) && OthersInRange(avoid, rs, env)
    ensures InClosure(vs, rs, env)
  {
    var c := Avoiding(vs, avoid, rs);
    AvoidingClosed(vs, avoid, rs);
    assert vs <= c && Closed(c, rs) && InRanges(c, rs, env);
  }

  /** The variables of vs and of the ranges that are not avoided. */
  function Avoiding(vs: set<nat>, avoid: seq<nat>, rs: Ranges): set<nat> {
    vs + set u, v | u in rs && u !in avoid && v in RangeVars(rs[u]) :: v
  }

  lemma {:induction false} AvoidingClosed(vs: set<nat>, avoid: seq<nat>, rs: Ranges)
    requires (forall v :: v in vs ==> v !in avoid) && RangesAvoid(rs, avoid)
    ensures Closed(Avoiding(vs, avoid, rs), rs) && forall v :: v in Avoiding(vs, avoid, rs) ==> v !in avoid
  {
    var c := Avoiding(vs, avoid, rs);
    forall u | u in c && u in rs ensures RangeVars(rs[u]) <= c { assert u !in avoid; }
  }

  /** What is reached from variables that are not avoided is not avoided. */
  lemma {:induction false} ReachedAvoids(ws: set<nat>, vs: set<nat>, avoid: seq<nat>, rs: Ranges)
    requires Reached(ws, vs, rs) && (forall v :: v in vs ==> v !in avoid) && RangesAvoid(rs, avoid)
    ensures forall v :: v in ws ==> v !in avoid
  {
    AvoidingClosed(vs, avoid, rs);
    assert ws <= Avoiding(vs, avoid, rs);
  }

  // ----- the solver --------------------------------------------------------------------------

  /** Only the range of a variable eliminated earlier may mention a variable to solve for. */
  ghost predicate OrderedRanges(rs: Ranges, variables: seq<nat>) {
    forall u, j :: u in rs && 0 <= j < |variables| && variables[j] in RangeVars(rs[u]) ==> u in variables[..j]
  }

  /** Distinct variables, and ranges that depend on later variables and outer ones only. */
  ghost predicate WellFormed(sys: IntConstraints) {
    NoRepeats(sys.variables) && OrderedRanges(sys.ranges, sys.variables)
  }

  lemma {:induction false} OrderedAvoids(sys: IntConstraints, k: nat)
    requires WellFormed(sys) && k < |sys.variables|
    ensures RangesAvoid(sys.ranges, sys.variables[..k + 1])
    ensures sys.variables[k] in sys.ranges ==> RangeAvoids(sys.ranges[sys.variables[k]], sys.variables[..k + 1])
  {
    var vs := sys.variables;
    forall u, v | u in sys.ranges && (u !in vs[..k + 1] || u == vs[k]) && v in RangeVars(sys.ranges[u])
      ensures v !in vs[..k + 1]
    {}
  }

  /** The bounds found for the first k variables, in triangular form: those of variable j mention
      no variable up to j, and put it in range once the later ones are. */
  ghost predicate Triangular(variables: seq<nat>, k: nat, bounds: Solved, rs: Ranges)
    requires k <= |variables|
  {
    forall j :: 0 <= j < k ==> variables[j] in bounds && TriangularAt(bounds[variables[j]], variables, j, rs)
  }

  ghost predicate TriangularAt(b: GroupBounds, variables: seq<nat>, j: nat, rs: Ranges)
    requires j < |variables|
  {
    b.coef > 0 && BoundsAvoid(b, variables[..j + 1]) && ImpliesRange(b, variables[j], variables[..j + 1], rs)
  }

  /** Those of vs that no range mentions. */
  ghost function Unmentioned(vs: seq<nat>, rs: Ranges): (r: seq<nat>)
    ensures forall u :: u in r <==> u in vs && u !in AllRangeVars(rs)
  {
    if |vs| == 0 then [] else (if vs[0] in AllRangeVars(rs) then [] else [vs[0]]) + Unmentioned(vs[1..], rs)
  }

  /** Whatever the ranges depend on, the bounds of variable j mention, of the variables up to j, only
      those that ranges mention. */
  ghost predicate Confined(variables: seq<nat>, k: nat, bounds: Solved, rs: Ranges)
    requires k <= |variables|
  {
    forall j :: 0 <= j < k ==> variables[j] in bounds && ConfinedAt(bounds[variables[j]], variables, j, rs)
  }

  ghost predicate ConfinedAt(b: GroupBounds, variables: seq<nat>, j: nat, rs: Ranges)
    requires j < |variables|
  {
    b.coef > 0 && BoundsAvoid(b, Unmentioned(variables[..j + 1], rs))
  }

  /** The eliminated variables that stay away from the inequalities: all of them if the ranges are
      ordered, and otherwise those that no range mentions. */
  ghost function Gone(sys: IntConstraints, k: nat): seq<nat>
    requires k <= |sys.variables|
  {
    if OrderedRanges(sys.ranges, sys.variables) then sys.variables[..k] else Unmentioned(sys.variables[..k], sys.ranges)
  }

  lemma {:induction false} GoneAvoids(sys: IntConstraints, k: nat)
    requires NoRepeats(sys.variables) && k < |sys.variables|
    ensures RangesAvoid(sys.ranges, Gone(sys, k + 1))
    ensures sys.variables[k] in sys.ranges ==> RangeAvoids(sys.ranges[sys.variables[k]], Gone(sys, k + 1))
    ensures forall u :: u in Gone(sys, k + 1) ==> u in Gone(sys, k) + [sys.variables[k]]
  {
    assert sys.variables[..k + 1] == sys.variables[..k] + [sys.variables[k]];
    if OrderedRanges(sys.ranges, sys.variables) {
      OrderedAvoids(sys, k);
    } else {
      forall u | u in sys.ranges ensures RangeAvoids(sys.ranges[u], Gone(sys, k + 1)) {
        assert RangeVars(sys.ranges[u]) <= AllRangeVars(sys.ranges);
      }
    }
  }

  ghost predicate FirstBoundsHold(variables: seq<nat>, k: nat, bounds: Solved, env: Env)
    requires k <= |variables| && forall j :: 0 <= j < k ==> variables[j] in bounds
  {
    forall j :: 0 <= j < k ==> BoundsHold(bounds[variables[j]], Get(env, variables[j]), env)
  }

  /** On in-range valuations, the relations are what current, rest and the bounds so far say. */
  ghost predicate Reduced(sys: IntConstraints, k: nat, bounds: Solved, current: set<Expr>, rest: seq<Expr>)
    requires k <= |sys.variables| && forall j :: 0 <= j < k ==> sys.variables[j] in bounds
  {
    forall env: Env :: InAll(sys.ranges, env) ==>
      (AllHold(sys.relations, env) <==>
       SetHolds(current, env) && AllHold(rest, env) && FirstBoundsHold(sys.variables, k, bounds, env))
  }

  /** The relations, simplified and normalised. */
  method InitialInequalities(o: Oracle, sys: IntConstraints) returns (current: set<Expr>)
    requires Sound(o)
    ensures NormalSet(current)
    ensures forall env: Env :: InAll(sys.ranges, env) ==> (AllHold(sys.relations, env) <==> SetHolds(current, env))
  {
    current := {};
    for k := 0 to |sys.relations|
      invariant NormalSet(current)
      invariant forall env: Env :: InAll(sys.ranges, env) ==>
                  (AllHold(sys.relations[..k], env) <==> SetHolds(current, env))
    {
      var e := Normalize(o, o.simplify(sys.ranges, sys.relations[k]));
      NormalizeEval(o, o.simplify(sys.ranges, sys.relations[k]), map[]);
      var r := AddInequality(o, sys.ranges, current, e);
      forall env: Env | InAll(sys.ranges, env) ensures AllHold(sys.relations[..k + 1], env) <==> SetHolds(r, env) {
        RelationNormalized(o, sys, k, env);
      }
      current := r;
    }
    assert sys.relations[..|sys.relations|] == sys.relations;
  }

  lemma {:induction false} RelationNormalized(o: Oracle, sys: IntConstraints, k: nat, env: Env)
    requires Sound(o) && k < |sys.relations| && InAll(sys.ranges, env)
    ensures AllHold(sys.relations[..k + 1], env) <==>
            AllHold(sys.relations[..k], env) && Holds(Normalize(o, o.simplify(sys.ranges, sys.relations[k])), env)
  {
    var rel := sys.relations[k];
    assert sys.relations[..k + 1] == sys.relations[..k] + [rel];
    AllHoldAppend(sys.relations[..k], [rel], env);
    assert AllHold([rel], env) <==> Holds([rel][0], env);
    SimplifiedInAll(o.simplify, sys.ranges, rel, env);
    NormalizeEval(o, o.simplify(sys.ranges, rel), env);
  }

  /** What is left becomes a relation, unless it is plainly true; a plainly false one stands for
      all. */
  method LeftOver(o: Oracle, rs: Ranges, current: set<Expr>, rest: seq<Expr>) returns (other: seq<Expr>)
    requires Sound(o)
    ensures forall env: Env :: InAll(rs, env) ==>
              (AllHold(other, env) <==> SetHolds(current, env) && AllHold(rest, env))
    ensures forall e :: e in other ==> e in rest || e == IntImm(0) || exists f :: f in current && e == o.simplify(rs, f)
  {
    other := [];
    var todo := current;
    while todo != {}
      invariant todo <= current
      invariant forall env: Env :: InAll(rs, env) ==> (AllHold(other, env) <==> SetHolds(current - todo, env))
      invariant forall e :: e in other ==> exists f :: f in current && e == o.simplify(rs, f)
      decreases todo
    {
      var e :| e in todo;
      var simplified := o.simplify(rs, e);
      LeftOverStep(o, rs, current - todo, e, other);
      if simplified == IntImm(0) {
        other := [IntImm(0)];
        forall env: Env | InAll(rs, env) ensures !AllHold(other + rest, env) && !SetHolds(current, env) {
          SimplifiedInAll(o.simplify, rs, e, env);
          assert !Holds((other + rest)[0], env);
        }
        other := other + rest;
        return;
      } else if simplified != IntImm(1) {
        other := other + [simplified];
      }
      assert current - (todo - {e}) == (current - todo) + {e};
      todo := todo - {e};
    }
    assert current - todo == current;
    forall env: Env ensures AllHold(other + rest, env) <==> AllHold(other, env) && AllHold(rest, env) {
      AllHoldAppend(other, rest, env);
    }
    other := other + rest;
  }

  lemma {:induction false} LeftOverStep(o: Oracle, rs: Ranges, done: set<Expr>, e: Expr, other: seq<Expr>)
    requires Sound(o)
    requires forall env: Env :: InAll(rs, env) ==> (AllHold(other, env) <==> SetHolds(done, env))
    ensures forall env: Env :: InAll(rs, env) ==>
              (AllHold(other + [o.simplify(rs, e)], env) <==> SetHolds(done + {e}, env))
    ensures o.simplify(rs, e) == IntImm(1) ==>
              forall env: Env :: InAll(rs, env) ==> (AllHold(other, env) <==> SetHolds(done + {e}, env))
  {
    var f := o.simplify(rs, e);
    forall env: Env | InAll(rs, env)
      ensures AllHold(other + [f], env) <==> SetHolds(done + {e}, env)
      ensures f == IntImm(1) ==> (AllHold(other, env) <==> SetHolds(done + {e}, env))
    {
      SimplifiedInAll(o.simplify, rs, e, env);
      SetHoldsAdd(done, e, env);
      AllHoldAppend(other, [f], env);
      assert AllHold([f], env) <==> Holds([f][0], env);
    }
  }

  /** From the last variable back to the first, the bounds put every variable in its range. */
  lemma {:induction false} BoundsGiveRanges(variables: seq<nat>, k: nat, bounds: Solved, rs: Ranges, env: Env)
    requires k <= |variables| && Triangular(variables, |variables|, bounds, rs)
    requires FirstBoundsHold(variables, |variables|, bounds, env) && OthersInRange(variables[..k], rs, env)
    ensures InAll(rs, env)
    decreases k
  {
    if k == 0 {
      NoneLeft(variables[..k], rs, env);
    } else {
      var v := variables[k - 1];
      assert TriangularAt(bounds[v], variables, k - 1, rs) && BoundsHold(bounds[v], Get(env, v), env);
      OneMoreInRange(bounds[v], variables, k - 1, rs, env);
      BoundsGiveRanges(variables, k - 1, bounds, rs, env);
    }
  }

  lemma {:induction false} NoneLeft(vs: seq<nat>, rs: Ranges, env: Env)
    requires vs == [] && OthersInRange(vs, rs, env)
    ensures InAll(rs, env)
  {}

  lemma {:induction false} OneMoreInRange(b: GroupBounds, variables: seq<nat>, k: nat, rs: Ranges, env: Env)
    requires k < |variables| && ImpliesRange(b, variables[k], variables[..k + 1], rs)
    requires BoundsHold(b, Get(env, variables[k]), env) && OthersInRange(variables[..k + 1], rs, env)
    ensures OthersInRange(variables[..k], rs, env)
  {
    assert variables[..k + 1] == variables[..k] + [variables[k]];
  }

  /** Where all variables are in range, the relations hold exactly when all the conditions do. */
  ghost predicate SameInRange(sys: IntConstraints, bounds: Solved, other: seq<Expr>) {
    && (forall i :: 0 <= i < |sys.variables| ==> sys.variables[i] in bounds && bounds[sys.variables[i]].coef > 0)
    && forall env: Env :: InAll(sys.ranges, env) ==>
         (AllHold(sys.relations, env) <==> AllHold(AsConditions(sys.variables, bounds, other), env))
  }

  /** Nothing is lost: where the outer variables are in range, the system holds exactly when all
      the conditions do. */
  ghost predicate Lossless(sys: IntConstraints, bounds: Solved, other: seq<Expr>) {
    && (forall i :: 0 <= i < |sys.variables| ==> sys.variables[i] in bounds)
    && forall env: Env :: OthersInRange(sys.variables, sys.ranges, env) ==>
         (Satisfies(sys, env) <==> AllHold(AsConditions(sys.variables, bounds, other), env))
  }

  lemma {:induction false} ConditionsInRange(sys: IntConstraints, bounds: Solved, current: set<Expr>, rest: seq<Expr>,
      other: seq<Expr>)
    requires forall i :: 0 <= i < |sys.variables| ==> sys.variables[i] in bounds && bounds[sys.variables[i]].coef > 0
    requires Reduced(sys, |sys.variables|, bounds, current, rest)
    requires forall env: Env :: InAll(sys.ranges, env) ==>
               (AllHold(other, env) <==> SetHolds(current, env) && AllHold(rest, env))
    ensures SameInRange(sys, bounds, other)
  {
    forall env: Env | InAll(sys.ranges, env)
      ensures AllHold(sys.relations, env) <==> AllHold(AsConditions(sys.variables, bounds, other), env)
    {
      AsConditionsHold(sys.variables, bounds, other, env);
    }
  }

  lemma {:induction false} NothingLost(sys: IntConstraints, bounds: Solved, other: seq<Expr>)
    requires Triangular(sys.variables, |sys.variables|, bounds, sys.ranges) && SameInRange(sys, bounds, other)
    ensures Lossless(sys, bounds, other)
  {
    var n := |sys.variables|;
    forall env: Env | OthersInRange(sys.variables, sys.ranges, env)
      ensures Satisfies(sys, env) <==> AllHold(AsConditions(sys.variables, bounds, other), env)
    {
      AsConditionsHold(sys.variables, bounds, other, env);
      if FirstBoundsHold(sys.variables, n, bounds, env) {
        assert sys.variables[..n] == sys.variables;
        BoundsGiveRanges(sys.variables, n, bounds, sys.ranges, env);
      }
      assert InAll(sys.ranges, env) <==> InRanges(sys.ranges.Keys, sys.ranges, env);
    }
  }

  /** Eliminates one variable after another. */
  method EliminateAll(o: Oracle, sys: IntConstraints) returns (bounds: Solved, current: set<Expr>, rest: seq<Expr>)
    requires Sound(o) && NoRepeats(sys.variables)
    ensures Progress(sys, |sys.variables|, bounds, current, rest) && AllUnsplit(o, sys.variables, rest)
  {
    current := InitialInequalities(o, sys);
    rest := [];
    bounds := map[];
    for k := 0 to |sys.variables|
      invariant Progress(sys, k, bounds, current, rest) && AllUnsplit(o, sys.variables[..k], rest)
    {
      var v := sys.variables[k];
      GoneAvoids(sys, k);
      var b, next, more := SolveVariable(o, sys.ranges, v, current, Gone(sys, k), Gone(sys, k + 1));
      ProgressStep(sys, k, bounds, current, next, rest, more, b);
      UnsplitStep(o, sys.variables, k, rest, more);
      bounds := bounds[v := b];
      rest := rest + more;
      current := next;
    }
    assert sys.variables[..|sys.variables|] == sys.variables;
  }

  /** In range, the bounds and the other relations say exactly what the relations say; for ordered
      ranges they say exactly what the system says. The bounds of a variable leave room for it where
      those of the later ones hold, and only what cannot be solved stays a relation. */
  ghost predicate SolvedSystem(o: Oracle, sys: IntConstraints, bounds: Solved, other: seq<Expr>) {
    && SameInRange(sys, bounds, other) && Confined(sys.variables, |sys.variables|, bounds, sys.ranges)
    && LaterMeet(sys, bounds, other) && (forall e :: e in other ==> Unsolved(o, sys, e))
    && (OrderedRanges(sys.ranges, sys.variables) ==>
          Lossless(sys, bounds, other) && Triangular(sys.variables, |sys.variables|, bounds, sys.ranges))
  }

  /** SolveLinearInequalities: eliminates the variables in turn. */
  method SolveLinearInequalities(o: Oracle, sys: IntConstraints) returns (bounds: Solved, other: seq<Expr>)
    requires Sound(o) && NoRepeats(sys.variables)
    ensures SolvedSystem(o, sys, bounds, other)
  {
    var current, rest;
    bounds, current, rest := EliminateAll(o, sys);
    other := LeftOver(o, sys.ranges, current, rest);
    ConditionsInRange(sys, bounds, current, rest, other);
    MeetDone(sys, bounds, current, rest, other);
    forall e | e in other ensures Unsolved(o, sys, e) { LeftUnsolved(o, sys, current, rest, e); }
    if OrderedRanges(sys.ranges, sys.variables) { NothingLost(sys, bounds, other); }
  }

  /** No linear part of e at one of the variables is found. */
  ghost predicate Unsplit(o: Oracle, variables: seq<nat>, e: Expr) {
    exists v :: v in variables && Classify(o, e, v).Unclassified?
  }

  ghost predicate AllUnsplit(o: Oracle, variables: seq<nat>, rest: seq<Expr>) {
    forall e :: e in rest ==> Unsplit(o, variables, e)
  }

  lemma {:induction false} UnsplitStep(o: Oracle, variables: seq<nat>, k: nat, rest: seq<Expr>, more: seq<Expr>)
    requires k < |variables| && AllUnsplit(o, variables[..k], rest)
    requires forall e :: e in more ==> Classify(o, e, variables[k]).Unclassified?
    ensures AllUnsplit(o, variables[..k + 1], rest + more)
  {
    assert variables[..k + 1] == variables[..k] + [variables[k]];
    forall e | e in rest + more ensures Unsplit(o, variables[..k + 1], e) {
      if e in rest {
        var v :| v in variables[..k] && Classify(o, e, v).Unclassified?;
        assert v in variables[..k + 1];
      } else {
        assert variables[k] in variables[..k + 1];
      }
    }
  }

  /** What stays a relation: it could not be split at one of the variables, or speaks of none that is
      gone. */
  ghost predicate Unsolved(o: Oracle, sys: IntConstraints, e: Expr) {
    Unsplit(o, sys.variables, e) || forall u :: u in Gone(sys, |sys.variables|) ==> u !in FreeVars(e)
  }

  lemma {:induction false} LeftUnsolved(o: Oracle, sys: IntConstraints, current: set<Expr>, rest: seq<Expr>, e: Expr)
    requires Sound(o) && NoRepeats(sys.variables) && Avoids(current, Gone(sys, |sys.variables|))
    requires AllUnsplit(o, sys.variables, rest)
    requires e in rest || e == IntImm(0) || exists f :: f in current && e == o.simplify(sys.ranges, f)
    ensures Unsolved(o, sys, e)
  {
    var n := |sys.variables|;
    if e !in rest && e != IntImm(0) {
      var f :| f in current && e == o.simplify(sys.ranges, f);
      SimplifiedVars(o.simplify, sys.ranges, f);
      if n > 0 {
        GoneAvoids(sys, n - 1);
        ReachedAvoids(FreeVars(e), FreeVars(f), Gone(sys, n), sys.ranges);
      } else {
        assert Gone(sys, n) == [];
      }
    }
  }

  /** The bounds of the variables from j to k hold. */
  ghost predicate BoundsHoldFrom(variables: seq<nat>, j: nat, k: nat, bounds: Solved, env: Env)
    requires k <= |variables| && forall i :: 0 <= i < k ==> variables[i] in bounds
  {
    forall i :: j <= i < k ==> BoundsHold(bounds[variables[i]], Get(env, variables[i]), env)
  }

  /** Where the ranges hold, and what is left, and the bounds of the later variables eliminated, the
      bounds of variable j leave room for it: no lower one is above an upper one. */
  ghost predicate MeetsAt(sys: IntConstraints, j: nat, k: nat, bounds: Solved, current: set<Expr>, rest: seq<Expr>,
      env: Env)
    requires j < k <= |sys.variables| && forall i :: 0 <= i < k ==> sys.variables[i] in bounds
  {
    InAll(sys.ranges, env) && SetHolds(current, env) && AllHold(rest, env) &&
    BoundsHoldFrom(sys.variables, j + 1, k, bounds, env) ==>
      BoundsMeet(bounds[sys.variables[j]], env)
  }

  ghost predicate MeetSoFar(sys: IntConstraints, k: nat, bounds: Solved, current: set<Expr>, rest: seq<Expr>)
    requires k <= |sys.variables| && forall i :: 0 <= i < k ==> sys.variables[i] in bounds
  {
    forall env: Env, j :: 0 <= j < k ==> MeetsAt(sys, j, k, bounds, current, rest, env)
  }

  lemma {:induction false} MeetStep(sys: IntConstraints, k: nat, bounds: Solved, current: set<Expr>, next: set<Expr>,
      rest: seq<Expr>, more: seq<Expr>, b: GroupBounds)
    requires k < |sys.variables| && NoRepeats(sys.variables)
    requires forall j :: 0 <= j < k ==> sys.variables[j] in bounds
    requires MeetSoFar(sys, k, bounds, current, rest)
    requires Eliminates(current, next, more, b, sys.variables[k], sys.ranges)
    requires forall env: Env :: InAll(sys.ranges, env) && SetHolds(next, env) ==> BoundsMeet(b, env)
    ensures MeetSoFar(sys, k + 1, bounds[sys.variables[k] := b], next, rest + more)
  {
    var bounds' := bounds[sys.variables[k] := b];
    assert forall j :: 0 <= j < k ==> bounds'[sys.variables[j]] == bounds[sys.variables[j]];
    var n, rest' := k + 1, rest + more;
    forall env: Env, j | 0 <= j < n ensures MeetsAt(sys, j, n, bounds', next, rest', env) {
      AllHoldAppend(rest, more, env);
      if j < k {
        assert MeetsAt(sys, j, k, bounds, current, rest, env);
        LaterBounds(sys, j, k, bounds, b, env);
      }
    }
  }

  lemma {:induction false} LaterBounds(sys: IntConstraints, j: nat, k: nat, bounds: Solved, b: GroupBounds, env: Env)
    requires j < k < |sys.variables| && NoRepeats(sys.variables)
    requires forall i :: 0 <= i < k ==> sys.variables[i] in bounds
    ensures BoundsHoldFrom(sys.variables, j + 1, k + 1, bounds[sys.variables[k] := b], env) <==>
            BoundsHoldFrom(sys.variables, j + 1, k, bounds, env) && BoundsHold(b, Get(env, sys.variables[k]), env)
  {
    var bounds' := bounds[sys.variables[k] := b];
    assert forall i :: 0 <= i < k ==> bounds'[sys.variables[i]] == bounds[sys.variables[i]];
  }

  /** The same of the result: where the ranges and the other relations hold, and the bounds of the
      variables after it, every lower bound of a variable is at most every upper bound. */
  ghost predicate LaterMeet(sys: IntConstraints, bounds: Solved, other: seq<Expr>) {
    && (forall i :: 0 <= i < |sys.variables| ==> sys.variables[i] in bounds)
    && forall env: Env, j :: 0 <= j < |sys.variables| ==> LaterMeetAt(sys, bounds, other, j, env)
  }

  ghost predicate LaterMeetAt(sys: IntConstraints, bounds: Solved, other: seq<Expr>, j: nat, env: Env)
    requires j < |sys.variables| && forall i :: 0 <= i < |sys.variables| ==> sys.variables[i] in bounds
  {
    InAll(sys.ranges, env) && AllHold(other, env) &&
    BoundsHoldFrom(sys.variables, j + 1, |sys.variables|, bounds, env) ==>
      BoundsMeet(bounds[sys.variables[j]], env)
  }

  lemma {:induction false} MeetDone(sys: IntConstraints, bounds: Solved, current: set<Expr>, rest: seq<Expr>,
      other: seq<Expr>)
    requires forall i :: 0 <= i < |sys.variables| ==> sys.variables[i] in bounds
    requires MeetSoFar(sys, |sys.variables|, bounds, current, rest)
    requires forall env: Env :: InAll(sys.ranges, env) ==>
               (AllHold(other, env) <==> SetHolds(current, env) && AllHold(rest, env))
    ensures LaterMeet(sys, bounds, other)
  {
    var n := |sys.variables|;
    forall env: Env, j | 0 <= j < n ensures LaterMeetAt(sys, bounds, other, j, env) {
      assert MeetsAt(sys, j, n, bounds, current, rest, env);
    }
  }

  /** What eliminating one variable after another keeps. */
  ghost predicate Progress(sys: IntConstraints, k: nat, bounds: Solved, current: set<Expr>, rest: seq<Expr>)
    requires k <= |sys.variables|
  {
    && NormalSet(current) && Avoids(current, Gone(sys, k))
    && Confined(sys.variables, k, bounds, sys.ranges)
    && (OrderedRanges(sys.ranges, sys.variables) ==> Triangular(sys.variables, k, bounds, sys.ranges))
    && Reduced(sys, k, bounds, current, rest) && MeetSoFar(sys, k, bounds, current, rest)
  }

  lemma {:induction false} ProgressStep(sys: IntConstraints, k: nat, bounds: Solved, current: set<Expr>,
      next: set<Expr>, rest: seq<Expr>, more: seq<Expr>, b: GroupBounds)
    requires k < |sys.variables| && NoRepeats(sys.variables) && Progress(sys, k, bounds, current, rest)
    requires b.coef > 0 && BoundsAvoid(b, Gone(sys, k + 1)) && NormalSet(next) && Avoids(next, Gone(sys, k + 1))
    requires Eliminates(current, next, more, b, sys.variables[k], sys.ranges)
    requires ImpliesRange(b, sys.variables[k], Gone(sys, k + 1), sys.ranges)
    requires forall env: Env :: InAll(sys.ranges, env) && SetHolds(next, env) ==> BoundsMeet(b, env)
    ensures Progress(sys, k + 1, bounds[sys.variables[k] := b], next, rest + more)
  {
    ReducedStep(sys, k, bounds, current, next, rest, more, b);
    MeetStep(sys, k, bounds, current, next, rest, more, b);
    GoneConfined(sys, k, b);
    ConfinedStep(sys, k, bounds, b);
    if OrderedRanges(sys.ranges, sys.variables) { TriangularStep(sys, k, bounds, b); }
  }

  lemma {:induction false} GoneConfined(sys: IntConstraints, k: nat, b: GroupBounds)
    requires k < |sys.variables| && b.coef > 0 && BoundsAvoid(b, Gone(sys, k + 1))
    ensures ConfinedAt(b, sys.variables, k, sys.ranges)
  {}

  lemma {:induction false} ConfinedStep(sys: IntConstraints, k: nat, bounds: Solved, b: GroupBounds)
    requires k < |sys.variables| && NoRepeats(sys.variables) && Confined(sys.variables, k, bounds, sys.ranges)
    requires ConfinedAt(b, sys.variables, k, sys.ranges)
    ensures Confined(sys.variables, k + 1, bounds[sys.variables[k] := b], sys.ranges)
  {
    var bounds' := bounds[sys.variables[k] := b];
    forall j | 0 <= j < k + 1
      ensures sys.variables[j] in bounds' && ConfinedAt(bounds'[sys.variables[j]], sys.variables, j, sys.ranges)
    {
      if j < k { assert bounds'[sys.variables[j]] == bounds[sys.variables[j]]; }
    }
  }

  lemma {:induction false} TriangularStep(sys: IntConstraints, k: nat, bounds: Solved, b: GroupBounds)
    requires k < |sys.variables| && NoRepeats(sys.variables) && Triangular(sys.variables, k, bounds, sys.ranges)
    requires b.coef > 0 && BoundsAvoid(b, sys.variables[..k + 1])
    requires ImpliesRange(b, sys.variables[k], sys.variables[..k + 1], sys.ranges)
    ensures Triangular(sys.variables, k + 1, bounds[sys.variables[k] := b], sys.ranges)
  {
    var bounds' := bounds[sys.variables[k] := b];
    assert forall j :: 0 <= j < k ==> bounds'[sys.variables[j]] == bounds[sys.variables[j]];
  }

  lemma {:induction false} ReducedStep(sys: IntConstraints, k: nat, bounds: Solved, current: set<Expr>, next: set<Expr>,
      rest: seq<Expr>, more: seq<Expr>, b: GroupBounds)
    requires k < |sys.variables| && NoRepeats(sys.variables)
    requires forall j :: 0 <= j < k ==> sys.variables[j] in bounds
    requires Reduced(sys, k, bounds, current, rest)
    requires Eliminates(current, next, more, b, sys.variables[k], sys.ranges)
    ensures Reduced(sys, k + 1, bounds[sys.variables[k] := b], next, rest + more)
  {
    var v := sys.variables[k];
    var bounds' := bounds[v := b];
    assert forall j :: 0 <= j < k ==> bounds'[sys.variables[j]] == bounds[sys.variables[j]];
    forall env: Env | InAll(sys.ranges, env)
      ensures AllHold(sys.relations, env) <==>
              (SetHolds(next, env) && AllHold(rest + more, env) && FirstBoundsHold(sys.variables, k + 1, bounds', env))
    {
      AllHoldAppend(rest, more, env);
      assert FirstBoundsHold(sys.variables, k + 1, bounds', env) <==>
             FirstBoundsHold(sys.variables, k, bounds, env) && BoundsHold(b, Get(env, v), env);
    }
  }
}
