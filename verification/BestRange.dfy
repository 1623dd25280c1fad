/** Bounds of one variable as a range (IntGroupBounds in src/arith/int_constraints.cc). */
module BestRange {
  import opened IntOperator
  import opened PrimExprs
  import opened Wrappers
  import opened IntConstraintSystems
  import opened SolveLinearInequality

  /** The analyzer under bound ranges, and the upper end of an interval evaluation. */
  datatype RangeOracle = RangeOracle(
    simplify: Simplifier,
    prove: (Ranges, Expr) -> bool,
    maximum: (Ranges, Expr) -> Expr)

  /** The maximum is an upper bound on in-range valuations, and mentions only variables of the
      expression or of the ranges. */
  ghost predicate MaximumSound(maximum: (Ranges, Expr) -> Expr) {
    forall rs: Ranges, e: Expr ::
      FreeVars(maximum(rs, e)) <= FreeVars(e) + AllRangeVars(rs) &&
      forall env: Env :: InAll(rs, env) ==> Eval(e, env) <= Eval(maximum(rs, e), env)
  }

  ghost predicate RangeOracleSound(o: RangeOracle) {
    SimplifierSound(o.simplify) && ProverSound(o.prove) && MaximumSound(o.maximum)
  }

  /** There are sound oracles: an expression is its own upper bound. */
  lemma {:induction false} SoundRangeOracleExists()
    ensures RangeOracleSound(RangeOracle((_, e) => e, (_, _) => false, (_, e) => e))
  {}

  // ----- adding a range to the bounds --------------------------------------------------------

  /** operator+: the bounds and the range, for the scaled variable. */
  function WithRange(simplify: Simplifier, b: GroupBounds, r: Range): GroupBounds {
    if r.extent == IntImm(1) then
      b.(equal := [ScaledLow(simplify, b.coef, r)] + b.equal)
    else
      b.(lower := [ScaledLow(simplify, b.coef, r)] + b.lower, upper := [ScaledHigh(simplify, b.coef, r)] + b.upper)
  }

  lemma {:induction false} MulOrder(c: int, x: int, y: int)
    requires c > 0
    ensures c * x <= y * c <==> x <= y
    ensures c * x >= y * c <==> x >= y
  {
    if x < y {
      MulLe(x + 1, y, c);
      Distribute(x, 1, c);
    } else {
      MulLe(y, x, c);
      if y < x {
        MulLe(y + 1, x, c);
        Distribute(y, 1, c);
      }
    }
  }

  lemma {:induction false} PrependHolds(c: int, x: int, e: Expr, es: seq<Expr>, env: Env)
    ensures (forall i :: 0 <= i < |[e] + es| ==> c * x == Eval(([e] + es)[i], env)) <==>
            c * x == Eval(e, env) && forall i :: 0 <= i < |es| ==> c * x == Eval(es[i], env)
    ensures (forall i :: 0 <= i < |[e] + es| ==> c * x >= Eval(([e] + es)[i], env)) <==>
            c * x >= Eval(e, env) && forall i :: 0 <= i < |es| ==> c * x >= Eval(es[i], env)
    ensures (forall i :: 0 <= i < |[e] + es| ==> c * x <= Eval(([e] + es)[i], env)) <==>
            c * x <= Eval(e, env) && forall i :: 0 <= i < |es| ==> c * x <= Eval(es[i], env)
  {
    var all := [e] + es;
    assert all[0] == e && forall i :: 0 <= i < |es| ==> all[i + 1] == es[i];
  }

  /** The ends of the range as bounds of the scaled variable. */
  function ScaledLow(simplify: Simplifier, c: int, r: Range): Expr {
    simplify(map[], Bin(Mul, r.min, IntImm(c)))
  }

  function ScaledHigh(simplify: Simplifier, c: int, r: Range): Expr {
    simplify(map[], Bin(Mul, Bin(Sub, Bin(Add, r.min, r.extent), IntImm(1)), IntImm(c)))
  }

  lemma {:induction false} ScaledEnds(simplify: Simplifier, c: int, r: Range, x: int, env: Env)
    requires SimplifierSound(simplify) && c > 0
    ensures c * x >= Eval(ScaledLow(simplify, c, r), env) <==> x >= Eval(r.min, env)
    ensures c * x <= Eval(ScaledLow(simplify, c, r), env) <==> x <= Eval(r.min, env)
    ensures c * x <= Eval(ScaledHigh(simplify, c, r), env) <==> x < Eval(r.min, env) + Eval(r.extent, env)
  {
    var lo := Bin(Mul, r.min, IntImm(c));
    var last := Bin(Sub, Bin(Add, r.min, r.extent), IntImm(1));
    var hi := Bin(Mul, last, IntImm(c));
    SimplifiedInAll(simplify, map[], lo, env);
    SimplifiedInAll(simplify, map[], hi, env);
    LastEval(r, env);
    assert Eval(lo, env) == Eval(r.min, env) * c && Eval(hi, env) == Eval(last, env) * c;
    MulOrder(c, x, Eval(r.min, env));
    MulOrder(c, x, Eval(last, env));
  }

  /** The sum holds exactly when the bounds do and the variable is in the range. */
  lemma {:induction false} WithRangeExact(simplify: Simplifier, b: GroupBounds, r: Range, x: int, env: Env)
    requires SimplifierSound(simplify) && b.coef > 0
    ensures BoundsHold(WithRange(simplify, b, r), x, env) <==> BoundsHold(b, x, env) && InRange(r, x, env)
  {
    var lo, hi := ScaledLow(simplify, b.coef, r), ScaledHigh(simplify, b.coef, r);
    ScaledEnds(simplify, b.coef, r, x, env);
    PrependHolds(b.coef, x, lo, b.equal, env);
    PrependHolds(b.coef, x, lo, b.lower, env);
    PrependHolds(b.coef, x, hi, b.upper, env);
  }

  lemma {:induction false} LastEval(r: Range, env: Env)
    ensures Eval(Bin(Sub, Bin(Add, r.min, r.extent), IntImm(1)), env) == Eval(r.min, env) + Eval(r.extent, env) - 1
  {
    assert Eval(Bin(Add, r.min, r.extent), env) == Eval(r.min, env) + Eval(r.extent, env);
  }

  // ----- the best pair of bounds -------------------------------------------------------------

  function BoundsVars(b: GroupBounds): (r: set<nat>)
    ensures forall e :: e in b.equal || e in b.lower || e in b.upper ==> FreeVars(e) <= r
  {
    VarsOf(b.equal) + VarsOf(b.lower) + VarsOf(b.upper)
  }

  /** Wherever the ranges hold, a value within the bounds is in the range. */
  ghost predicate Encloses(r: Range, b: GroupBounds, rs: Ranges) {
    forall env: Env, x: int :: InAll(rs, env) && BoundsHold(b, x, env) ==> InRange(r, x, env)
  }

  /** A range from its two ends. */
  function FromEnds(begin: Expr, end: Expr): Range {
    Range(begin, if begin == IntImm(0) then end else Minus(end, begin))
  }

  lemma {:induction false} FromEndsInRange(begin: Expr, end: Expr, x: int, env: Env)
    ensures InRange(FromEnds(begin, end), x, env) <==> Eval(begin, env) <= x < Eval(end, env)
    ensures RangeVars(FromEnds(begin, end)) <= FreeVars(begin) + FreeVars(end)
  {}

  function CeilDiv(low: Expr, c: int): Expr {
    Bin(FloorDivOp, Bin(Sub, Bin(Add, low, IntImm(c)), IntImm(1)), IntImm(c))
  }

  lemma {:induction false} FloorDivBounds(a: int, c: int)
    requires c > 0
    ensures FloorDiv(a, c) * c <= a < FloorDiv(a, c) * c + c
  {
    FloorModBound(a, c);
  }

  /** The rounded-up lower bound is below x, and either difference covers the rest. */
  lemma {:induction false} PairEncloses(c: int, low: int, upp: int, x: int)
    requires c > 0 && low <= c * x <= upp
    ensures FloorDiv(low + c - 1, c) <= x
    ensures x - FloorDiv(low + c - 1, c) <= FloorDiv(upp - low, c)
    ensures x <= FloorDiv(upp, c)
  {
    var q, d, u := FloorDiv(low + c - 1, c), FloorDiv(upp - low, c), FloorDiv(upp, c);
    FloorDivBounds(low + c - 1, c);
    FloorDivBounds(upp - low, c);
    FloorDivBounds(upp, c);
    LessByMargin(c, q, x, c - 1);
    LessByMargin(c, x, u, c - 1);
    Distribute(x, q, c);
    LessByMargin(c, x - q, d, c - 1);
  }

  lemma {:induction false} LessByMargin(c: int, a: int, b: int, r: int)
    requires c > 0 && r < c && a * c <= b * c + r
    ensures a <= b
  {
    if a > b {
      MulLe(b + 1, a, c);
      Distribute(b, 1, c);
    }
  }

  /** Expressions for one pair of bounds: the lower end, and the over-approximated width. */
  function LowDivided(o: RangeOracle, rs: Ranges, c: int, low: Expr): Expr {
    o.simplify(rs, CeilDiv(low, c))
  }

  function Width1(c: int, low: Expr, upp: Expr): Expr { Bin(FloorDivOp, Bin(Sub, upp, low), IntImm(c)) }

  function Width2(o: RangeOracle, rs: Ranges, c: int, low: Expr, upp: Expr): Expr {
    Bin(Sub, Bin(FloorDivOp, upp, IntImm(c)), LowDivided(o, rs, c, low))
  }

  function Over(o: RangeOracle, rs: Ranges, width: Expr): Expr {
    o.simplify(rs, o.maximum(rs, o.simplify(rs, width)))
  }

  function WidthOver(o: RangeOracle, rs: Ranges, c: int, low: Expr, upp: Expr): Expr {
    var over1, over2 := Over(o, rs, Width1(c, low, upp)), Over(o, rs, Width2(o, rs, c, low, upp));
    if o.prove(rs, Bin(LT, Bin(Sub, over2, over1), IntImm(0))) then over2 else over1
  }

  lemma {:induction false} OverSound(o: RangeOracle, rs: Ranges, width: Expr, env: Env)
    requires RangeOracleSound(o) && InAll(rs, env)
    ensures Eval(width, env) <= Eval(Over(o, rs, width), env)
  {
    SimplifiedInAll(o.simplify, rs, width, env);
    var m := o.maximum(rs, o.simplify(rs, width));
    assert Eval(o.simplify(rs, width), env) <= Eval(m, env);
    SimplifiedInAll(o.simplify, rs, m, env);
  }

  lemma {:induction false} OverVars(o: RangeOracle, rs: Ranges, width: Expr)
    requires RangeOracleSound(o)
    ensures FreeVars(Over(o, rs, width)) <= FreeVars(width) + AllRangeVars(rs)
  {
    var m := o.maximum(rs, o.simplify(rs, width));
    SimplifiedVars(o.simplify, rs, width);
    assert FreeVars(m) <= FreeVars(o.simplify(rs, width)) + AllRangeVars(rs);
    SimplifiedVars(o.simplify, rs, m);
  }

  lemma {:induction false} LowDividedEval(o: RangeOracle, rs: Ranges, c: int, low: Expr, env: Env)
    requires RangeOracleSound(o) && InAll(rs, env) && c > 0
    ensures Eval(LowDivided(o, rs, c, low), env) == FloorDiv(Eval(low, env) + c - 1, c)
  {
    SimplifiedInAll(o.simplify, rs, CeilDiv(low, c), env);
    assert Eval(Bin(Add, low, IntImm(c)), env) == Eval(low, env) + c;
    assert Eval(Bin(Sub, Bin(Add, low, IntImm(c)), IntImm(1)), env) == Eval(low, env) + c - 1;
  }

  lemma {:induction false} PairWidth(o: RangeOracle, rs: Ranges, c: int, low: Expr, upp: Expr, x: int, env: Env)
    requires RangeOracleSound(o) && InAll(rs, env) && c > 0
    requires Eval(low, env) <= c * x <= Eval(upp, env)
    ensures Eval(LowDivided(o, rs, c, low), env) <= x
    ensures x - Eval(LowDivided(o, rs, c, low), env) <= Eval(WidthOver(o, rs, c, low, upp), env)
  {
    PairEncloses(c, Eval(low, env), Eval(upp, env), x);
    LowDividedEval(o, rs, c, low, env);
    OverSound(o, rs, Width1(c, low, upp), env);
    OverSound(o, rs, Width2(o, rs, c, low, upp), env);
    assert Eval(Bin(Sub, upp, low), env) == Eval(upp, env) - Eval(low, env);
    assert Eval(Width1(c, low, upp), env) == FloorDiv(Eval(upp, env) - Eval(low, env), c);
    assert Eval(Bin(FloorDivOp, upp, IntImm(c)), env) == FloorDiv(Eval(upp, env), c);
  }

  lemma {:induction false} PairVars(o: RangeOracle, rs: Ranges, c: int, low: Expr, upp: Expr)
    requires RangeOracleSound(o)
    ensures FreeVars(LowDivided(o, rs, c, low)) <= FreeVars(low) + AllRangeVars(rs)
    ensures FreeVars(WidthOver(o, rs, c, low, upp)) <= FreeVars(low) + FreeVars(upp) + AllRangeVars(rs)
  {
    var none := FreeVars(IntImm(c));
    assert none == {} && FreeVars(IntImm(1)) == {};
    assert FreeVars(Bin(Add, low, IntImm(c))) == FreeVars(low) + none;
    assert FreeVars(Bin(Sub, Bin(Add, low, IntImm(c)), IntImm(1))) == FreeVars(low);
    assert FreeVars(CeilDiv(low, c)) == FreeVars(low) + none;
    SimplifiedVars(o.simplify, rs, CeilDiv(low, c));
    OverVars(o, rs, Width1(c, low, upp));
    OverVars(o, rs, Width2(o, rs, c, low, upp));
    assert FreeVars(Bin(Sub, upp, low)) == FreeVars(upp) + FreeVars(low);
    assert FreeVars(Width1(c, low, upp)) == FreeVars(Bin(Sub, upp, low)) + none;
    assert FreeVars(Bin(FloorDivOp, upp, IntImm(c))) == FreeVars(upp) + none;
    assert FreeVars(Width2(o, rs, c, low, upp)) == FreeVars(upp) + none + FreeVars(LowDivided(o, rs, c, low));
  }

  /** What one pair of bounds gives. */
  function PairRange(o: RangeOracle, rs: Ranges, c: int, low: Expr, upp: Expr): (Expr, Expr) {
    (LowDivided(o, rs, c, low), WidthOver(o, rs, c, low, upp))
  }

  function Lowers(b: GroupBounds): seq<Expr> { b.equal + b.lower }
  function Uppers(b: GroupBounds): seq<Expr> { b.equal + b.upper }

  predicate IsPair(b: GroupBounds, i: nat, j: nat) { i < |Lowers(b)| && j < |Uppers(b)| }

  function WidthAt(o: RangeOracle, rs: Ranges, b: GroupBounds, i: nat, j: nat): Expr
    requires IsPair(b, i, j)
  {
    WidthOver(o, rs, b.coef, Lowers(b)[i], Uppers(b)[j])
  }

  /** The range of one pair of bounds. */
  function RangeAt(o: RangeOracle, rs: Ranges, b: GroupBounds, i: nat, j: nat): Range
    requires IsPair(b, i, j)
  {
    Range(LowDivided(o, rs, b.coef, Lowers(b)[i]), o.simplify(rs, Bin(Add, WidthAt(o, rs, b, i, j), IntImm(1))))
  }

  /** The prover decides which of two literals is less. */
  ghost predicate DecidesLiterals(prove: (Ranges, Expr) -> bool) {
    forall rs, m, n :: prove(rs, Bin(LT, Bin(Sub, IntImm(m), IntImm(n)), IntImm(0))) <==> m < n
  }

  ghost predicate LiteralWidths(o: RangeOracle, rs: Ranges, b: GroupBounds) {
    DecidesLiterals(o.prove) && forall i: nat, j: nat :: IsPair(b, i, j) ==> WidthAt(o, rs, b, i, j).IntImm?
  }

  /** The order in which the pairs are tried. */
  predicate Earlier(i: nat, j: nat, k: nat, l: nat) { i < k || (i == k && j < l) }

  /** The pair at i and j is no wider than any tried before k and l, and is the first of its width. */
  ghost predicate NarrowestUntil(o: RangeOracle, rs: Ranges, b: GroupBounds, i: nat, j: nat, k: nat, l: nat)
    requires IsPair(b, i, j)
  {
    LiteralWidths(o, rs, b) ==>
      forall p: nat, q: nat :: IsPair(b, p, q) && Earlier(p, q, k, l) ==>
        && WidthAt(o, rs, b, i, j).value <= WidthAt(o, rs, b, p, q).value
        && (Earlier(p, q, i, j) ==> WidthAt(o, rs, b, i, j).value < WidthAt(o, rs, b, p, q).value)
  }

  /** The range is that of the first pair of least width. */
  ghost predicate Narrowest(o: RangeOracle, rs: Ranges, b: GroupBounds, r: Range, i: nat, j: nat) {
    IsPair(b, i, j) && r == RangeAt(o, rs, b, i, j) && NarrowestUntil(o, rs, b, i, j, |Lowers(b)|, 0)
  }

  lemma {:induction false} NextPair(o: RangeOracle, rs: Ranges, b: GroupBounds, i: nat, j: nat, k: nat, l: nat)
    requires IsPair(b, i, j) && IsPair(b, k, l) && Earlier(i, j, k, l) && NarrowestUntil(o, rs, b, i, j, k, l)
    ensures var better := o.prove(rs, Bin(LT, Bin(Sub, WidthAt(o, rs, b, k, l), WidthAt(o, rs, b, i, j)), IntImm(0)));
            if better then NarrowestUntil(o, rs, b, k, l, k, l + 1) else NarrowestUntil(o, rs, b, i, j, k, l + 1)
  {
    if LiteralWidths(o, rs, b) {
      var best, next := WidthAt(o, rs, b, i, j), WidthAt(o, rs, b, k, l);
      assert best == IntImm(best.value) && next == IntImm(next.value);
    }
  }

  /** One bound on each side, and no coefficient. */
  predicate Single(b: GroupBounds) { |Lowers(b)| == 1 && |Uppers(b)| == 1 && b.coef == 1 }

  /** Wherever the ranges hold, the values within the bounds are those of the range. */
  ghost predicate SameAs(r: Range, b: GroupBounds, rs: Ranges) {
    forall env: Env, x: int :: InAll(rs, env) ==> (BoundsHold(b, x, env) <==> InRange(r, x, env))
  }

  /** best is the pair at i and j, the narrowest of those before k and l. */
  ghost predicate BestUntil(o: RangeOracle, rs: Ranges, b: GroupBounds, best: (Expr, Expr), i: nat, j: nat, k: nat,
                            l: nat)
  {
    && IsPair(b, i, j) && Earlier(i, j, k, l) && best == PairRange(o, rs, b.coef, Lowers(b)[i], Uppers(b)[j])
    && NarrowestUntil(o, rs, b, i, j, k, l)
  }

  /** All pairs of bounds are tried. */
  method TryPairs(o: RangeOracle, rs: Ranges, b: GroupBounds)
    returns (best: Option<(Expr, Expr)>, ghost i: nat, ghost j: nat)
    ensures best.None? <==> OneSided(b)
    ensures best.Some? ==> BestUntil(o, rs, b, best.value, i, j, |Lowers(b)|, 0)
  {
    var lowers, uppers := b.equal + b.lower, b.equal + b.upper;
    best, i, j := None, 0, 0;
    for k := 0 to |lowers|
      invariant best.None? <==> k == 0 || |uppers| == 0
      invariant best.Some? ==> BestUntil(o, rs, b, best.value, i, j, k, 0)
    {
      for l := 0 to |uppers|
        invariant best.None? <==> l == 0 && (k == 0 || |uppers| == 0)
        invariant best.Some? ==> BestUntil(o, rs, b, best.value, i, j, k, l)
      {
        var pair := PairRange(o, rs, b.coef, lowers[k], uppers[l]);
        if best.Some? { NextPair(o, rs, b, i, j, k, l); }
        if best.None? || o.prove(rs, Bin(LT, Bin(Sub, pair.1, best.value.1), IntImm(0))) {
          best, i, j := Some(pair), k, l;
        }
      }
    }
  }

  /** A side has no bound. */
  predicate OneSided(b: GroupBounds) { |Lowers(b)| == 0 || |Uppers(b)| == 0 }

  /** r holds every value within the bounds. A single pair is met exactly; otherwise it is the range of the
      first pair of least width. */
  ghost predicate IsBest(o: RangeOracle, rs: Ranges, b: GroupBounds, r: Range) {
    && Encloses(r, b, rs)
    && (Single(b) ==> SameAs(r, b, rs))
    && (!Single(b) ==> exists i, j :: Narrowest(o, rs, b, r, i, j))
  }

  /** FindBestRange: the best range, or none exactly when a side has no bound. */
  method FindBestRange(o: RangeOracle, rs: Ranges, b: GroupBounds) returns (r: Option<Range>)
    requires RangeOracleSound(o) && b.coef > 0
    ensures r.None? <==> OneSided(b)
    ensures r.Some? ==> IsBest(o, rs, b, r.value) && RangeVars(r.value) <= BoundsVars(b) + AllRangeVars(rs)
  {
    var lowers, uppers := b.equal + b.lower, b.equal + b.upper;
    if |lowers| == 1 && |uppers| == 1 && b.coef == 1 {
      var end := Bin(Add, uppers[0], IntImm(1));
      r := Some(FromEnds(o.simplify(rs, lowers[0]), o.simplify(rs, end)));
      SinglePair(o, rs, b);
      return;
    }
    ghost var i, j;
    var best;
    best, i, j := TryPairs(o, rs, b);
    if best.None? { return None; }
    r := Some(Range(best.value.0, o.simplify(rs, Bin(Add, best.value.1, IntImm(1)))));
    BestPair(o, rs, b, i, j);
    assert Narrowest(o, rs, b, r.value, i, j);
  }

  lemma {:induction false} SinglePair(o: RangeOracle, rs: Ranges, b: GroupBounds)
    requires RangeOracleSound(o) && b.coef == 1 && |b.equal + b.lower| == 1 && |b.equal + b.upper| == 1
    ensures var r := FromEnds(o.simplify(rs, (b.equal + b.lower)[0]),
              o.simplify(rs, Bin(Add, (b.equal + b.upper)[0], IntImm(1))));
            SameAs(r, b, rs) && Encloses(r, b, rs) && RangeVars(r) <= BoundsVars(b) + AllRangeVars(rs)
  {
    var low, upp := (b.equal + b.lower)[0], (b.equal + b.upper)[0];
    var end := Bin(Add, upp, IntImm(1));
    var r := FromEnds(o.simplify(rs, low), o.simplify(rs, end));
    MemberBounds(b, 0, 0);
    assert FreeVars(IntImm(1)) == {};
    SimplifiedVars(o.simplify, rs, low);
    SimplifiedVars(o.simplify, rs, end);
    assert RangeVars(r) <= FreeVars(o.simplify(rs, low)) + FreeVars(o.simplify(rs, end)) by {
      FromEndsInRange(o.simplify(rs, low), o.simplify(rs, end), 0, map[]);
    }
    forall env: Env, x: int | InAll(rs, env) ensures BoundsHold(b, x, env) <==> InRange(r, x, env) {
      SingleHolds(b, x, env);
      SimplifiedInAll(o.simplify, rs, low, env);
      SimplifiedInAll(o.simplify, rs, end, env);
      FromEndsInRange(o.simplify(rs, low), o.simplify(rs, end), x, env);
    }
  }

  /** A single pair of bounds says everything. */
  lemma {:induction false} SingleHolds(b: GroupBounds, x: int, env: Env)
    requires Single(b)
    ensures BoundsHold(b, x, env) <==> Eval(Lowers(b)[0], env) <= x <= Eval(Uppers(b)[0], env)
  {
    if BoundsHold(b, x, env) { PairHolds(b, 0, 0, x, env); }
    if |b.equal| == 1 {
      assert b.lower == [] && b.upper == [];
    } else {
      assert b.equal == [];
      assert Lowers(b)[0] == b.lower[0] && Uppers(b)[0] == b.upper[0];
    }
  }

  lemma {:induction false} MemberBounds(b: GroupBounds, i: nat, j: nat)
    requires i < |b.equal + b.lower| && j < |b.equal + b.upper|
    ensures FreeVars((b.equal + b.lower)[i]) <= BoundsVars(b) && FreeVars((b.equal + b.upper)[j]) <= BoundsVars(b)
  {
    var low, upp := (b.equal + b.lower)[i], (b.equal + b.upper)[j];
    assert low in b.equal || low in b.lower;
    assert upp in b.equal || upp in b.upper;
  }

  lemma {:induction false} PairHolds(b: GroupBounds, i: nat, j: nat, x: int, env: Env)
    requires i < |b.equal + b.lower| && j < |b.equal + b.upper| && BoundsHold(b, x, env)
    ensures Eval((b.equal + b.lower)[i], env) <= b.coef * x <= Eval((b.equal + b.upper)[j], env)
  {
    if i >= |b.equal| { assert (b.equal + b.lower)[i] == b.lower[i - |b.equal|]; }
    if j >= |b.equal| { assert (b.equal + b.upper)[j] == b.upper[j - |b.equal|]; }
  }

  lemma {:induction false} BestPair(o: RangeOracle, rs: Ranges, b: GroupBounds, i: nat, j: nat)
    requires RangeOracleSound(o) && b.coef > 0 && i < |b.equal + b.lower| && j < |b.equal + b.upper|
    ensures var p := PairRange(o, rs, b.coef, (b.equal + b.lower)[i], (b.equal + b.upper)[j]);
            var r := Range(p.0, o.simplify(rs, Bin(Add, p.1, IntImm(1))));
            Encloses(r, b, rs) && RangeVars(r) <= BoundsVars(b) + AllRangeVars(rs)
  {
    var low, upp := (b.equal + b.lower)[i], (b.equal + b.upper)[j];
    MemberBounds(b, i, j);
    PairVars(o, rs, b.coef, low, upp);
    ExtentVars(o, rs, WidthOver(o, rs, b.coef, low, upp));
    var r := Range(LowDivided(o, rs, b.coef, low),
        o.simplify(rs, Bin(Add, WidthOver(o, rs, b.coef, low, upp), IntImm(1))));
    forall env: Env, x: int | InAll(rs, env) && BoundsHold(b, x, env) ensures InRange(r, x, env) {
      PairHolds(b, i, j, x, env);
      PairInRange(o, rs, b.coef, low, upp, x, env);
    }
  }

  lemma {:induction false} ExtentVars(o: RangeOracle, rs: Ranges, width: Expr)
    requires RangeOracleSound(o)
    ensures FreeVars(o.simplify(rs, Bin(Add, width, IntImm(1)))) <= FreeVars(width) + AllRangeVars(rs)
  {
    SimplifiedVars(o.simplify, rs, Bin(Add, width, IntImm(1)));
    assert FreeVars(IntImm(1)) == {};
    assert FreeVars(Bin(Add, width, IntImm(1))) == FreeVars(width) + FreeVars(IntImm(1));
  }

  lemma {:induction false} PairInRange(o: RangeOracle, rs: Ranges, c: int, low: Expr, upp: Expr, x: int, env: Env)
    requires RangeOracleSound(o) && InAll(rs, env) && c > 0
    requires Eval(low, env) <= c * x <= Eval(upp, env)
    ensures InRange(Range(LowDivided(o, rs, c, low),
              o.simplify(rs, Bin(Add, WidthOver(o, rs, c, low, upp), IntImm(1)))), x, env)
  {
    var extent := Bin(Add, WidthOver(o, rs, c, low, upp), IntImm(1));
    PairWidth(o, rs, c, low, upp, x, env);
    SimplifiedInAll(o.simplify, rs, extent, env);
    assert Eval(extent, env) == Eval(WidthOver(o, rs, c, low, upp), env) + 1;
  }

  // ----- literal bounds ----------------------------------------------------------------------

  /** Expressions without variables become literals, which are their own maximum and are compared. */
  ghost predicate FoldsLiterals(o: RangeOracle) {
    && (forall rs, e :: FreeVars(e) == {} ==> o.simplify(rs, e) == IntImm(Eval(e, map[])))
    && (forall rs, n :: o.maximum(rs, IntImm(n)) == IntImm(n))
    && DecidesLiterals(o.prove)
  }

  function Folded(e: Expr): Expr { if FreeVars(e) == {} then IntImm(Eval(e, map[])) else e }

  function LessLiterals(e: Expr): bool {
    match e
    case Bin(LT, Bin(Sub, IntImm(m), IntImm(n)), IntImm(0)) => m < n
    case _ => false
  }

  lemma {:induction false} FoldedSound(e: Expr, env: Env)
    ensures Eval(Folded(e), env) == Eval(e, env) && FreeVars(Folded(e)) <= FreeVars(e)
  {
    if FreeVars(e) == {} { EvalAgree(e, env, map[]); }
  }

  lemma {:induction false} LessHolds(e: Expr, env: Env)
    requires LessLiterals(e)
    ensures Holds(e, env)
  {
    assert Eval(e.a, env) == e.a.a.value - e.a.b.value && Eval(e.b, env) == 0;
  }

  /** There are sound oracles that fold literals. */
  lemma {:induction false} FoldingOracleExists()
    ensures var o := RangeOracle((_, e) => Folded(e), (_, e) => LessLiterals(e), (_, e) => e);
            RangeOracleSound(o) && FoldsLiterals(o)
  {
    forall e: Expr, env: Env ensures Eval(Folded(e), env) == Eval(e, env) { FoldedSound(e, env); }
    forall e: Expr ensures FreeVars(Folded(e)) <= FreeVars(e) { FoldedSound(e, map[]); }
    var prove := (_: Ranges, e: Expr) => LessLiterals(e);
    forall rs: Ranges, e: Expr, env: Env | prove(rs, e) ensures Holds(e, env) { LessHolds(e, env); }
  }

  /** Between two literals, the multiples of c: the second width is exact, and no more than the first. */
  lemma {:induction false} RoundedEnds(c: int, low: int, upp: int, x: int)
    requires c > 0
    ensures FloorDiv(low + c - 1, c) <= x <==> low <= c * x
    ensures x <= FloorDiv(upp, c) <==> c * x <= upp
    ensures FloorDiv(upp, c) - FloorDiv(low + c - 1, c) <= FloorDiv(upp - low, c)
  {
    var q, d, u := FloorDiv(low + c - 1, c), FloorDiv(upp - low, c), FloorDiv(upp, c);
    FloorDivBounds(low + c - 1, c);
    FloorDivBounds(upp - low, c);
    FloorDivBounds(upp, c);
    if q <= x { MulLe(q, x, c); }
    if x <= u { MulLe(x, u, c); }
    if low <= c * x { LessByMargin(c, q, x, c - 1); }
    if c * x <= upp { LessByMargin(c, x, u, c - 1); }
    Distribute(u, q, c);
    LessByMargin(c, u - q, d, c - 1);
  }

  /** The value of an expression without variables. */
  predicate IsValue(e: Expr, n: int) { FreeVars(e) == {} && Eval(e, map[]) == n }

  lemma {:induction false} ValueOfBin(op: BinOp, x: Expr, y: Expr, m: int, n: int)
    requires IsValue(x, m) && IsValue(y, n)
    ensures IsValue(Bin(op, x, y), EvalBin(op, m, n))
  {
    assert FreeVars(Bin(op, x, y)) == FreeVars(x) + FreeVars(y);
  }

  lemma {:induction false} ValueOfCeil(c: int, m: int)
    requires c > 0
    ensures IsValue(CeilDiv(IntImm(m), c), FloorDiv(m + c - 1, c))
  {
    var sum := Bin(Add, IntImm(m), IntImm(c));
    ValueOfBin(Add, IntImm(m), IntImm(c), m, c);
    ValueOfBin(Sub, sum, IntImm(1), m + c, 1);
    ValueOfBin(FloorDivOp, Bin(Sub, sum, IntImm(1)), IntImm(c), m + c - 1, c);
  }

  lemma {:induction false} LiteralWidth(o: RangeOracle, rs: Ranges, c: int, m: int, n: int)
    requires FoldsLiterals(o) && c > 0
    ensures LowDivided(o, rs, c, IntImm(m)) == IntImm(FloorDiv(m + c - 1, c))
    ensures Over(o, rs, Width1(c, IntImm(m), IntImm(n))) == IntImm(FloorDiv(n - m, c))
    ensures Over(o, rs, Width2(o, rs, c, IntImm(m), IntImm(n))) == IntImm(FloorDiv(n, c) - FloorDiv(m + c - 1, c))
  {
    ValueOfCeil(c, m);
    var low := IntImm(FloorDiv(m + c - 1, c));
    assert LowDivided(o, rs, c, IntImm(m)) == low;
    ValueOfBin(Sub, IntImm(n), IntImm(m), n, m);
    ValueOfBin(FloorDivOp, Bin(Sub, IntImm(n), IntImm(m)), IntImm(c), n - m, c);
    LiteralOver(o, rs, Width1(c, IntImm(m), IntImm(n)));
    ValueOfBin(FloorDivOp, IntImm(n), IntImm(c), n, c);
    ValueOfBin(Sub, Bin(FloorDivOp, IntImm(n), IntImm(c)), low, FloorDiv(n, c), low.value);
    LiteralOver(o, rs, Width2(o, rs, c, IntImm(m), IntImm(n)));
  }

  lemma {:induction false} LiteralOver(o: RangeOracle, rs: Ranges, width: Expr)
    requires FoldsLiterals(o) && FreeVars(width) == {}
    ensures Over(o, rs, width) == IntImm(Eval(width, map[]))
  {
    var n := Eval(width, map[]);
    assert FreeVars(IntImm(n)) == {} && o.simplify(rs, IntImm(n)) == IntImm(Eval(IntImm(n), map[]));
  }

  /** The range of a pair of literals holds exactly the values between them. */
  lemma {:induction false} LiteralPair(o: RangeOracle, rs: Ranges, b: GroupBounds, i: nat, j: nat, x: int, env: Env)
    requires FoldsLiterals(o) && b.coef > 0 && IsPair(b, i, j) && Lowers(b)[i].IntImm? && Uppers(b)[j].IntImm?
    ensures WidthAt(o, rs, b, i, j).IntImm?
    ensures InRange(RangeAt(o, rs, b, i, j), x, env) <==>
            Lowers(b)[i].value <= b.coef * x <= Uppers(b)[j].value
  {
    var m, n, c := Lowers(b)[i].value, Uppers(b)[j].value, b.coef;
    LiteralWidth(o, rs, c, m, n);
    RoundedEnds(c, m, n, x);
    var width := WidthAt(o, rs, b, i, j);
    assert width == IntImm(FloorDiv(n, c) - FloorDiv(m + c - 1, c));
    var extent := Bin(Add, width, IntImm(1));
    assert FreeVars(extent) == {} && Eval(extent, map[]) == width.value + 1;
  }
}
