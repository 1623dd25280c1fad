/** Remainder of a sum of splits by a constant: the divisible part drops out, the constant is
    reduced, and what is left is taken as one split (the sum cases of the remainder visitors in
    src/arith/canonical_simplify.cc). */
module CanonicalRemainder {
  import opened IntOperator
  import opened PrimExprs
  import opened Wrappers
  import opened IntConstraintSystems
  import opened DivModes
  import opened CanonicalSplit
  import opened CanonicalSum
  import opened CanonicalNormalize
  import opened CanonicalDivision

  /** The analyzer: CanProve, and a lower bound from const_int_bound if it has one. */
  datatype Analyzer = Analyzer(prove: (Ranges, Expr) -> bool, lowest: (Ranges, Expr) -> Option<int>)

  ghost predicate Sound(o: Analyzer) {
    ProverSound(o.prove) && forall rs: Ranges, e: Expr, env: Env ::
      o.lowest(rs, e).Some? && InAll(rs, env) ==> Eval(e, env) >= o.lowest(rs, e).value
  }

  /** A remainder is an expression, or a split. */
  datatype Remainder = ExprRemainder(expr: Expr) | SplitRemainder(split: Split)

  ghost function RemainderValue(r: Remainder, env: Env): int {
    match r
    case ExprRemainder(e) => Eval(e, env)
    case SplitRemainder(s) => ValueOf(s, env)
  }

  /** A multiple of c more leaves the remainder, in floor mode or if both dividends are not negative. */
  lemma {:induction false} MultipleMore(mode: DivMode, x: int, k: int, c: int)
    requires c > 0 && (mode == FloorMode || (x >= 0 && c * k + x >= 0))
    ensures ModBy(mode, c * k + x, c) == ModBy(mode, x, c)
  {
    Euclidean(mode, c * k + x, c);
    Euclidean(mode, x, c);
    Distribute(k, x / c, c);
    DivModUnique(c * k + x, c, k + x / c, x % c);
  }

  /** Reducing the constant of a sum. */
  lemma {:induction false} BaseReduced(mode: DivMode, v: int, base: int, c: int)
    requires c > 0 && (mode == FloorMode || (v + base >= 0 && v + ModBy(mode, base, c) >= 0))
    ensures ModBy(mode, v + ModBy(mode, base, c), c) == ModBy(mode, v + base, c)
  {
    DivModIdentity(mode, base, c);
    MultipleMore(mode, v + ModBy(mode, base, c), DivBy(mode, base, c), c);
  }

  /** The constant modulo c, in truncating mode only if that keeps the sum from being negative. */
  method ReduceBase(o: Analyzer, rs: Ranges, args: seq<Split>, base: int, c: int, mode: DivMode) returns (base': int)
    requires Sound(o) && AllVerified(args) && c > 0
    ensures forall env: Env :: InAll(rs, env) ==>
              ModBy(mode, SumValue(args, env) + base', c) == ModBy(mode, SumValue(args, env) + base, c)
    ensures base' == base || base' == ModBy(mode, base, c)
    ensures mode == FloorMode ==> 0 <= base' < c
  {
    var reduced := ModBy(mode, base, c);
    var whole := Normalize(args, base);
    var low := o.lowest(rs, whole);
    var may := mode == FloorMode || (low.Some? && low.value >= 0 && low.value - base + reduced >= 0);
    base' := if may then reduced else base;
    if may {
      forall env: Env | InAll(rs, env)
        ensures ModBy(mode, SumValue(args, env) + reduced, c) == ModBy(mode, SumValue(args, env) + base, c)
      {
        assert Eval(whole, env) == SumValue(args, env) + base;
        BaseReduced(mode, SumValue(args, env), base, c);
      }
    }
  }

  lemma {:induction false} PlainExact(e: Expr, c: int, mode: DivMode)
    ensures ModExact(ToSplit(e), c, mode)
  {}

  /** The operand stands for the sum: its remainder is the sum's, and it is a split of the sum or a
      plain expression. */
  ghost predicate StandsFor(operand: Split, args: seq<Split>, base: int, c: int, mode: DivMode, rs: Ranges)
    requires c > 0
  {
    && Verified(operand) && (operand in args || operand == ToSplit(operand.index))
    && forall env: Env :: InAll(rs, env) ==>
         ModBy(mode, ValueOf(operand, env), c) == ModBy(mode, SumValue(args, env) + base, c)
  }

  /** The remainder of a sum as one split, its constant reduced. */
  method ModAsSplit(o: Analyzer, rs: Ranges, args: seq<Split>, base: int, c: int, mode: DivMode, visit: Expr -> Expr)
    returns (r: Remainder, ghost operand: Split)
    requires Sound(o) && AllVerified(args) && c > 0
    ensures StandsFor(operand, args, base, c, mode, rs)
    ensures r == SplitRemainder(SplitModConst(operand, c, mode, visit))
  {
    var base' := ReduceBase(o, rs, args, base, c, mode);
    var s := AsSplit(args, base');
    r, operand := SplitRemainder(SplitModConst(s, c, mode, visit)), s;
  }

  // ----- the divisible part drops out --------------------------------------------------------

  lemma {:induction false} DivisibleSum(args: seq<Split>, c: int, env: Env)
    requires c > 0 && AllMultiples(args, c)
    ensures SumValue(args, env) % c == 0
  {
    if |args| == 0 {
      DivModPlus(0, c, 0);
    } else {
      DivisibleSum(args[1..], c, env);
      var s := args[0];
      DivisibleProduct(Part(s.mode, Eval(s.index, env), s.lower, s.upper), s.scale, c);
      DivisibleSums(ValueOf(s, env), SumValue(args[1..], env), c);
    }
  }

  lemma {:induction false} DivisibleProduct(y: int, scale: int, c: int)
    requires c > 0 && scale % c == 0
    ensures (y * scale) % c == 0
  {
    MulAssoc(y, scale / c, c);
    DivModUnique(y * scale, c, y * (scale / c), 0);
  }

  lemma {:induction false} DivisibleSums(x: int, y: int, c: int)
    requires c > 0 && x % c == 0 && y % c == 0
    ensures (x + y) % c == 0
  {
    Distribute(x / c, y / c, c);
    DivModUnique(x + y, c, x / c + y / c, 0);
  }

  lemma {:induction false} DivisibleDropped(mode: DivMode, whole: int, rest: int, c: int)
    requires c > 0 && whole % c == 0 && (mode == FloorMode || rest == 0 || (whole >= 0 && rest >= 0))
    ensures ModBy(mode, whole + rest, c) == ModBy(mode, rest, c)
  {
    var k := whole / c;
    assert whole == k * c == c * k;
    if rest == 0 {
      DivExact(mode, k, c);
      DivExact(mode, 0, c);
    } else {
      MultipleMore(mode, rest, k, c);
    }
  }

  /** The divisible part of a sum, dropped. */
  lemma {:induction false} PartDropped(mode: DivMode, args: seq<Split>, base: int, rest: int, c: int, env: Env)
    requires c > 0 && AllMultiples(args, c) && Multiple(base, c)
    requires mode == FloorMode || rest == 0 || (SumValue(args, env) + base >= 0 && rest >= 0)
    ensures ModBy(mode, SumValue(args, env) + base + rest, c) == ModBy(mode, rest, c)
  {
    DivisibleSum(args, c, env);
    DivisibleSums(SumValue(args, env), base, c);
    DivisibleDropped(mode, SumValue(args, env) + base, rest, c);
  }

  // ----- the remainder visitors on a sum -----------------------------------------------------

  /** The remainder is exact wherever the analyzer's ranges hold, or is that of a split which stands
      for the sum. */
  ghost predicate Reduced(r: Remainder, operand: Split, args: seq<Split>, base: int, c: int, mode: DivMode, rs: Ranges,
      visit: Expr -> Expr)
    requires c > 0
  {
    if r.SplitRemainder? then
      StandsFor(operand, args, base, c, mode, rs) && r.split == SplitModConst(operand, c, mode, visit)
    else
      forall env: Env :: InAll(rs, env) ==> RemainderValue(r, env) == ModBy(mode, SumValue(args, env) + base, c)
  }

  /** The remainder of what is left when the divisible part is dropped: of a literal, of itself if it
      is known to be in [0, c), or of one split. */
  method ModRest(o: Analyzer, rs: Ranges, args: seq<Split>, base: int, c: int, mode: DivMode, visit: Expr -> Expr)
    returns (r: Remainder, ghost operand: Split)
    requires Sound(o) && AllVerified(args) && c > 0
    requires mode == TruncMode ==> forall env: Env :: InAll(rs, env) ==> SumValue(args, env) + base >= 0
    ensures Reduced(r, operand, args, base, c, mode, rs, visit)
    ensures |args| == 0 && base == 0 ==> r == ExprRemainder(IntImm(0))
  {
    var temp := Normalize(args, base);
    operand := ToSplit(temp);
    if temp.IntImm? {
      if |args| == 0 && base == 0 { DivExact(mode, 0, c); }
      r := ExprRemainder(IntImm(ModBy(mode, temp.value, c)));
      assert forall env: Env :: Eval(temp, env) == temp.value;
    } else if o.prove(rs, LessThan(temp, c)) && (mode == TruncMode || o.prove(rs, NonNegative(temp))) {
      r := ExprRemainder(temp);
      SmallRemainder(o, rs, temp, c, mode);
    } else {
      r, operand := ModAsSplit(o, rs, args, base, c, mode, visit);
    }
  }

  ghost predicate SameRemainders(mode: DivMode, args: seq<Split>, base: int, rest: seq<Split>, restBase: int, c: int,
      env: Env)
    requires c > 0
  {
    ModBy(mode, SumValue(args, env) + base, c) == ModBy(mode, SumValue(rest, env) + restBase, c)
  }

  /** Wherever both parts are known not to be negative, or in floor mode, the divisible one drops out. */
  lemma {:induction false} SumDropped(o: Analyzer, rs: Ranges, mode: DivMode, args: seq<Split>, base: int, whole: Expr,
      rest: seq<Split>, restBase: int, temp: Expr, c: int, env: Env)
    requires Sound(o) && c > 0 && AllMultiples(args, c) && Multiple(base, c) && InAll(rs, env)
    requires Eval(whole, env) == SumValue(args, env) + base && Eval(temp, env) == SumValue(rest, env) + restBase
    requires mode == FloorMode || (restBase == 0 && |rest| == 0) ||
             (o.prove(rs, NonNegative(whole)) && o.prove(rs, NonNegative(temp)))
    ensures ModBy(mode, SumValue(args, env) + base + (SumValue(rest, env) + restBase), c) ==
            ModBy(mode, SumValue(rest, env) + restBase, c)
  {
    ProvedBounds(o.prove, rs, whole, c, env);
    ProvedBounds(o.prove, rs, temp, c, env);
    PartDropped(mode, args, base, SumValue(rest, env) + restBase, c, env);
  }

  /** What is reduced for the rest is reduced for the whole sum. */
  lemma {:induction false} RestReduced(r: Remainder, operand: Split, rest: seq<Split>, restBase: int, args: seq<Split>,
      base: int, c: int, mode: DivMode, rs: Ranges, visit: Expr -> Expr)
    requires c > 0 && Reduced(r, operand, rest, restBase, c, mode, rs, visit) && (forall s :: s in rest ==> s in args)
    requires forall env: Env :: InAll(rs, env) ==> SameRemainders(mode, args, base, rest, restBase, c, env)
    ensures Reduced(r, operand, args, base, c, mode, rs, visit)
  {}

  lemma {:induction false} NothingLeft(operand: Split, c: int, mode: DivMode, rs: Ranges, visit: Expr -> Expr)
    requires c > 0
    ensures Reduced(ExprRemainder(IntImm(0)), operand, [], 0, c, mode, rs, visit)
  {
    DivExact(mode, 0, c);
    assert forall env: Env :: Eval(IntImm(0), env) == 0;
  }

  /** The divisible part is dropped if that keeps the remainder, and otherwise the sum is taken whole. */
  method ModParts(o: Analyzer, rs: Ranges, dargs: seq<Split>, dbase: int, rargs: seq<Split>, rbase: int,
      args: seq<Split>, base: int, c: int, mode: DivMode, visit: Expr -> Expr)
    returns (r: Remainder, ghost operand: Split)
    requires Sound(o) && AllVerified(args) && AllVerified(dargs) && AllVerified(rargs) && c > 0
    requires AllMultiples(dargs, c) && Multiple(dbase, c) && dbase + rbase == base
    requires forall s :: s in rargs ==> s in args
    requires forall env: Env :: SumValue(dargs, env) + SumValue(rargs, env) == SumValue(args, env)
    ensures Reduced(r, operand, args, base, c, mode, rs, visit)
    ensures |rargs| == 0 && rbase == 0 ==> r == ExprRemainder(IntImm(0))
  {
    var whole := Normalize(dargs, dbase);
    var temp := Normalize(rargs, rbase);
    if mode == TruncMode && rbase == 0 && |rargs| == 0 {
      r, operand := ExprRemainder(IntImm(0)), ToSplit(temp);
      NothingLeft(operand, c, mode, rs, visit);
    } else if mode == FloorMode || (o.prove(rs, NonNegative(whole)) && o.prove(rs, NonNegative(temp))) {
      forall env: Env | InAll(rs, env) && mode == TruncMode ensures SumValue(rargs, env) + rbase >= 0 {
        ProvedBounds(o.prove, rs, temp, c, env);
      }
      r, operand := ModRest(o, rs, rargs, rbase, c, mode, visit);
    } else {
      r, operand := ModAsSplit(o, rs, args, base, c, mode, visit);
      return;
    }
    forall env: Env | InAll(rs, env) ensures SameRemainders(mode, args, base, rargs, rbase, c, env) {
      SumDropped(o, rs, mode, dargs, dbase, whole, rargs, rbase, temp, c, env);
    }
    RestReduced(r, operand, rargs, rbase, args, base, c, mode, rs, visit);
  }

  /** Remainder of a sum by c in either mode: exact wherever the analyzer's ranges hold, if that of
      the split taken for what is left is. Only a split of the sum can fail that. */
  method ModSum(o: Analyzer, rs: Ranges, a: SumExpr, c: int, mode: DivMode, visit: Expr -> Expr)
    returns (r: Remainder, ghost operand: Split)
    requires Sound(o) && VisitSound(visit) && a.Valid() && c > 0
    ensures Reduced(r, operand, a.args, a.base, c, mode, rs, visit)
    ensures r.SplitRemainder? && operand !in a.args ==> ModExact(operand, c, mode)
    ensures (r.SplitRemainder? ==> ModExact(operand, c, mode)) ==>
              forall env: Env :: InAll(rs, env) ==> RemainderValue(r, env) == ModBy(mode, a.Value(env), c)
    ensures AllMultiples(a.args, c) && Multiple(a.base, c) ==> r == ExprRemainder(IntImm(0))
  {
    var lhs, extra := SeparateDivisibleParts(a, c);
    r, operand := ModParts(o, rs, lhs.args, lhs.base, extra.args, extra.base, a.args, a.base, c, mode, visit);
    OperandExact(r, operand, a.args, a.base, c, mode, rs, visit);
  }

  lemma {:induction false} SmallRemainder(o: Analyzer, rs: Ranges, temp: Expr, c: int, mode: DivMode)
    requires Sound(o) && c > 0 && o.prove(rs, LessThan(temp, c))
    requires o.prove(rs, NonNegative(temp)) || forall env: Env :: InAll(rs, env) ==> Eval(temp, env) >= 0
    ensures forall env: Env :: InAll(rs, env) ==> ModBy(mode, Eval(temp, env), c) == Eval(temp, env)
  {
    forall env: Env | InAll(rs, env) ensures ModBy(mode, Eval(temp, env), c) == Eval(temp, env) {
      ProvedBounds(o.prove, rs, temp, c, env);
      SmallDividend(mode, Eval(temp, env), c);
    }
  }

  lemma {:induction false} OperandExact(r: Remainder, operand: Split, args: seq<Split>, base: int, c: int,
      mode: DivMode, rs: Ranges, visit: Expr -> Expr)
    requires c > 0 && VisitSound(visit) && Reduced(r, operand, args, base, c, mode, rs, visit)
    ensures r.SplitRemainder? && operand !in args ==> ModExact(operand, c, mode)
    ensures (r.SplitRemainder? ==> ModExact(operand, c, mode)) ==> forall env: Env :: InAll(rs, env) ==>
              RemainderValue(r, env) == ModBy(mode, SumValue(args, env) + base, c)
  {
    if r.SplitRemainder? {
      if operand !in args { PlainExact(operand.index, c, mode); }
      if ModExact(operand, c, mode) {
        forall env: Env | InAll(rs, env) ensures RemainderValue(r, env) == ModBy(mode, SumValue(args, env) + base, c) {
          SplitModConstSound(operand, c, mode, visit, env);
        }
      }
    }
  }

  /** Without ranges the condition is exact for a split of a variable. */
  lemma {:induction false} ModSumExact(r: Remainder, operand: Split, args: seq<Split>, base: int, c: int, mode: DivMode,
      visit: Expr -> Expr, v: nat)
    requires c > 0 && VisitSound(visit) && Reduced(r, operand, args, base, c, mode, map[], visit)
    requires r.SplitRemainder? && operand.index == Var(v)
    ensures ModExact(operand, c, mode) <==>
            forall env: Env :: RemainderValue(r, env) == ModBy(mode, SumValue(args, env) + base, c)
  {
    var split := SplitModConst(operand, c, mode, visit);
    SplitModConstExact(operand, v, c, mode, visit);
    forall env: Env
      ensures RemainderValue(r, env) == ModBy(mode, SumValue(args, env) + base, c) <==>
              ValueOf(split, env) == ModBy(mode, ValueOf(operand, env), c)
    {
      assert InAll(map[], env);
    }
  }
}
