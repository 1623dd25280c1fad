/** Constant bounds with saturating infinities (src/arith/const_int_bound.cc). */
module ConstIntBound {
  import opened IntOperator
  import opened PrimExprs
  import opened DivModes
  import opened Wrappers

  const POS_INF: int := 0x7fff_ffff_ffff_ffff
  const NEG_INF: int := -0x7fff_ffff_ffff_ffff

  datatype Entry = Entry(min: int, max: int)

  /** The bound covers x, which is properly between the infinities. */
  predicate Covers(e: Entry, x: int) {
    NEG_INF <= e.min <= x <= e.max <= POS_INF && NEG_INF < x < POS_INF
  }

  predicate Inside(e: Entry, x: int) { e.min <= x <= e.max }

  predicate IsConst(e: Entry, x: int) { e.min == e.max && e.min == x }

  function MakeBound(min: int, max: int): Entry {
    Entry(if min == POS_INF then min - 1 else min, if max == NEG_INF then max + 1 else max)
  }

  function Union(a: Entry, b: Entry): Entry { Entry(Min(a.min, b.min), Max(a.max, b.max)) }

  function Intersect(a: Entry, b: Entry): Entry { Entry(Max(a.min, b.min), Min(a.max, b.max)) }

  function Pow2(n: nat): (r: int)
    ensures r >= 1 && (n >= 1 ==> r >= 2)
  {
    if n == 0 then 1 else 2 * Pow2(n - 1)
  }

  /** Everything a signed type of the given width can hold. */
  function Everything(bits: nat): Entry {
    if bits >= 64 || bits == 0 then Entry(NEG_INF, POS_INF) else Entry(-Pow2(bits - 1), Pow2(bits - 1) - 1)
  }

  /** What a boolean, an unsigned type of one bit, can hold. */
  const EITHER := Entry(0, 1)

  // ----- arithmetic aware of infinities ------------------------------------------------------

  /** InfAwareAdd; None when a check fails. */
  function InfAwareAdd(x: int, y: int): Option<int> {
    if x == POS_INF then (if y == NEG_INF then None else Some(POS_INF))
    else if x == NEG_INF then (if y == POS_INF then None else Some(NEG_INF))
    else if y == POS_INF || y == NEG_INF then Some(y)
    else if AddOverflows(x, y, NEG_INF, POS_INF) then Some(if x > 0 then POS_INF else NEG_INF)
    else Some(x + y)
  }

  function InfAwareMul(x: int, y: int): int {
    if !MulOverflows(x, y, NEG_INF, POS_INF) then x * y
    else if (x > 0 && y > 0) || (x < 0 && y < 0) then POS_INF
    else NEG_INF
  }

  /** InfAwareDiv and InfAwareFloorDiv. */
  function InfAwareDiv(mode: DivMode, x: int, y: int): int
    requires y != 0
  {
    if x == POS_INF || x == NEG_INF then (if y > 0 then x else -x) else DivBy(mode, x, y)
  }

  /** Adding lower ends stays below the sum, and upper ends above; the check does not fail. */
  lemma {:induction false} AddLow(x: int, y: int, a: int, b: int)
    requires NEG_INF <= x <= a < POS_INF && NEG_INF <= y <= b < POS_INF && NEG_INF < a + b < POS_INF
    ensures InfAwareAdd(x, y).Some? && NEG_INF <= InfAwareAdd(x, y).value <= a + b
  {}

  lemma {:induction false} AddHigh(x: int, y: int, a: int, b: int)
    requires NEG_INF < a <= x <= POS_INF && NEG_INF < b <= y <= POS_INF && NEG_INF < a + b < POS_INF
    ensures InfAwareAdd(x, y).Some? && a + b <= InfAwareAdd(x, y).value <= POS_INF
  {}

  function Clamp(x: int): int { Max(NEG_INF, Min(POS_INF, x)) }

  /** The product, clamped to the infinities. */
  lemma {:induction false} MulClamps(x: int, y: int)
    ensures InfAwareMul(x, y) == Clamp(x * y)
  {
    MulOverflowExact(x, y, NEG_INF, POS_INF);
    ProductSign(x, y);
  }

  lemma {:induction false} ProductSign(x: int, y: int)
    ensures (x > 0 && y > 0) || (x < 0 && y < 0) ==> x * y > 0
    ensures (x >= 0 && y <= 0) || (x <= 0 && y >= 0) ==> x * y <= 0
  {
    if x > 0 && y > 0 { MulLe(1, x, y); }
    if x < 0 && y < 0 { MulLe(1, -x, -y); MulSigns(x, y); }
    if x >= 0 && y <= 0 { MulLe(0, x, -y); MulSigns(x, y); }
    if x <= 0 && y >= 0 { MulLe(x, 0, y); }
  }

  // ----- corners -----------------------------------------------------------------------------

  /** The hull of four corners. */
  function Hull(v1: int, v2: int, v3: int, v4: int): Entry {
    Entry(Min(Min(Min(v1, v2), v3), v4), Max(Max(Max(v1, v2), v3), v4))
  }

  predicate Between(p: int, x: int, q: int) { p <= x <= q || q <= x <= p }

  /** Between two points that are each between two corners. */
  lemma {:induction false} BetweenCorners(x: int, p: int, q: int, v1: int, v2: int, v3: int, v4: int)
    requires Between(p, x, q) && Between(v1, p, v4) && Between(v3, q, v2)
    ensures Hull(v1, v2, v3, v4).min <= x <= Hull(v1, v2, v3, v4).max
  {}

  function MulBoundary(a: Entry, b: Entry): Entry {
    Hull(InfAwareMul(a.min, b.min), InfAwareMul(a.max, b.max), InfAwareMul(a.min, b.max), InfAwareMul(a.max, b.min))
  }

  function DivBoundary(mode: DivMode, a: Entry, b: Entry): Entry
    requires b.min != 0 && b.max != 0
  {
    Hull(InfAwareDiv(mode, a.min, b.min), InfAwareDiv(mode, a.max, b.max),
         InfAwareDiv(mode, a.min, b.max), InfAwareDiv(mode, a.max, b.min))
  }

  lemma {:induction false} MulBetween(lo: int, x: int, hi: int, y: int)
    requires lo <= x <= hi
    ensures Between(lo * y, x * y, hi * y)
  {
    if y >= 0 {
      MulLe(lo, x, y);
      MulLe(x, hi, y);
    } else {
      MulLe(lo, x, -y);
      MulLe(x, hi, -y);
      MulSigns(lo, y);
      MulSigns(x, y);
      MulSigns(hi, y);
    }
  }

  lemma {:induction false} MulBoundarySound(a: Entry, b: Entry, x: int, y: int)
    requires Covers(a, x) && Covers(b, y) && NEG_INF < x * y < POS_INF
    ensures Covers(MulBoundary(a, b), x * y)
  {
    MulBetween(b.min, y, b.max, x);
    MulBetween(a.min, x, a.max, b.min);
    MulBetween(a.min, x, a.max, b.max);
    MulClamps(a.min, b.min);
    MulClamps(a.max, b.max);
    MulClamps(a.min, b.max);
    MulClamps(a.max, b.min);
    ClampedCorners(x * y, b.min * x, b.max * x, a.min * b.min, a.max * b.max, a.min * b.max, a.max * b.min);
  }

  lemma {:induction false} ClampedCorners(x: int, p: int, q: int, v1: int, v2: int, v3: int, v4: int)
    requires Between(p, x, q) && Between(v1, p, v4) && Between(v3, q, v2) && NEG_INF < x < POS_INF
    ensures Covers(Hull(Clamp(v1), Clamp(v2), Clamp(v3), Clamp(v4)), x)
  {
    BetweenCorners(x, p, q, v1, v2, v3, v4);
  }

  // ----- division at the corners -------------------------------------------------------------

  lemma {:induction false} NegateBoth(mode: DivMode, x: int, y: int)
    requires y != 0
    ensures DivBy(mode, x, y) == DivBy(mode, -x, -y)
  {
    if mode == TruncMode {
      if x == 0 { DivModUnique(0, Abs(y), 0, 0); }
    } else {
      FloorModBound(x, y);
      MulSigns(FloorDiv(x, y), y);
      FloorDivModUnique(-x, -y, FloorDiv(x, y), -FloorMod(x, y));
    }
  }

  lemma {:induction false} EuclidMonotone(x1: int, x2: int, y: int)
    requires y > 0 && x1 <= x2
    ensures x1 / y <= x2 / y
  {
    if x1 / y > x2 / y {
      MulLe(x2 / y + 1, x1 / y, y);
      Distribute(x2 / y, 1, y);
    }
  }

  /** A larger divisor brings the quotient towards zero. */
  lemma {:induction false} EuclidDivisor(x: int, y1: int, y2: int)
    requires 0 < y1 <= y2
    ensures x >= 0 ==> 0 <= x / y2 <= x / y1
    ensures x < 0 ==> x / y1 <= x / y2 < 0
  {
    var q1, q2 := x / y1, x / y2;
    assert x == q1 * y1 + x % y1 && x == q2 * y2 + x % y2;
    if x >= 0 {
      QuotientsUp(q1, x % y1, y1, q2, x % y2, y2);
    } else {
      QuotientsDown(q1, x % y1, y1, q2, x % y2, y2);
    }
  }

  lemma {:induction false} QuotientsUp(q1: int, r1: int, y1: int, q2: int, r2: int, y2: int)
    requires 0 < y1 <= y2 && 0 <= r1 < y1 && 0 <= r2 < y2 && 0 <= q1 * y1 + r1 == q2 * y2 + r2
    ensures 0 <= q2 <= q1
  {
    if q2 < 0 { MulLe(q2, -1, y2); }
    if q2 > q1 {
      MulLe(y1, y2, q2);
      MulLe(q1 + 1, q2, y1);
      Distribute(q1, 1, y1);
    }
  }

  lemma {:induction false} QuotientsDown(q1: int, r1: int, y1: int, q2: int, r2: int, y2: int)
    requires 0 < y1 <= y2 && 0 <= r1 < y1 && 0 <= r2 < y2 && 0 > q1 * y1 + r1 == q2 * y2 + r2
    ensures q1 <= q2 < 0
  {
    if q2 >= 0 { MulLe(0, q2, y2); }
    if q1 >= 0 { MulLe(0, q1, y1); }
    if q1 > q2 {
      MulLe(y1, y2, -q1);
      MulSigns(q1, y1);
      MulSigns(q1, y2);
      MulLe(q2 + 1, q1, y2);
      Distribute(q2, 1, y2);
    }
  }

  lemma {:induction false} DivMonotone(mode: DivMode, x1: int, x2: int, y: int)
    requires y > 0 && x1 <= x2
    ensures DivBy(mode, x1, y) <= DivBy(mode, x2, y)
  {
    if mode == TruncMode && x1 < 0 {
      Odd(x1, y);
      Euclidean(mode, -x1, y);
      EuclidDivisor(-x1, 1, y);
      if x2 < 0 {
        Odd(x2, y);
        Euclidean(mode, -x2, y);
        EuclidMonotone(-x2, -x1, y);
      } else {
        Euclidean(mode, x2, y);
        EuclidDivisor(x2, 1, y);
        EuclidDivisor(-x1, y, y);
      }
    } else {
      Euclidean(mode, x1, y);
      Euclidean(mode, x2, y);
      EuclidMonotone(x1, x2, y);
    }
  }

  /** Quotients by divisors of one sign lie between those by the extreme divisors. */
  lemma {:induction false} DivisorBetween(mode: DivMode, x: int, lo: int, y: int, hi: int)
    requires lo <= y <= hi && (lo > 0 || hi < 0)
    ensures Between(DivBy(mode, x, lo), DivBy(mode, x, y), DivBy(mode, x, hi))
  {
    if lo > 0 {
      PositiveDivisorBetween(mode, x, lo, y, hi);
    } else {
      PositiveDivisorBetween(mode, -x, -hi, -y, -lo);
      NegateBoth(mode, x, lo);
      NegateBoth(mode, x, y);
      NegateBoth(mode, x, hi);
    }
  }

  lemma {:induction false} PositiveDivisorBetween(mode: DivMode, x: int, lo: int, y: int, hi: int)
    requires 0 < lo <= y <= hi
    ensures Between(DivBy(mode, x, lo), DivBy(mode, x, y), DivBy(mode, x, hi))
    decreases if mode == FloorMode then 0 else 1
  {
    if mode == FloorMode || x >= 0 {
      Euclidean(mode, x, lo);
      Euclidean(mode, x, y);
      Euclidean(mode, x, hi);
      EuclidDivisor(x, lo, y);
      EuclidDivisor(x, y, hi);
    } else {
      PositiveDivisorBetween(FloorMode, -x, lo, y, hi);
      Odd(x, lo);
      Odd(x, y);
      Odd(x, hi);
      Euclidean(mode, -x, lo);
      Euclidean(mode, -x, y);
      Euclidean(mode, -x, hi);
      Euclidean(FloorMode, -x, lo);
      Euclidean(FloorMode, -x, y);
      Euclidean(FloorMode, -x, hi);
    }
  }

  /** Dividing does not make a number larger. */
  lemma {:induction false} DivShrinks(mode: DivMode, x: int, y: int)
    requires y != 0
    ensures -Abs(x) <= DivBy(mode, x, y) <= Abs(x)
  {
    if y < 0 { NegateBoth(mode, x, y); }
    var x', y' := if y < 0 then -x else x, Abs(y);
    if mode == FloorMode || x' >= 0 {
      Euclidean(mode, x', y');
      EuclidDivisor(x', 1, y');
    } else {
      Odd(x', y');
      Euclidean(mode, -x', y');
      EuclidDivisor(-x', 1, y');
    }
  }

  /** For a fixed divisor, the quotient lies between those of the ends, infinities outwards. */
  lemma {:induction false} DividendBetween(mode: DivMode, lo: int, x: int, hi: int, y: int)
    requires NEG_INF <= lo <= x <= hi <= POS_INF && NEG_INF < x < POS_INF && y != 0
    ensures Between(InfAwareDiv(mode, lo, y), DivBy(mode, x, y), InfAwareDiv(mode, hi, y))
    ensures NEG_INF <= InfAwareDiv(mode, lo, y) <= POS_INF && NEG_INF <= InfAwareDiv(mode, hi, y) <= POS_INF
  {
    DivShrinks(mode, x, y);
    DivShrinks(mode, lo, y);
    DivShrinks(mode, hi, y);
    if y > 0 {
      DivMonotone(mode, lo, x, y);
      DivMonotone(mode, x, hi, y);
    } else {
      DivMonotone(mode, -x, -lo, -y);
      DivMonotone(mode, -hi, -x, -y);
      NegateBoth(mode, lo, y);
      NegateBoth(mode, x, y);
      NegateBoth(mode, hi, y);
    }
  }

  lemma {:induction false} DivBoundarySound(mode: DivMode, a: Entry, b: Entry, x: int, y: int)
    requires Covers(a, x) && b.min <= y <= b.max && (b.min > 0 || b.max < 0)
    ensures DivBoundary(mode, a, b).min <= DivBy(mode, x, y) <= DivBoundary(mode, a, b).max
  {
    DivisorBetween(mode, x, b.min, y, b.max);
    DividendBetween(mode, a.min, x, a.max, b.min);
    DividendBetween(mode, a.min, x, a.max, b.max);
    BetweenCorners(DivBy(mode, x, y), DivBy(mode, x, b.min), DivBy(mode, x, b.max),
                   InfAwareDiv(mode, a.min, b.min), InfAwareDiv(mode, a.max, b.max),
                   InfAwareDiv(mode, a.min, b.max), InfAwareDiv(mode, a.max, b.min));
  }

  lemma {:induction false} DivBoundaryRange(mode: DivMode, a: Entry, b: Entry, x: int)
    requires Covers(a, x) && b.min != 0 && b.max != 0
    ensures NEG_INF <= DivBoundary(mode, a, b).min && DivBoundary(mode, a, b).max <= POS_INF
  {
    DividendBetween(mode, a.min, x, a.max, b.min);
    DividendBetween(mode, a.min, x, a.max, b.max);
  }

  // ----- the visitors ------------------------------------------------------------------------

  /** A bound from its two ends, when neither check failed. */
  function Ends(min: Option<int>, max: Option<int>): Option<Entry> {
    if min.Some? && max.Some? then Some(Entry(min.value, max.value)) else None
  }

  /** HandleDivision: a divisor range around zero is divided from both sides of it. */
  function HandleDivision(mode: DivMode, a: Entry, b: Entry, bits: nat): Option<Entry> {
    if b.min <= 0 <= b.max then
      var neg := if b.min < 0 then MakeBound(b.min, -1) else Everything(bits);
      var pos := if b.max > 0 then MakeBound(1, b.max) else Everything(bits);
      if neg.min == 0 || neg.max == 0 || pos.min == 0 || pos.max == 0 then None
      else
        var e, f := DivBoundary(mode, a, neg), DivBoundary(mode, a, pos);
        Some(MakeBound(Min(e.min, f.min), Max(e.max, f.max)))
    else if b.min == 0 || b.max == 0 then None
    else Some(DivBoundary(mode, a, b))
  }

  function ModBoundary(a: Entry, b: Entry, bits: nat): Option<Entry> {
    if b.min > 0 then
      var cap := InfAwareAdd(b.max, -1);
      if cap.None? then None
      else if a.min >= 0 then
        (if a.max < b.min then Some(a) else Some(MakeBound(0, Min(a.max, cap.value))))
      else Some(MakeBound(Max(a.min, -cap.value), Min(Max(a.max, 0), cap.value)))
    else if IsConst(b, 0) then None
    else Some(Everything(bits))
  }

  function FloorModBoundary(a: Entry, b: Entry, bits: nat): Option<Entry> {
    var high := InfAwareAdd(b.max, -1);
    if b.min > 0 then
      if high.None? then None
      else if a.min >= 0 then
        (if a.max < b.min then Some(a) else Some(MakeBound(0, Min(a.max, high.value))))
      else Some(MakeBound(0, high.value))
    else
      var low := InfAwareAdd(b.min, 1);
      if IsConst(b, 0) || low.None? || high.None? then None
      else Some(Intersect(MakeBound(Min(0, low.value), Max(0, high.value)), Everything(bits)))
  }

  /** The bound of an arithmetic node from those of its operands; None when a check fails. */
  function BinBound(op: BinOp, a: Entry, b: Entry, bits: nat): Option<Entry> {
    match op
    case Add => Ends(InfAwareAdd(a.min, b.min), InfAwareAdd(a.max, b.max))
    case Sub => Ends(InfAwareAdd(a.min, -b.max), InfAwareAdd(a.max, -b.min))
    case Mul => Some(MulBoundary(a, b))
    case Div => if IsConst(b, 0) then None else HandleDivision(TruncMode, a, b, bits)
    case FloorDivOp => if IsConst(b, 0) then None else HandleDivision(FloorMode, a, b, bits)
    case Mod => ModBoundary(a, b, bits)
    case FloorModOp => FloorModBoundary(a, b, bits)
    case MinOp => Some(Entry(Min(a.min, b.min), Min(a.max, b.max)))
    case MaxOp => Some(Entry(Max(a.min, b.min), Max(a.max, b.max)))
    case _ => Some(EITHER)
  }

  predicate Arithmetic(op: BinOp) { op in {Add, Sub, Mul, Div, Mod, FloorDivOp, FloorModOp, MinOp, MaxOp} }
  predicate HasDivisor(op: BinOp) { op in {Div, Mod, FloorDivOp, FloorModOp} }

  /** Extra knowledge about an expression, from an active constraint. */
  datatype BoundInfo = BoundInfo(expr: Expr, bound: Entry)

  /** Intersects with everything known about e. */
  function Refined(res: Entry, e: Expr, infos: seq<BoundInfo>): Entry
    decreases |infos|
  {
    if |infos| == 0 then res
    else Refined(if infos[0].expr == e then Intersect(res, infos[0].bound) else res, e, infos[1..])
  }

  type Bindings = map<nat, Entry>

  /** VisitExpr: the bound of e; None when a check fails. */
  function Visit(e: Expr, vars: Bindings, infos: seq<BoundInfo>, bits: nat): Option<Entry> {
    var res :=
      match e
      case Var(v) => Some(if v in vars then vars[v] else Everything(bits))
      case IntImm(n) => Some(MakeBound(n, n))
      case Bin(op, x, y) =>
        if Arithmetic(op) then
          var a, b := Visit(x, vars, infos, bits), Visit(y, vars, infos, bits);
          if a.Some? && b.Some? then BinBound(op, a.value, b.value, bits) else None
        else Some(EITHER)
      case Not(_) => Some(EITHER)
      case Select(_, t, f) =>
        var a, b := Visit(t, vars, infos, bits), Visit(f, vars, infos, bits);
        if a.Some? && b.Some? then Some(Union(a.value, b.value)) else None;
    if res.Some? then Some(Refined(res.value, e, infos)) else None
  }

  // ----- soundness ---------------------------------------------------------------------------

  predicate InType(x: int, bits: nat) { Covers(Everything(bits), x) }

  /** Every subexpression stays in its type and no divisor is zero. */
  predicate Proper(e: Expr, env: Env, bits: nat) {
    match e
    case Var(_) => InType(Eval(e, env), bits)
    case IntImm(_) => InType(Eval(e, env), bits)
    case Bin(op, x, y) =>
      Arithmetic(op) ==>
        InType(Eval(e, env), bits) && Proper(x, env, bits) && Proper(y, env, bits) &&
          (HasDivisor(op) ==> Eval(y, env) != 0)
    case Not(_) => true
    case Select(_, t, f) => InType(Eval(e, env), bits) && Proper(t, env, bits) && Proper(f, env, bits)
  }

  ghost predicate KnownVars(vars: Bindings, env: Env) { forall v :: v in vars ==> Covers(vars[v], Get(env, v)) }

  ghost predicate KnownInfos(infos: seq<BoundInfo>, env: Env) {
    forall i :: 0 <= i < |infos| ==> infos[i].bound.min <= Eval(infos[i].expr, env) <= infos[i].bound.max
  }

  /** A value is within the refined bound exactly if it is within the bound and everything known about e. */
  lemma {:induction false} RefinedExact(res: Entry, e: Expr, infos: seq<BoundInfo>, x: int)
    ensures Inside(Refined(res, e, infos), x) <==>
            Inside(res, x) && forall i :: 0 <= i < |infos| && infos[i].expr == e ==> Inside(infos[i].bound, x)
    decreases |infos|
  {
    if |infos| > 0 {
      var next := if infos[0].expr == e then Intersect(res, infos[0].bound) else res;
      RefinedExact(next, e, infos[1..], x);
      assert forall i :: 0 <= i < |infos[1..]| ==> infos[1..][i] == infos[i + 1];
      assert forall i :: 0 < i < |infos| ==> infos[i] == infos[1..][i - 1];
    }
  }

  lemma {:induction false} RefinedSound(res: Entry, e: Expr, infos: seq<BoundInfo>, env: Env)
    requires Covers(res, Eval(e, env)) && KnownInfos(infos, env)
    ensures Covers(Refined(res, e, infos), Eval(e, env))
    decreases |infos|
  {
    if |infos| > 0 {
      var next := if infos[0].expr == e then Intersect(res, infos[0].bound) else res;
      RefinedSound(next, e, infos[1..], env);
    }
  }

  lemma {:induction false} EitherCovers(e: Entry, f: Entry, x: int)
    requires NEG_INF < x < POS_INF && (e.min <= x <= e.max || f.min <= x <= f.max)
    requires NEG_INF <= e.min && e.max <= POS_INF && NEG_INF <= f.min && f.max <= POS_INF
    ensures Covers(MakeBound(Min(e.min, f.min), Max(e.max, f.max)), x)
  {}

  lemma {:induction false} HandleDivisionSound(mode: DivMode, a: Entry, b: Entry, bits: nat, x: int, y: int)
    requires Covers(a, x) && Covers(b, y) && y != 0 && bits >= 2 && NEG_INF < DivBy(mode, x, y) < POS_INF
    ensures HandleDivision(mode, a, b, bits).Some? && Covers(HandleDivision(mode, a, b, bits).value, DivBy(mode, x, y))
  {
    if b.min <= 0 <= b.max {
      var neg := if b.min < 0 then MakeBound(b.min, -1) else Everything(bits);
      var pos := if b.max > 0 then MakeBound(1, b.max) else Everything(bits);
      DivBoundaryRange(mode, a, neg, x);
      DivBoundaryRange(mode, a, pos, x);
      if y < 0 { DivBoundarySound(mode, a, neg, x, y); } else { DivBoundarySound(mode, a, pos, x, y); }
      EitherCovers(DivBoundary(mode, a, neg), DivBoundary(mode, a, pos), DivBy(mode, x, y));
    } else {
      DivBoundaryRange(mode, a, b, x);
      DivBoundarySound(mode, a, b, x, y);
    }
  }

  lemma {:induction false} ModBoundarySound(a: Entry, b: Entry, bits: nat, x: int, y: int)
    requires Covers(a, x) && Covers(b, y) && y != 0 && InType(TruncMod(x, y), bits)
    ensures ModBoundary(a, b, bits).Some? && Covers(ModBoundary(a, b, bits).value, TruncMod(x, y))
  {
    TruncModBound(x, y);
    ModShrinks(x, y);
  }

  lemma {:induction false} ModShrinks(x: int, y: int)
    requires y != 0
    ensures Abs(TruncMod(x, y)) <= Abs(x)
    ensures y > 0 && 0 <= x < y ==> TruncMod(x, y) == x && FloorMod(x, y) == x
    ensures y > 0 && x >= 0 ==> FloorMod(x, y) <= x
  {
    var q, r := Abs(x) / Abs(y), Abs(x) % Abs(y);
    assert Abs(x) == q * Abs(y) + r;
    if q < 0 { MulLe(q, -1, Abs(y)); }
    MulLe(0, if q >= 0 then q else 0, Abs(y));
    if y > 0 && 0 <= x < y { DivModUnique(x, y, 0, x); }
  }

  lemma {:induction false} FloorModBoundarySound(a: Entry, b: Entry, bits: nat, x: int, y: int)
    requires Covers(a, x) && Covers(b, y) && y != 0 && InType(FloorMod(x, y), bits)
    ensures FloorModBoundary(a, b, bits).Some? && Covers(FloorModBoundary(a, b, bits).value, FloorMod(x, y))
  {
    FloorModBound(x, y);
    ModShrinks(x, y);
  }

  lemma {:induction false} BinBoundSound(op: BinOp, a: Entry, b: Entry, bits: nat, x: int, y: int)
    requires Arithmetic(op) && Covers(a, x) && Covers(b, y) && (HasDivisor(op) ==> y != 0)
    requires bits >= 2 && InType(EvalBin(op, x, y), bits)
    ensures BinBound(op, a, b, bits).Some? && Covers(BinBound(op, a, b, bits).value, EvalBin(op, x, y))
  {
    match op
    case Add =>
      AddLow(a.min, b.min, x, y);
      AddHigh(a.max, b.max, x, y);
    case Sub =>
      AddLow(a.min, -b.max, x, -y);
      AddHigh(a.max, -b.min, x, -y);
    case Mul => MulBoundarySound(a, b, x, y);
    case Div => HandleDivisionSound(TruncMode, a, b, bits, x, y);
    case FloorDivOp => HandleDivisionSound(FloorMode, a, b, bits, x, y);
    case Mod => ModBoundarySound(a, b, bits, x, y);
    case FloorModOp => FloorModBoundarySound(a, b, bits, x, y);
    case _ =>
  }

  /** Every check passes, and the value is within the bound. */
  lemma {:induction false} VisitSound(e: Expr, vars: Bindings, infos: seq<BoundInfo>, bits: nat, env: Env)
    requires bits >= 2 && Proper(e, env, bits) && KnownVars(vars, env) && KnownInfos(infos, env)
    ensures Visit(e, vars, infos, bits).Some? && Covers(Visit(e, vars, infos, bits).value, Eval(e, env))
  {
    match e {
      case Var(v) =>
        RefinedSound(if v in vars then vars[v] else Everything(bits), e, infos, env);
      case IntImm(n) =>
        RefinedSound(MakeBound(n, n), e, infos, env);
      case Bin(op, x, y) =>
        if Arithmetic(op) {
          VisitSound(x, vars, infos, bits, env);
          VisitSound(y, vars, infos, bits, env);
          var a, b := Visit(x, vars, infos, bits).value, Visit(y, vars, infos, bits).value;
          BinBoundSound(op, a, b, bits, Eval(x, env), Eval(y, env));
          RefinedSound(BinBound(op, a, b, bits).value, e, infos, env);
        } else {
          RefinedSound(EITHER, e, infos, env);
        }
      case Not(_) =>
        RefinedSound(EITHER, e, infos, env);
      case Select(_, t, f) =>
        VisitSound(t, vars, infos, bits, env);
        VisitSound(f, vars, infos, bits, env);
        RefinedSound(Union(Visit(t, vars, infos, bits).value, Visit(f, vars, infos, bits).value), e, infos, env);
    }
  }

  // ----- tightness ---------------------------------------------------------------------------

  predicate Finite(e: Entry) { NEG_INF < e.min <= e.max < POS_INF }

  /** The bound is exact: for sums, products, minima and maxima, for a quotient unless the divisor's range
      ends at zero, and for a remainder by a positive divisor if the dividend is below it or can be 0. */
  predicate Exact(op: BinOp, a: Entry, b: Entry) {
    || op in {Add, Sub, Mul, MinOp, MaxOp}
    || (op in {Div, FloorDivOp} && b.min != 0 && b.max != 0)
    || (op in {Mod, FloorModOp} && b.min > 0 && (a.min <= 0 <= a.max || (0 <= a.min && a.max < b.min)))
  }

  /** A corner of the operands. */
  predicate AtCorner(a: Entry, b: Entry, x: int, y: int) {
    (x == a.min || x == a.max) && (y == b.min || y == b.max)
  }

  /** The ends are reached at corners. */
  predicate ExactAtCorners(op: BinOp, b: Entry) {
    op in {Add, Sub, Mul, MinOp, MaxOp} || (op in {Div, FloorDivOp} && (b.min > 0 || b.max < 0))
  }

  /** The operands reach the ends of the bound, unless these saturate. */
  predicate Reach(op: BinOp, r: Entry, x: int, y: int, x': int, y': int) {
    && (NEG_INF < r.min < POS_INF ==> EvalBin(op, x, y) == r.min)
    && (NEG_INF < r.max < POS_INF ==> EvalBin(op, x', y') == r.max)
  }

  /** Operands within their bounds reach the ends of the bound, at corners where the operator is exact there. */
  predicate Attains(op: BinOp, a: Entry, b: Entry, bits: nat, x: int, y: int, x': int, y': int) {
    && Inside(a, x) && Inside(b, y) && Inside(a, x') && Inside(b, y') && (HasDivisor(op) ==> y != 0 && y' != 0)
    && (ExactAtCorners(op, b) ==> AtCorner(a, b, x, y) && AtCorner(a, b, x', y'))
    && BinBound(op, a, b, bits).Some? && Reach(op, BinBound(op, a, b, bits).value, x, y, x', y')
  }

  /** Both ends of an exact bound are reached by operands within theirs, unless they saturate. */
  lemma {:induction false} BinBoundTight(op: BinOp, a: Entry, b: Entry, bits: nat)
    returns (x: int, y: int, x': int, y': int)
    requires Finite(a) && Finite(b) && Exact(op, a, b)
    ensures Attains(op, a, b, bits, x, y, x', y')
  {
    if op in {Add, Sub, MinOp, MaxOp} {
      x, y, x', y' := LinearTight(op, a, b, bits);
    } else if op == Mul {
      x, y, x', y' := MulTight(a, b);
    } else if op in {Div, FloorDivOp} {
      x, y, x', y' := QuotientTight(op, a, b, bits);
    } else {
      x, y, x', y' := RemainderTight(op, a, b, bits);
    }
  }

  lemma {:induction false} LinearTight(op: BinOp, a: Entry, b: Entry, bits: nat)
    returns (x: int, y: int, x': int, y': int)
    requires Finite(a) && Finite(b) && Exact(op, a, b) && op in {Add, Sub, MinOp, MaxOp}
    ensures Attains(op, a, b, bits, x, y, x', y')
  {
    x, y, x', y' := a.min, if op == Sub then b.max else b.min, a.max, if op == Sub then b.min else b.max;
  }

  lemma {:induction false} QuotientTight(op: BinOp, a: Entry, b: Entry, bits: nat)
    returns (x: int, y: int, x': int, y': int)
    requires Finite(a) && Finite(b) && Exact(op, a, b) && op in {Div, FloorDivOp}
    ensures Attains(op, a, b, bits, x, y, x', y')
  {
    var mode := if op == Div then TruncMode else FloorMode;
    x, y, x', y' := DivisionTight(mode, a, b, bits);
    QuotientReaches(op, mode, HandleDivision(mode, a, b, bits).value, x, y, x', y');
  }

  lemma {:induction false} QuotientReaches(op: BinOp, mode: DivMode, r: Entry, x: int, y: int, x': int, y': int)
    requires op == (if mode == TruncMode then Div else FloorDivOp) && y != 0 && y' != 0
    requires DivBy(mode, x, y) == r.min && DivBy(mode, x', y') == r.max
    ensures Reach(op, r, x, y, x', y')
  {}

  lemma {:induction false} RemainderTight(op: BinOp, a: Entry, b: Entry, bits: nat)
    returns (x: int, y: int, x': int, y': int)
    requires Finite(a) && Finite(b) && Exact(op, a, b) && op in {Mod, FloorModOp}
    ensures Attains(op, a, b, bits, x, y, x', y')
  {
    if op == Mod { x, y, x', y' := ModTight(a, b, bits); } else { x, y, x', y' := FloorModTight(a, b, bits); }
  }

  lemma {:induction false} DivisionTight(mode: DivMode, a: Entry, b: Entry, bits: nat)
    returns (x: int, y: int, x': int, y': int)
    requires Finite(a) && Finite(b) && b.min != 0 && b.max != 0
    ensures HandleDivision(mode, a, b, bits).Some?
    ensures Inside(a, x) && Inside(b, y) && y != 0 && DivBy(mode, x, y) == HandleDivision(mode, a, b, bits).value.min
    ensures Inside(a, x') && Inside(b, y') && y' != 0
    ensures y' != 0 && DivBy(mode, x', y') == HandleDivision(mode, a, b, bits).value.max
    ensures b.min > 0 || b.max < 0 ==> AtCorner(a, b, x, y) && AtCorner(a, b, x', y')
  {
    if b.min < 0 < b.max {
      var neg, pos := Entry(b.min, -1), Entry(1, b.max);
      x, y, x', y' := AroundZero(mode, a, neg, pos);
      QuotientFinite(mode, a, x, y);
      QuotientFinite(mode, a, x', y');
      assert HandleDivision(mode, a, b, bits).value ==
             MakeBound(LeastOf(mode, a, neg, pos), GreatestOf(mode, a, neg, pos));
    } else {
      x, y, x', y' := DivTight(mode, a, b);
    }
  }

  function LeastOf(mode: DivMode, a: Entry, neg: Entry, pos: Entry): int
    requires neg.min <= neg.max < 0 < pos.min <= pos.max
  {
    Min(DivBoundary(mode, a, neg).min, DivBoundary(mode, a, pos).min)
  }

  function GreatestOf(mode: DivMode, a: Entry, neg: Entry, pos: Entry): int
    requires neg.min <= neg.max < 0 < pos.min <= pos.max
  {
    Max(DivBoundary(mode, a, neg).max, DivBoundary(mode, a, pos).max)
  }

  lemma {:induction false} AroundZero(mode: DivMode, a: Entry, neg: Entry, pos: Entry)
    returns (x: int, y: int, x': int, y': int)
    requires Finite(a) && Finite(neg) && Finite(pos) && neg.max < 0 < pos.min
    ensures Inside(a, x) && (Inside(neg, y) || Inside(pos, y)) && DivBy(mode, x, y) == LeastOf(mode, a, neg, pos)
    ensures Inside(a, x') && (Inside(neg, y') || Inside(pos, y')) &&
            DivBy(mode, x', y') == GreatestOf(mode, a, neg, pos)
  {
    var nx, ny, nx', ny' := DivTight(mode, a, neg);
    var px, py, px', py' := DivTight(mode, a, pos);
    if DivBy(mode, nx, ny) <= DivBy(mode, px, py) { x, y := nx, ny; } else { x, y := px, py; }
    if DivBy(mode, nx', ny') >= DivBy(mode, px', py') { x', y' := nx', ny'; } else { x', y' := px', py'; }
  }

  lemma {:induction false} QuotientFinite(mode: DivMode, a: Entry, x: int, y: int)
    requires Finite(a) && Inside(a, x) && y != 0
    ensures NEG_INF < DivBy(mode, x, y) < POS_INF
  {
    DivShrinks(mode, x, y);
  }

  lemma {:induction false} SmallMod(x: int, y: int)
    requires 0 <= x < y
    ensures TruncMod(x, y) == x && FloorMod(x, y) == x
    ensures TruncMod(-x, y) == -x && (x > 0 ==> FloorMod(-x, y) == y - x)
  {
    ModShrinks(x, y);
    if x > 0 { FloorDivModUnique(-x, y, -1, y - x); }
  }

  lemma {:induction false} ModTight(a: Entry, b: Entry, bits: nat) returns (x: int, y: int, x': int, y': int)
    requires Finite(a) && Finite(b) && b.min > 0 && (a.min <= 0 <= a.max || (0 <= a.min && a.max < b.min))
    ensures ModBoundary(a, b, bits).Some?
    ensures Inside(a, x) && Inside(b, y) && TruncMod(x, y) == ModBoundary(a, b, bits).value.min
    ensures Inside(a, x') && Inside(b, y') && TruncMod(x', y') == ModBoundary(a, b, bits).value.max
  {
    y, y' := b.max, b.max;
    if 0 <= a.min && a.max < b.min {
      x, x' := a.min, a.max;
      SmallMod(x, y);
    } else {
      x, x' := Max(a.min, -(b.max - 1)), Min(a.max, b.max - 1);
      SmallMod(-x, y);
    }
    SmallMod(x', y');
  }

  lemma {:induction false} FloorModTight(a: Entry, b: Entry, bits: nat) returns (x: int, y: int, x': int, y': int)
    requires Finite(a) && Finite(b) && b.min > 0 && (a.min <= 0 <= a.max || (0 <= a.min && a.max < b.min))
    ensures FloorModBoundary(a, b, bits).Some?
    ensures Inside(a, x) && Inside(b, y) && FloorMod(x, y) == FloorModBoundary(a, b, bits).value.min
    ensures Inside(a, x') && Inside(b, y') && FloorMod(x', y') == FloorModBoundary(a, b, bits).value.max
  {
    y, y' := b.max, b.max;
    if 0 <= a.min && a.max < b.min {
      x, x' := a.min, a.max;
    } else {
      x, x' := 0, if a.min < 0 && b.max > 1 then -1 else Min(a.max, b.max - 1);
    }
    SmallMod(x, y);
    SmallMod(Abs(x'), y');
  }

  /** A truncated remainder by a positive divisor is below it in magnitude, on the side of the dividend and
      no further from 0; it is the dividend if that is below the divisor. */
  lemma {:induction false} ModShape(a: Entry, b: Entry, bits: nat)
    requires Finite(a) && Finite(b) && b.min > 0
    ensures ModBoundary(a, b, bits).Some?
    ensures var r := ModBoundary(a, b, bits).value;
            && -(b.max - 1) <= r.min && r.max <= b.max - 1 && Min(a.min, 0) <= r.min && r.max <= Max(a.max, 0)
            && (a.min >= 0 ==> r.min >= 0) && (0 <= a.min && a.max < b.min ==> r == a)
  {}

  /** A floored remainder is between 0 and the divisor, whatever its sign; by a positive divisor it is not
      above a dividend that is not negative, and is the dividend if that is below the divisor. */
  lemma {:induction false} FloorModShape(a: Entry, b: Entry, bits: nat)
    requires Finite(a) && Finite(b) && !IsConst(b, 0)
    ensures FloorModBoundary(a, b, bits).Some?
    ensures var r := FloorModBoundary(a, b, bits).value;
            && Min(0, b.min + 1) <= r.min && r.max <= Max(0, b.max - 1)
            && (b.min > 0 && a.min >= 0 ==> r.max <= a.max)
            && (b.min > 0 && 0 <= a.min && a.max < b.min ==> r == a)
  {}

  /** By divisors of any sign the ends are reached if the dividend can be -1, 0 and 1. */
  lemma {:induction false} FloorModAnySign(a: Entry, b: Entry, bits: nat) returns (x: int, y: int, x': int, y': int)
    requires Finite(a) && Finite(b) && a.min < 0 < a.max && !IsConst(b, 0)
    requires Everything(bits).min <= b.min && b.max <= Everything(bits).max && (b.min < 0 || b.max > 0)
    ensures FloorModBoundary(a, b, bits).Some?
    ensures Inside(a, x) && Inside(b, y) && y != 0 && FloorMod(x, y) == FloorModBoundary(a, b, bits).value.min
    ensures Inside(a, x') && Inside(b, y') && y' != 0 && FloorMod(x', y') == FloorModBoundary(a, b, bits).value.max
  {
    var any := if b.min != 0 then b.min else b.max;
    x, y, x', y' := 0, any, 0, any;
    FloorDivModUnique(0, any, 0, 0);
    if b.min < -1 {
      x, y := 1, b.min;
      FloorDivModUnique(1, b.min, -1, 1 + b.min);
    }
    if b.max > 1 {
      x', y' := -1, b.max;
      SmallMod(1, b.max);
    }
  }

  lemma {:induction false} MulTight(a: Entry, b: Entry) returns (x: int, y: int, x': int, y': int)
    ensures AtCorner(a, b, x, y) && AtCorner(a, b, x', y')
    ensures NEG_INF < MulBoundary(a, b).min < POS_INF ==> x * y == MulBoundary(a, b).min
    ensures NEG_INF < MulBoundary(a, b).max < POS_INF ==> x' * y' == MulBoundary(a, b).max
  {
    x, y := LeastCorner(a, b, InfAwareMul);
    x', y' := GreatestCorner(a, b, InfAwareMul);
    MulClamps(x, y);
    MulClamps(x', y');
  }

  lemma {:induction false} DivTight(mode: DivMode, a: Entry, b: Entry) returns (x: int, y: int, x': int, y': int)
    requires Finite(a) && Finite(b) && (b.min > 0 || b.max < 0)
    ensures AtCorner(a, b, x, y) && AtCorner(a, b, x', y')
    ensures DivBy(mode, x, y) == DivBoundary(mode, a, b).min && DivBy(mode, x', y') == DivBoundary(mode, a, b).max
  {
    var f := (p, q) => if q == 0 then 0 else InfAwareDiv(mode, p, q);
    x, y := LeastCorner(a, b, f);
    x', y' := GreatestCorner(a, b, f);
    assert f(x, y) == DivBy(mode, x, y) && f(x', y') == DivBy(mode, x', y');
  }

  lemma {:induction false} LeastCorner(a: Entry, b: Entry, f: (int, int) -> int) returns (x: int, y: int)
    ensures (x == a.min || x == a.max) && (y == b.min || y == b.max)
    ensures f(x, y) == Hull(f(a.min, b.min), f(a.max, b.max), f(a.min, b.max), f(a.max, b.min)).min
  {
    x, y := a.min, b.min;
    if f(a.max, b.max) < f(x, y) { x, y := a.max, b.max; }
    if f(a.min, b.max) < f(x, y) { x, y := a.min, b.max; }
    if f(a.max, b.min) < f(x, y) { x, y := a.max, b.min; }
  }

  lemma {:induction false} GreatestCorner(a: Entry, b: Entry, f: (int, int) -> int) returns (x: int, y: int)
    ensures (x == a.min || x == a.max) && (y == b.min || y == b.max)
    ensures f(x, y) == Hull(f(a.min, b.min), f(a.max, b.max), f(a.min, b.max), f(a.max, b.min)).max
  {
    x, y := a.min, b.min;
    if f(a.max, b.max) > f(x, y) { x, y := a.max, b.max; }
    if f(a.min, b.max) > f(x, y) { x, y := a.min, b.max; }
    if f(a.max, b.min) > f(x, y) { x, y := a.max, b.min; }
  }

  // ----- bounds from a constraint ------------------------------------------------------------

  /** DetectBoundInfo */
  function DetectBoundInfo(cond: Expr): seq<BoundInfo> {
    match cond
    case Bin(op, a, b) =>
      if op == LE && a.IntImm? then [BoundInfo(b, MakeBound(a.value, POS_INF))]
      else if op == LT && a.IntImm? then [BoundInfo(b, MakeBound(a.value + 1, POS_INF))]
      else if op == LE && b.IntImm? then [BoundInfo(a, MakeBound(NEG_INF, b.value))]
      else if op == LT && b.IntImm? then [BoundInfo(a, MakeBound(NEG_INF, b.value - 1))]
      else if op == And then DetectBoundInfo(a) + DetectBoundInfo(b)
      else []
    case _ => []
  }

  /** The compared expressions stay between the infinities. */
  predicate ProperConstraint(cond: Expr, env: Env) {
    match cond
    case Bin(op, a, b) =>
      if op == And then ProperConstraint(a, env) && ProperConstraint(b, env)
      else NEG_INF < Eval(a, env) < POS_INF && NEG_INF < Eval(b, env) < POS_INF
    case _ => true
  }

  /** What is detected holds wherever the constraint does. */
  lemma {:induction false} DetectSound(cond: Expr, env: Env)
    requires Holds(cond, env) && ProperConstraint(cond, env)
    ensures KnownInfos(DetectBoundInfo(cond), env)
  {
    match cond
    case Bin(op, a, b) =>
      if op == And {
        DetectSound(a, env);
        DetectSound(b, env);
      }
    case _ =>
  }

  /** A comparison with a literal by `<=` or `<`, or a conjunction of such; a strict one not next to an
      infinity, where the bound gives way. */
  predicate ComparesLiterals(cond: Expr) {
    cond.Bin? &&
    match cond.op
    case And => ComparesLiterals(cond.a) && ComparesLiterals(cond.b)
    case LE => cond.a.IntImm? || cond.b.IntImm?
    case LT => if cond.a.IntImm? then cond.a.value != POS_INF - 1 else cond.b.IntImm? && cond.b.value != NEG_INF + 1
    case _ => false
  }

  /** Next to the infinity a strict comparison is detected as one that is not strict. */
  lemma {:induction false} DetectAtInfinity(env: Env)
    requires Get(env, 0) == POS_INF - 1
    ensures var cond := Bin(LT, IntImm(POS_INF - 1), Var(0));
            ProperConstraint(cond, env) && KnownInfos(DetectBoundInfo(cond), env) && !Holds(cond, env)
  {
    assert Eval(Var(0), env) == POS_INF - 1;
  }

  /** Of those everything is detected. */
  lemma {:induction false} DetectExact(cond: Expr, env: Env)
    requires ProperConstraint(cond, env) && ComparesLiterals(cond)
    ensures KnownInfos(DetectBoundInfo(cond), env) <==> Holds(cond, env)
  {
    if cond.op == And {
      DetectExact(cond.a, env);
      DetectExact(cond.b, env);
      KnownConcat(DetectBoundInfo(cond.a), DetectBoundInfo(cond.b), env);
      assert Eval(cond, env) == EvalBin(And, Eval(cond.a, env), Eval(cond.b, env));
    } else {
      var infos := DetectBoundInfo(cond);
      assert |infos| == 1;
      assert Eval(cond, env) == EvalBin(cond.op, Eval(cond.a, env), Eval(cond.b, env));
      assert KnownInfos(infos, env) <==> Inside(infos[0].bound, Eval(infos[0].expr, env));
    }
  }

  lemma {:induction false} KnownConcat(a: seq<BoundInfo>, b: seq<BoundInfo>, env: Env)
    ensures KnownInfos(a + b, env) <==> KnownInfos(a, env) && KnownInfos(b, env)
  {
    var all := a + b;
    assert forall i :: 0 <= i < |a| ==> all[i] == a[i];
    assert forall i :: 0 <= i < |b| ==> all[|a| + i] == b[i];
    if KnownInfos(a, env) && KnownInfos(b, env) {
      forall i | 0 <= i < |all| ensures Inside(all[i].bound, Eval(all[i].expr, env)) {
        if i >= |a| { assert all[i] == b[i - |a|]; }
      }
    }
    if KnownInfos(all, env) {
      forall i | 0 <= i < |b| ensures Inside(b[i].bound, Eval(b[i].expr, env)) { assert all[|a| + i] == b[i]; }
    }
  }
}
