/** Split expressions ((index % upper) / lower) * scale and their division and remainder by a
    constant (src/arith/canonical_simplify.cc). */
module CanonicalSplit {
  import opened IntOperator
  import opened PrimExprs
  import opened DivModes

  /** The upper factor; kPosInf stands for none. */
  datatype Upper = NoUpper | UpTo(n: int)

  datatype Split = Split(index: Expr, lower: int, upper: Upper, scale: int, mode: DivMode)

  /** Verify, for positive factors. */
  predicate Verified(s: Split) {
    s.lower > 0 && (s.upper.NoUpper? || (s.upper.n > 0 && s.upper.n % s.lower == 0))
  }

  /** x % upper */
  function Modded(mode: DivMode, x: int, upper: Upper): int {
    if upper.NoUpper? || upper.n == 0 then x else ModBy(mode, x, upper.n)
  }

  /** (x % upper) / lower */
  function Part(mode: DivMode, x: int, lower: int, upper: Upper): int {
    if lower == 0 then 0 else DivBy(mode, Modded(mode, x, upper), lower)
  }

  function ValueOf(s: Split, env: Env): int {
    Part(s.mode, Eval(s.index, env), s.lower, s.upper) * s.scale
  }

  function DivImpl(a: Expr, c: int, mode: DivMode): Expr {
    Bin(if mode == TruncMode then Div else FloorDivOp, a, IntImm(c))
  }

  function ModImpl(a: Expr, c: int, mode: DivMode): Expr {
    Bin(if mode == TruncMode then Mod else FloorModOp, a, IntImm(c))
  }

  lemma {:induction false} ImplEval(a: Expr, c: int, mode: DivMode, env: Env)
    requires c != 0
    ensures Eval(DivImpl(a, c, mode), env) == DivBy(mode, Eval(a, env), c)
    ensures Eval(ModImpl(a, c, mode), env) == ModBy(mode, Eval(a, env), c)
  {
    assert Eval(IntImm(c), env) == c;
  }

  // ----- conversions -------------------------------------------------------------------------

  /** (index % upper) / lower, without the factors that do nothing. */
  function Unscaled(s: Split): Expr {
    var modded := if s.upper.UpTo? then ModImpl(s.index, s.upper.n, s.mode) else s.index;
    if s.lower != 1 then DivImpl(modded, s.lower, s.mode) else modded
  }

  /** NormalizeWithScale: the split as a plain expression. */
  function NormalizeWithScale(s: Split, k: int): Expr {
    if s.scale == 0 then IntImm(0)
    else if k * s.scale != 1 then Bin(Mul, Unscaled(s), IntImm(k * s.scale))
    else Unscaled(s)
  }

  lemma {:induction false} DivByOne(mode: DivMode, x: int)
    ensures DivBy(mode, x, 1) == x
  {
    DivExact(mode, x, 1);
  }

  lemma {:induction false} UnscaledEval(s: Split, env: Env)
    requires s.lower != 0 && s.upper != UpTo(0)
    ensures Eval(Unscaled(s), env) == Part(s.mode, Eval(s.index, env), s.lower, s.upper)
  {
    var modded := if s.upper.UpTo? then ModImpl(s.index, s.upper.n, s.mode) else s.index;
    if s.upper.UpTo? { ImplEval(s.index, s.upper.n, s.mode, env); }
    ImplEval(modded, s.lower, s.mode, env);
    DivByOne(s.mode, Eval(modded, env));
  }

  lemma {:induction false} NormalizeWithScaleEval(s: Split, k: int, env: Env)
    requires s.lower != 0 && s.upper != UpTo(0)
    ensures Eval(NormalizeWithScale(s, k), env) == k * ValueOf(s, env)
  {
    UnscaledEval(s, env);
    Rescaled(Part(s.mode, Eval(s.index, env), s.lower, s.upper), s.scale, k);
    assert Eval(IntImm(k * s.scale), env) == k * s.scale;
  }

  lemma {:induction false} Rescaled(y: int, scale: int, k: int)
    ensures y * (k * scale) == k * (y * scale) && (scale == 0 ==> k * (y * scale) == 0)
    ensures k * scale == 1 ==> k * (y * scale) == y
  {
    MulAssoc(y, k, scale);
    MulAssoc(k, y, scale);
  }

  /** ToSplitExpr of a plain expression. */
  function ToSplit(e: Expr): Split { Split(e, 1, NoUpper, 1, TruncMode) }

  /** DivModeCompatibleTo */
  predicate Compatible(s: Split, mode: DivMode) { s.mode == mode || (s.lower == 1 && s.upper.NoUpper?) }

  function ConvertDivMode(s: Split, mode: DivMode): Split {
    if s.mode == mode then s
    else if Compatible(s, mode) then s.(mode := mode)
    else ToSplit(NormalizeWithScale(s, 1)).(mode := mode)
  }

  /** Converting the mode keeps the value. */
  lemma {:induction false} ConvertKeepsValue(s: Split, mode: DivMode, env: Env)
    requires Verified(s)
    ensures ValueOf(ConvertDivMode(s, mode), env) == ValueOf(s, env)
    ensures Verified(ConvertDivMode(s, mode)) && ConvertDivMode(s, mode).mode == mode
  {
    NormalizeWithScaleEval(s, 1, env);
    DivByOne(mode, Eval(s.index, env));
    DivByOne(s.mode, Eval(s.index, env));
    DivByOne(mode, Eval(NormalizeWithScale(s, 1), env));
  }

  // ----- division by a constant --------------------------------------------------------------

  /** C's a % d == 0. */
  predicate Multiple(a: int, d: int) { d != 0 && a % d == 0 }

  /** SplitDivConst */
  function SplitDivConst(s0: Split, c: int, mode: DivMode): Split
    requires c > 0
  {
    var s := ConvertDivMode(s0, mode);
    if Multiple(s.scale, c) then
      s.(scale := TruncDiv(s.scale, c))
    else if Multiple(c, s.scale) then
      var lower := s.lower * TruncDiv(c, s.scale);
      if s.upper.NoUpper? || Multiple(s.upper.n, lower) then s.(scale := 1, lower := lower)
      else if s.upper.n <= lower then ToSplit(IntImm(0))
      else Split(ModImpl(s.index, s.upper.n, mode), lower, NoUpper, 1, mode)
    else
      Split(NormalizeWithScale(s, 1), c, NoUpper, 1, mode)
  }

  /** Exact quotients. */
  lemma {:induction false} ExactQuotient(a: int, d: int)
    requires Multiple(a, d)
    ensures a == TruncDiv(a, d) * d
    ensures a > 0 && d > 0 ==> TruncDiv(a, d) > 0
  {
    assert a == (a / d) * d;
    TruncModBound(a, d);
    TruncDivExact(a / d, d);
    if a > 0 && d > 0 && a / d <= 0 { MulLe(a / d, 0, d); }
  }

  /** Division of the shape ((x % u) / l) * (scale) by c = scale * d. */
  lemma {:induction false} FoldedDivision(mode: DivMode, x: int, l: int, scale: int, d: int)
    requires l > 0 && scale > 0 && d > 0
    ensures scale * d > 0 && l * d > 0 && d * scale == scale * d
    ensures DivBy(mode, DivBy(mode, x, l) * scale, scale * d) == DivBy(mode, x, l * d)
  {
    ScaleBoth(mode, DivBy(mode, x, l), d, scale);
    DivDiv(mode, x, l, d);
  }

  /** The quotient is exact for every positive scale. */
  lemma {:induction false} SplitDivConstSound(s0: Split, c: int, mode: DivMode, env: Env)
    requires Verified(s0) && s0.scale > 0 && c > 0
    ensures ValueOf(SplitDivConst(s0, c, mode), env) == DivBy(mode, ValueOf(s0, env), c)
    ensures Verified(SplitDivConst(s0, c, mode))
  {
    ConvertKeepsValue(s0, mode, env);
    var s := ConvertDivMode(s0, mode);
    if Multiple(s.scale, c) {
      DivideScale(s, c, env);
    } else if Multiple(c, s.scale) {
      FoldDivision(s, c, env);
    } else {
      NormalizeWithScaleEval(s, 1, env);
    }
  }

  lemma {:induction false} DivideScale(s: Split, c: int, env: Env)
    requires c > 0 && Multiple(s.scale, c)
    ensures ValueOf(s.(scale := TruncDiv(s.scale, c)), env) == DivBy(s.mode, ValueOf(s, env), c)
    ensures ModBy(s.mode, ValueOf(s, env), c) == 0
  {
    var y := Part(s.mode, Eval(s.index, env), s.lower, s.upper);
    ExactQuotient(s.scale, c);
    MulAssoc(y, TruncDiv(s.scale, c), c);
    DivExact(s.mode, y * TruncDiv(s.scale, c), c);
  }

  lemma {:induction false} FoldDivision(s: Split, c: int, env: Env)
    requires Verified(s) && s.scale > 0 && c > 0 && !Multiple(s.scale, c) && Multiple(c, s.scale)
    ensures ValueOf(SplitDivConst(s, c, s.mode), env) == DivBy(s.mode, ValueOf(s, env), c)
    ensures Verified(SplitDivConst(s, c, s.mode))
  {
    var d := TruncDiv(c, s.scale);
    ExactQuotient(c, s.scale);
    var x := Eval(s.index, env);
    if s.upper.UpTo? { ModDividend(s, env); }
    var x' := Modded(s.mode, x, s.upper);
    FoldedDivision(s.mode, x', s.lower, s.scale, d);
    var lower := s.lower * d;
    if s.upper.NoUpper? || Multiple(s.upper.n, lower) {
    } else if s.upper.n <= lower {
      SmallDividend(s.mode, x', lower);
      DivByOne(TruncMode, 0);
    } else {
      ImplEval(s.index, s.upper.n, s.mode, env);
    }
  }

  lemma {:induction false} ModDividend(s: Split, env: Env)
    requires Verified(s) && s.upper.UpTo?
    ensures -s.upper.n < Modded(s.mode, Eval(s.index, env), s.upper) < s.upper.n
    ensures s.mode == FloorMode ==> Modded(s.mode, Eval(s.index, env), s.upper) >= 0
  {
    DivModIdentity(s.mode, Eval(s.index, env), s.upper.n);
  }

  // ----- remainder by a constant -------------------------------------------------------------

  /** A remainder by n of an index that already has a larger upper factor is simplified again. */
  predicate Resimplifies(s: Split, c: int) {
    !Multiple(s.scale, c) && Multiple(c, s.scale) &&
    var n := s.lower * TruncDiv(c, s.scale);
    s.upper.UpTo? && Multiple(s.upper.n, n) && n < s.upper.n
  }

  /** SplitModConst; visit is the recursive simplification of the new remainder. */
  function SplitModConst(s0: Split, c: int, mode: DivMode, visit: Expr -> Expr): Split
    requires c > 0
  {
    var s := ConvertDivMode(s0, mode);
    if Multiple(s.scale, c) then
      s.(scale := 0)
    else if Multiple(c, s.scale) && (s.upper.NoUpper? || Multiple(s.upper.n, s.lower * TruncDiv(c, s.scale))) then
      var n := s.lower * TruncDiv(c, s.scale);
      if s.upper.UpTo? && n < s.upper.n then
        var updated := ToSplit(visit(ModImpl(s.index, n, mode))).(scale := s.scale);
        if s.lower > 1 then SplitDivConst(updated, s.lower, mode) else updated
      else
        s.(upper := UpTo(n))
    else if Multiple(c, s.scale) && s.upper.UpTo? && Multiple(s.lower * TruncDiv(c, s.scale), s.upper.n) then
      s
    else
      Split(NormalizeWithScale(s, 1), 1, UpTo(c), 1, mode)
  }

  ghost predicate VisitSound(visit: Expr -> Expr) {
    forall e: Expr, env: Env :: Eval(visit(e), env) == Eval(e, env)
  }

  /** The new upper factor, negative for a negative scale. */
  function NewUpper(s: Split, c: int): int
    requires s.scale != 0
  {
    s.lower * TruncDiv(c, s.scale)
  }

  /** Where the remainder is exact. Simplifying again loses the order of the scale and the lower
      factor. A negative upper factor rounds the other way in floor mode, and so does a negative
      value that is left as it is. */
  predicate ModExact(s0: Split, c: int, mode: DivMode) {
    var s := ConvertDivMode(s0, mode);
    if s.scale >= 0 then Resimplifies(s, c) ==> s.scale == 1 || s.lower == 1
    else if Multiple(s.scale, c) || !Multiple(c, s.scale) then true
    else if s.upper.NoUpper? then mode == TruncMode || s.lower == 1
    else if Multiple(s.upper.n, NewUpper(s, c)) then s.lower == 1 || (mode == TruncMode && s.scale == -1)
    else if Multiple(NewUpper(s, c), s.upper.n) then mode == TruncMode || s.upper.n == s.lower
    else true
  }

  /** Remainder of the shape (x / l) * scale by c = scale * d. */
  lemma {:induction false} FoldedRemainder(mode: DivMode, x: int, l: int, scale: int, d: int)
    requires l > 0 && scale > 0 && d > 0
    ensures scale * d > 0 && l * d > 0 && d * scale == scale * d
    ensures ModBy(mode, DivBy(mode, x, l) * scale, scale * d) == DivBy(mode, ModBy(mode, x, l * d), l) * scale
  {
    ScaleBoth(mode, DivBy(mode, x, l), d, scale);
    ModDiv(mode, x, l, d);
  }

  /** For every scale the remainder is exact under the condition; for a positive one its factors
      verify. */
  lemma {:induction false} SplitModConstSound(s0: Split, c: int, mode: DivMode, visit: Expr -> Expr, env: Env)
    requires Verified(s0) && c > 0 && VisitSound(visit) && ModExact(s0, c, mode)
    ensures ValueOf(SplitModConst(s0, c, mode, visit), env) == ModBy(mode, ValueOf(s0, env), c)
    ensures s0.scale > 0 ==> Verified(SplitModConst(s0, c, mode, visit))
  {
    ConvertKeepsValue(s0, mode, env);
    var s := ConvertDivMode(s0, mode);
    if Multiple(s.scale, c) {
      DivideScale(s, c, env);
    } else if Multiple(c, s.scale) && s.scale > 0 {
      FoldRemainder(s, c, visit, env);
    } else if Multiple(c, s.scale) {
      NegativeRemainder(s, c, visit, env);
    } else {
      RemainderOfNormal(s, c, env);
    }
  }

  lemma {:induction false} RemainderOfNormal(s: Split, c: int, env: Env)
    requires Verified(s) && c > 0
    ensures ValueOf(Split(NormalizeWithScale(s, 1), 1, UpTo(c), 1, s.mode), env) == ModBy(s.mode, ValueOf(s, env), c)
    ensures Verified(Split(NormalizeWithScale(s, 1), 1, UpTo(c), 1, s.mode))
  {
    NormalizeWithScaleEval(s, 1, env);
    DivByOne(s.mode, ModBy(s.mode, ValueOf(s, env), c));
  }

  lemma {:induction false} FoldRemainder(s: Split, c: int, visit: Expr -> Expr, env: Env)
    requires Verified(s) && s.scale > 0 && c > 0 && VisitSound(visit)
    requires !Multiple(s.scale, c) && Multiple(c, s.scale)
    requires Resimplifies(s, c) ==> s.scale == 1 || s.lower == 1
    ensures ValueOf(SplitModConst(s, c, s.mode, visit), env) == ModBy(s.mode, ValueOf(s, env), c)
    ensures Verified(SplitModConst(s, c, s.mode, visit))
  {
    var d := TruncDiv(c, s.scale);
    ExactQuotient(c, s.scale);
    ProductPositive(s.lower, d);
    var n := s.lower * d;
    RemainderForm(s, c, d, env);
    if s.upper.NoUpper? || Multiple(s.upper.n, n) {
      SameRemainder(s.mode, Eval(s.index, env), s.upper, n);
      if s.upper.UpTo? && n < s.upper.n {
        Resimplified(s, c, n, visit, env);
      } else {
        LowerDivides(s.lower, d);
      }
    } else if Multiple(n, s.upper.n) {
      ModDividend(s, env);
      MultipleAtLeast(n, s.upper.n);
      SmallDividend(s.mode, Modded(s.mode, Eval(s.index, env), s.upper), n);
    } else {
      RemainderOfNormal(s, c, env);
    }
  }

  /** The remainder in terms of the new upper factor. */
  lemma {:induction false} RemainderForm(s: Split, c: int, d: int, env: Env)
    requires Verified(s) && s.scale > 0 && d > 0 && c == d * s.scale && s.lower * d > 0
    ensures c > 0
    ensures ModBy(s.mode, ValueOf(s, env), c) ==
            DivBy(s.mode, ModBy(s.mode, Modded(s.mode, Eval(s.index, env), s.upper), s.lower * d), s.lower) * s.scale
  {
    FoldedRemainder(s.mode, Modded(s.mode, Eval(s.index, env), s.upper), s.lower, s.scale, d);
  }

  lemma {:induction false} Resimplified(s: Split, c: int, n: int, visit: Expr -> Expr, env: Env)
    requires Verified(s) && s.scale > 0 && n > 0 && VisitSound(visit) && (s.scale == 1 || s.lower == 1)
    ensures var updated := ToSplit(visit(ModImpl(s.index, n, s.mode))).(scale := s.scale);
            var r := if s.lower > 1 then SplitDivConst(updated, s.lower, s.mode) else updated;
            ValueOf(r, env) == DivBy(s.mode, ModBy(s.mode, Eval(s.index, env), n), s.lower) * s.scale && Verified(r)
  {
    ResimplifiedValue(s, n, visit, env);
    DivByOne(s.mode, ModBy(s.mode, Eval(s.index, env), n));
  }

  lemma {:induction false} LowerDivides(l: int, d: int)
    requires l > 0
    ensures (l * d) % l == 0
  {
    DivModPlus(d, l, 0);
  }

  lemma {:induction false} MultipleAtLeast(a: int, d: int)
    requires Multiple(a, d) && a > 0 && d > 0
    ensures a >= d
  {
    ExactQuotient(a, d);
    MulLe(1, TruncDiv(a, d), d);
  }

  /** Taking the upper factor first does not change a remainder by one of its divisors. */
  lemma {:induction false} SameRemainder(mode: DivMode, x: int, upper: Upper, n: int)
    requires n > 0 && (upper.NoUpper? || (upper.n > 0 && Multiple(upper.n, n)))
    ensures ModBy(mode, Modded(mode, x, upper), n) == ModBy(mode, x, n)
  {
    if upper.UpTo? {
      ExactQuotient(upper.n, n);
      var k := TruncDiv(upper.n, n);
      assert n * k == upper.n;
      ModMod(mode, x, n, k);
    }
  }

  /** What the simplified-again branch computes: the scale is applied before the lower factor. */
  lemma {:induction false} ResimplifiedValue(s: Split, n: int, visit: Expr -> Expr, env: Env)
    requires Verified(s) && s.scale > 0 && n > 0 && VisitSound(visit)
    ensures var updated := ToSplit(visit(ModImpl(s.index, n, s.mode))).(scale := s.scale);
            var x := Eval(s.index, env);
            Verified(updated) && ValueOf(updated, env) == ModBy(s.mode, x, n) * s.scale &&
            ValueOf(SplitDivConst(updated, s.lower, s.mode), env) ==
              DivBy(s.mode, ModBy(s.mode, x, n) * s.scale, s.lower) &&
            Verified(SplitDivConst(updated, s.lower, s.mode))
  {
    var updated := ToSplit(visit(ModImpl(s.index, n, s.mode))).(scale := s.scale);
    ImplEval(s.index, n, s.mode, env);
    assert Eval(visit(ModImpl(s.index, n, s.mode)), env) == ModBy(s.mode, Eval(s.index, env), n);
    DivByOne(TruncMode, ModBy(s.mode, Eval(s.index, env), n));
    SplitDivConstSound(updated, s.lower, s.mode, env);
  }

  /** Otherwise a positive scale is wrong: at lower - 1 the quotient is 0, but not once it is scaled
      first. */
  lemma {:induction false} SplitModConstFails(s0: Split, v: nat, c: int, mode: DivMode, visit: Expr -> Expr)
    requires Verified(s0) && s0.scale > 0 && c > 0 && VisitSound(visit) && s0.index == Var(v) && !ModExact(s0, c, mode)
    ensures var env := map[v := s0.lower - 1];
            ValueOf(SplitModConst(s0, c, mode, visit), env) != ModBy(mode, ValueOf(s0, env), c)
  {
    var env := map[v := s0.lower - 1];
    var s := ConvertDivMode(s0, mode);
    assert s == s0;
    assert Eval(s.index, env) == s.lower - 1;
    var d := TruncDiv(c, s.scale);
    ExactQuotient(c, s.scale);
    ProductPositive(s.lower, d);
    var n := s.lower * d;
    MulLe(1, d, s.lower);
    SmallDividend(mode, s.lower - 1, n);
    SmallDividend(mode, s.lower - 1, s.upper.n);
    SmallDividend(mode, s.lower - 1, s.lower);
    SmallDividend(mode, 0, c);
    ResimplifiedValue(s, n, visit, env);
    ScaledFirst(mode, s.lower, s.scale);
  }

  lemma {:induction false} ScaledFirst(mode: DivMode, l: int, scale: int)
    requires l > 1 && scale > 1
    ensures DivBy(mode, (l - 1) * scale, l) != 0
  {
    var x := (l - 1) * scale;
    MulLe(2, scale, l - 1);
    DivModIdentity(mode, x, l);
  }

  // ----- negative scales ---------------------------------------------------------------------

  /** Where the quotient is exact: folding a negative scale into the lower factor rounds the other
      way in floor mode. */
  predicate DivExactFor(s0: Split, c: int, mode: DivMode) {
    var s := ConvertDivMode(s0, mode);
    s.scale < 0 && !Multiple(s.scale, c) && Multiple(c, s.scale) ==> mode == TruncMode || s.lower == 1
  }

  lemma {:induction false} NegativeDivisor(x: int, c: int)
    requires c > 0
    ensures DivBy(TruncMode, x, -c) == -DivBy(TruncMode, x, c)
    ensures DivBy(FloorMode, x, -c) == DivBy(FloorMode, -x, c)
  {
    if x == 0 { DivModUnique(0, c, 0, 0); }
    var q := FloorDiv(-x, c);
    FloorModBound(-x, c);
    MulSigns(q, c);
    FloorDivModUnique(x, -c, q, -FloorMod(-x, c));
  }

  /** Division of (y * -m) by m * n. */
  lemma {:induction false} NegativeFold(mode: DivMode, x: int, l: int, m: int, n: int)
    requires l > 0 && m > 0 && n > 0 && (mode == TruncMode || l == 1)
    ensures m * n > 0 && l * n > 0
    ensures DivBy(mode, DivBy(mode, x, l) * -m, m * n) == DivBy(mode, x, -(l * n))
  {
    var y := DivBy(mode, x, l);
    NegativeScale(mode, y, m, n);
    ProductPositive(l, n);
    NegativeDivisor(x, l * n);
    if mode == TruncMode {
      DivDiv(mode, x, l, n);
      Odd(y, n);
    } else {
      DivByOne(mode, x);
      assert l * n == n && y == x;
    }
  }

  lemma {:induction false} NegativeScale(mode: DivMode, y: int, m: int, n: int)
    requires m > 0 && n > 0
    ensures m * n > 0 && DivBy(mode, y * -m, m * n) == DivBy(mode, -y, n)
  {
    ScaleBoth(mode, -y, n, m);
    MulSigns(y, m);
  }

  /** Whatever the sign of the scale, the quotient is exact under the condition. */
  lemma {:induction false} SplitDivConstSigned(s0: Split, c: int, mode: DivMode, env: Env)
    requires Verified(s0) && c > 0 && DivExactFor(s0, c, mode)
    ensures ValueOf(SplitDivConst(s0, c, mode), env) == DivBy(mode, ValueOf(s0, env), c)
  {
    ConvertKeepsValue(s0, mode, env);
    var s := ConvertDivMode(s0, mode);
    if s0.scale > 0 {
      SplitDivConstSound(s0, c, mode, env);
    } else if Multiple(s.scale, c) {
      DivideScale(s, c, env);
    } else if Multiple(c, s.scale) && s.scale < 0 {
      NegativeFolded(s, c, env);
    } else if Multiple(c, s.scale) {
      SplitDivConstSound(s, c, mode, env);
    } else {
      NormalizeWithScaleEval(s, 1, env);
    }
  }

  /** What folding a negative scale computes. */
  lemma {:induction false} NegativeResult(s: Split, c: int, env: Env)
    requires Verified(s) && c > 0 && s.scale < 0 && !Multiple(s.scale, c) && Multiple(c, s.scale)
    ensures var n := TruncDiv(c, -s.scale);
            n > 1 && c == -s.scale * n && s.lower * n > 0 &&
            ValueOf(SplitDivConst(s, c, s.mode), env) ==
              DivBy(s.mode, Modded(s.mode, Eval(s.index, env), s.upper), -(s.lower * n))
  {
    var m, n := -s.scale, TruncDiv(c, -s.scale);
    ExactQuotient(c, s.scale);
    assert Multiple(c, m);
    ExactQuotient(c, m);
    NegativeDivisor(c, m);
    if n == 1 { assert s.scale == (-1) * c; DivModPlus(-1, c, 0); }
    ProductPositive(s.lower, n);
    MulSigns(s.lower, n);
    if s.upper.UpTo? { ImplEval(s.index, s.upper.n, s.mode, env); }
  }

  lemma {:induction false} NegativeFolded(s: Split, c: int, env: Env)
    requires Verified(s) && c > 0 && s.scale < 0 && !Multiple(s.scale, c) && Multiple(c, s.scale)
    requires s.mode == TruncMode || s.lower == 1
    ensures ValueOf(SplitDivConst(s, c, s.mode), env) == DivBy(s.mode, ValueOf(s, env), c)
  {
    NegativeResult(s, c, env);
    NegativeFold(s.mode, Modded(s.mode, Eval(s.index, env), s.upper), s.lower, -s.scale, TruncDiv(c, -s.scale));
  }

  /** Otherwise it is wrong at 1, which divides to 0 and not to -1. */
  lemma {:induction false} SplitDivConstFails(s0: Split, v: nat, c: int, mode: DivMode)
    requires Verified(s0) && c > 0 && s0.index == Var(v) && !DivExactFor(s0, c, mode)
    ensures ValueOf(SplitDivConst(s0, c, mode), map[v := 1]) != DivBy(mode, ValueOf(s0, map[v := 1]), c)
  {
    var env: Env := map[v := 1];
    var s := ConvertDivMode(s0, mode);
    assert s == s0 && Eval(s.index, env) == 1;
    NegativeResult(s, c, env);
    var n := TruncDiv(c, -s.scale);
    if s.upper.UpTo? {
      MultipleAtLeast(s.upper.n, s.lower);
      SmallDividend(mode, 1, s.upper.n);
    }
    SmallDividend(mode, 1, s.lower);
    SmallDividend(mode, 0, c);
    NegativeDivisor(1, s.lower * n);
    DivModIdentity(mode, -1, s.lower * n);
  }

  /** SplitDivConst is exact on a variable for every valuation exactly under the condition. */
  lemma {:induction false} SplitDivConstExact(s0: Split, v: nat, c: int, mode: DivMode)
    requires Verified(s0) && c > 0 && s0.index == Var(v)
    ensures (forall env: Env :: ValueOf(SplitDivConst(s0, c, mode), env) == DivBy(mode, ValueOf(s0, env), c)) <==>
            DivExactFor(s0, c, mode)
  {
    if DivExactFor(s0, c, mode) {
      forall env: Env ensures ValueOf(SplitDivConst(s0, c, mode), env) == DivBy(mode, ValueOf(s0, env), c) {
        SplitDivConstSigned(s0, c, mode, env);
      }
    } else {
      SplitDivConstFails(s0, v, c, mode);
    }
  }

  // ----- remainders with negative scales -----------------------------------------------------

  /** Negative moduli: no difference when truncating, and mirrored when flooring. */
  lemma {:induction false} NegativeModulus(x: int, c: int)
    requires c > 0
    ensures ModBy(TruncMode, x, -c) == ModBy(TruncMode, x, c)
    ensures ModBy(FloorMode, x, -c) == -ModBy(FloorMode, -x, c)
  {
    FloorModBound(-x, c);
    MulSigns(FloorDiv(-x, c), c);
    FloorDivModUnique(x, -c, FloorDiv(-x, c), -FloorMod(-x, c));
  }

  /** The factors of a folded negative scale: m = -scale and c = m * d, with d > 1. */
  lemma {:induction false} NegativeFactors(s: Split, c: int)
    requires Verified(s) && c > 0 && s.scale < 0 && !Multiple(s.scale, c) && Multiple(c, s.scale)
    ensures var d := TruncDiv(c, -s.scale);
            d > 1 && c == d * -s.scale && s.lower * d > 0 && NewUpper(s, c) == -(s.lower * d)
  {
    var m, d := -s.scale, TruncDiv(c, -s.scale);
    ExactQuotient(c, s.scale);
    assert Multiple(c, m);
    ExactQuotient(c, m);
    NegativeDivisor(c, m);
    if d == 1 { assert s.scale == (-1) * c; DivModPlus(-1, c, 0); }
    ProductPositive(s.lower, d);
    MulSigns(s.lower, d);
  }

  /** The remainder of (y * -m) by d * m. */
  lemma {:induction false} NegatedRemainder(mode: DivMode, y: int, d: int, m: int)
    requires d > 0 && m > 0
    ensures d * m > 0 && ModBy(mode, y * -m, d * m) == ModBy(mode, -y, d) * m
    ensures ModBy(TruncMode, -y, d) == -ModBy(TruncMode, y, d)
  {
    ScaleBoth(mode, -y, d, m);
    MulSigns(y, m);
    Odd(y, d);
  }

  /** What the remainder should be, with y the quotient by the lower factor. */
  lemma {:induction false} NegativeTruth(s: Split, c: int, env: Env)
    requires Verified(s) && c > 0 && s.scale < 0 && !Multiple(s.scale, c) && Multiple(c, s.scale)
    ensures var d := TruncDiv(c, -s.scale);
            var y := Part(s.mode, Eval(s.index, env), s.lower, s.upper);
            d > 1 && ModBy(s.mode, ValueOf(s, env), c) == ModBy(s.mode, -y, d) * -s.scale
  {
    NegativeFactors(s, c);
    NegatedRemainder(s.mode, Part(s.mode, Eval(s.index, env), s.lower, s.upper), TruncDiv(c, -s.scale), -s.scale);
  }

  lemma {:induction false} NegativeRemainder(s: Split, c: int, visit: Expr -> Expr, env: Env)
    requires Verified(s) && s.scale < 0 && c > 0 && VisitSound(visit) && ModExact(s, c, s.mode)
    requires !Multiple(s.scale, c) && Multiple(c, s.scale)
    ensures ValueOf(SplitModConst(s, c, s.mode, visit), env) == ModBy(s.mode, ValueOf(s, env), c)
  {
    NegativeFactors(s, c);
    if s.upper.NoUpper? || Multiple(s.upper.n, NewUpper(s, c)) {
      if s.mode == TruncMode { NegativeTruncated(s, c, visit, env); } else { NegativeFloored(s, c, visit, env); }
    } else if Multiple(NewUpper(s, c), s.upper.n) {
      NegativeLeft(s, c, env);
    } else {
      RemainderOfNormal(s, c, env);
    }
  }

  /** The value of the branch that replaces the upper factor or simplifies again. */
  lemma {:induction false} NegativeBranch(s: Split, c: int, visit: Expr -> Expr, env: Env)
    requires Verified(s) && s.scale < 0 && c > 0 && VisitSound(visit)
    requires !Multiple(s.scale, c) && Multiple(c, s.scale)
    requires s.upper.NoUpper? || Multiple(s.upper.n, NewUpper(s, c))
    ensures var x := ModBy(s.mode, Eval(s.index, env), -(s.lower * TruncDiv(c, -s.scale)));
            ValueOf(SplitModConst(s, c, s.mode, visit), env) ==
            if s.upper.NoUpper? then DivBy(s.mode, x, s.lower) * s.scale else DivBy(s.mode, x * s.scale, s.lower)
  {
    NegativeFactors(s, c);
    var n := NewUpper(s, c);
    var x := ModBy(s.mode, Eval(s.index, env), n);
    if s.upper.UpTo? {
      var updated := ToSplit(visit(ModImpl(s.index, n, s.mode))).(scale := s.scale);
      ImplEval(s.index, n, s.mode, env);
      assert Eval(visit(ModImpl(s.index, n, s.mode)), env) == x;
      DivByOne(TruncMode, x);
      DivByOne(s.mode, x * s.scale);
      assert ValueOf(updated, env) == x * s.scale;
      if s.lower > 1 {
        assert ConvertDivMode(updated, s.mode).lower == 1;
        SplitDivConstSigned(updated, s.lower, s.mode, env);
      }
    }
  }

  lemma {:induction false} NegativeTruncated(s: Split, c: int, visit: Expr -> Expr, env: Env)
    requires Verified(s) && s.scale < 0 && c > 0 && VisitSound(visit) && s.mode == TruncMode
    requires !Multiple(s.scale, c) && Multiple(c, s.scale)
    requires s.upper.NoUpper? || (Multiple(s.upper.n, NewUpper(s, c)) && (s.lower == 1 || s.scale == -1))
    ensures ValueOf(SplitModConst(s, c, s.mode, visit), env) == ModBy(s.mode, ValueOf(s, env), c)
  {
    NegativeBranch(s, c, visit, env);
    NegativeTruth(s, c, env);
    TruncatedTruth(s, c, env);
    var x := ModBy(TruncMode, Eval(s.index, env), s.lower * TruncDiv(c, -s.scale));
    MulSigns(DivBy(TruncMode, x, s.lower), s.scale);
    if s.upper.UpTo? {
      if s.lower == 1 { DivByOne(TruncMode, x); DivByOne(TruncMode, x * s.scale); } else { Odd(x, s.lower); }
    }
  }

  lemma {:induction false} TruncatedTruth(s: Split, c: int, env: Env)
    requires Verified(s) && s.scale < 0 && c > 0 && s.mode == TruncMode
    requires !Multiple(s.scale, c) && Multiple(c, s.scale)
    requires s.upper.NoUpper? || Multiple(s.upper.n, NewUpper(s, c))
    ensures var d := TruncDiv(c, -s.scale);
            var x := Eval(s.index, env);
            var y := Part(s.mode, x, s.lower, s.upper);
            && s.lower * d > 0 && d > 1
            && ModBy(TruncMode, -y, d) == -DivBy(TruncMode, ModBy(TruncMode, x, s.lower * d), s.lower)
            && ModBy(TruncMode, x, -(s.lower * d)) == ModBy(TruncMode, x, s.lower * d)
  {
    NegativeFactors(s, c);
    var d, x := TruncDiv(c, -s.scale), Eval(s.index, env);
    var y := Part(s.mode, x, s.lower, s.upper);
    NegatedRemainder(TruncMode, y, d, 1);
    NegativeModulus(x, s.lower * d);
    if s.upper.UpTo? { UpperMultiple(s, c); }
    SameRemainder(TruncMode, x, s.upper, s.lower * d);
    ModDiv(TruncMode, Modded(TruncMode, x, s.upper), s.lower, d);
  }

  /** The sign of the new upper factor does not matter for being a multiple. */
  lemma {:induction false} UpperMultiple(s: Split, c: int)
    requires Verified(s) && s.scale < 0 && c > 0 && !Multiple(s.scale, c) && Multiple(c, s.scale) && s.upper.UpTo?
    ensures Multiple(s.upper.n, NewUpper(s, c)) <==> Multiple(s.upper.n, s.lower * TruncDiv(c, -s.scale))
    ensures Multiple(NewUpper(s, c), s.upper.n) <==> Multiple(s.lower * TruncDiv(c, -s.scale), s.upper.n)
  {
    NegativeFactors(s, c);
    var n := s.lower * TruncDiv(c, -s.scale);
    SignedMultiple(s.upper.n, n);
    SignedMultiple(n, s.upper.n);
  }

  lemma {:induction false} SignedMultiple(a: int, d: int)
    requires d != 0 && a != 0
    ensures (Multiple(a, -d) <==> Multiple(a, d)) && (Multiple(-a, d) <==> Multiple(a, d))
  {
    DividesAbs(d, a);
    DividesAbs(-d, a);
    DividesAbs(d, -a);
  }

  lemma {:induction false} Mirrored(a: int, d: int)
    requires d > 0
    ensures ModBy(FloorMode, -a, d) == if ModBy(FloorMode, a, d) == 0 then 0 else d - ModBy(FloorMode, a, d)
  {
    var q, r := FloorDiv(a, d), FloorMod(a, d);
    FloorModBound(a, d);
    MulSigns(q, d);
    if r == 0 {
      FloorDivModUnique(-a, d, -q, 0);
    } else {
      Distribute(-q, 1, d);
      FloorDivModUnique(-a, d, -q - 1, d - r);
    }
  }

  lemma {:induction false} NegativeFloored(s: Split, c: int, visit: Expr -> Expr, env: Env)
    requires Verified(s) && s.scale < 0 && c > 0 && VisitSound(visit) && s.mode == FloorMode && s.lower == 1
    requires !Multiple(s.scale, c) && Multiple(c, s.scale)
    requires s.upper.NoUpper? || Multiple(s.upper.n, NewUpper(s, c))
    ensures ValueOf(SplitModConst(s, c, s.mode, visit), env) == ModBy(s.mode, ValueOf(s, env), c)
  {
    NegativeBranch(s, c, visit, env);
    NegativeTruth(s, c, env);
    var d, x := TruncDiv(c, -s.scale), Eval(s.index, env);
    assert s.lower * d == d;
    NegativeModulus(x, d);
    if s.upper.UpTo? { UpperMultiple(s, c); }
    SameRemainder(FloorMode, x, s.upper, d);
    Mirrored(Modded(FloorMode, x, s.upper), d);
    Mirrored(x, d);
    DivByOne(FloorMode, Modded(FloorMode, x, s.upper));
    DivByOne(FloorMode, ModBy(FloorMode, x, -d));
    DivByOne(FloorMode, ModBy(FloorMode, x, -d) * s.scale);
    MulSigns(ModBy(FloorMode, -x, d), s.scale);
  }

  /** A value that is left as it is. */
  lemma {:induction false} NegativeLeft(s: Split, c: int, env: Env)
    requires Verified(s) && s.scale < 0 && c > 0 && s.upper.UpTo? && (s.mode == TruncMode || s.upper.n == s.lower)
    requires !Multiple(s.scale, c) && Multiple(c, s.scale) && Multiple(NewUpper(s, c), s.upper.n)
    ensures ValueOf(s, env) == ModBy(s.mode, ValueOf(s, env), c)
  {
    NegativeTruth(s, c, env);
    NegativeFactors(s, c);
    ModDividend(s, env);
    UpperMultiple(s, c);
    var d, z := TruncDiv(c, -s.scale), Modded(s.mode, Eval(s.index, env), s.upper);
    var y := DivBy(s.mode, z, s.lower);
    MultipleAtLeast(s.lower * d, s.upper.n);
    if s.mode == FloorMode {
      SmallDividend(s.mode, z, s.lower);
      SmallDividend(s.mode, 0, d);
    } else {
      SmallDividend(s.mode, z, s.lower * d);
      DivDiv(s.mode, z, s.lower, d);
      DivModIdentity(s.mode, y, d);
      NegatedRemainder(s.mode, y, d, 1);
      MulSigns(y, s.scale);
    }
  }

  // ----- and where they fail -----------------------------------------------------------------

  /** A value of the index where a negative scale goes wrong. */
  function WrongAt(s: Split, c: int): int {
    if s.mode == TruncMode then s.lower - 1
    else if s.scale != 0 && s.upper.UpTo? && !Multiple(s.upper.n, NewUpper(s, c)) then s.lower
    else 1
  }

  lemma {:induction false} NegativeFails(s: Split, v: nat, c: int, visit: Expr -> Expr)
    requires Verified(s) && s.scale < 0 && c > 0 && VisitSound(visit) && s.index == Var(v) && !ModExact(s, c, s.mode)
    ensures var env := map[v := WrongAt(s, c)];
            ValueOf(SplitModConst(s, c, s.mode, visit), env) != ModBy(s.mode, ValueOf(s, env), c)
  {
    var env := map[v := WrongAt(s, c)];
    assert Eval(s.index, env) == WrongAt(s, c);
    NegativeFactors(s, c);
    if s.upper.UpTo? { UpperMultiple(s, c); }
    if s.mode == TruncMode {
      TruncatedFails(s, c, visit, env);
    } else if s.upper.UpTo? && !Multiple(s.upper.n, NewUpper(s, c)) {
      LeftFails(s, c, env);
    } else {
      FlooredFails(s, c, visit, env);
    }
  }

  /** The upper factor is larger than what is looked at. */
  lemma {:induction false} BelowUpper(s: Split, c: int, x: int)
    requires Verified(s) && s.scale < 0 && c > 0 && !Multiple(s.scale, c) && Multiple(c, s.scale)
    requires s.upper.NoUpper? || Multiple(s.upper.n, NewUpper(s, c))
    requires 0 <= x < s.lower
    ensures Modded(s.mode, x, s.upper) == x && Part(s.mode, x, s.lower, s.upper) == 0
    ensures x < s.lower * TruncDiv(c, -s.scale)
  {
    NegativeFactors(s, c);
    var d := TruncDiv(c, -s.scale);
    MulLe(1, d, s.lower);
    if s.upper.UpTo? {
      UpperMultiple(s, c);
      MultipleAtLeast(s.upper.n, s.lower * d);
      SmallDividend(s.mode, x, s.upper.n);
    }
    SmallDividend(s.mode, x, s.lower);
  }

  lemma {:induction false} TruncatedFails(s: Split, c: int, visit: Expr -> Expr, env: Env)
    requires Verified(s) && s.scale < -1 && c > 0 && VisitSound(visit) && s.mode == TruncMode && s.lower > 1
    requires !Multiple(s.scale, c) && Multiple(c, s.scale) && s.upper.UpTo? && Multiple(s.upper.n, NewUpper(s, c))
    requires Eval(s.index, env) == s.lower - 1
    ensures ValueOf(SplitModConst(s, c, s.mode, visit), env) != ModBy(s.mode, ValueOf(s, env), c)
  {
    var l, n := s.lower, s.lower * TruncDiv(c, -s.scale);
    NegativeFactors(s, c);
    NegativeTruth(s, c, env);
    NegativeBranch(s, c, visit, env);
    BelowUpper(s, c, l - 1);
    SmallDividend(TruncMode, 0, TruncDiv(c, -s.scale));
    NegativeModulus(l - 1, n);
    SmallDividend(TruncMode, l - 1, n);
    ScaledFirst(TruncMode, l, -s.scale);
    MulSigns(l - 1, s.scale);
    Odd((l - 1) * -s.scale, l);
  }

  lemma {:induction false} FlooredFails(s: Split, c: int, visit: Expr -> Expr, env: Env)
    requires Verified(s) && s.scale < 0 && c > 0 && VisitSound(visit) && s.mode == FloorMode && s.lower > 1
    requires !Multiple(s.scale, c) && Multiple(c, s.scale)
    requires s.upper.NoUpper? || Multiple(s.upper.n, NewUpper(s, c))
    requires Eval(s.index, env) == 1
    ensures ValueOf(SplitModConst(s, c, s.mode, visit), env) != ModBy(s.mode, ValueOf(s, env), c)
  {
    var d := TruncDiv(c, -s.scale);
    NegativeFactors(s, c);
    NegativeTruth(s, c, env);
    NegativeBranch(s, c, visit, env);
    BelowUpper(s, c, 1);
    SmallDividend(FloorMode, 0, d);
    OneMirrored(s.lower, d, -s.scale);
  }

  /** 1 mod -(l * d) is 1 - l * d, whose quotients are not 0. */
  lemma {:induction false} OneMirrored(l: int, d: int, m: int)
    requires l > 1 && d > 1 && m > 0
    ensures l * d > 0
    ensures var x := ModBy(FloorMode, 1, -(l * d)); DivBy(FloorMode, x, l) * -m != 0 && DivBy(FloorMode, x * -m, l) != 0
  {
    ProductPositive(l, d);
    var n := l * d;
    MulLe(2, d, l);
    NegativeModulus(1, n);
    FloorDivModUnique(-1, n, -1, n - 1);
    var x := 1 - n;
    assert ModBy(FloorMode, 1, -n) == x;
    MulSigns(l, d);
    FloorDivModUnique(x, l, -d, 1);
    ProductPositive(d, m);
    MulSigns(d, m);
    MulSigns(n - 1, m);
    MulLe(1, m, n - 1);
    var y := (n - 1) * m;
    assert x * -m == y && y >= l;
    FloorModBound(y, l);
    if FloorDiv(y, l) <= 0 { MulLe(FloorDiv(y, l), 0, l); }
  }

  lemma {:induction false} LeftFails(s: Split, c: int, env: Env)
    requires Verified(s) && s.scale < 0 && c > 0 && s.mode == FloorMode && s.upper.UpTo? && s.upper.n != s.lower
    requires Eval(s.index, env) == s.lower
    ensures ValueOf(s, env) != ModBy(s.mode, ValueOf(s, env), c)
  {
    ExactQuotient(s.upper.n, s.lower);
    MultipleAtLeast(s.upper.n, s.lower);
    SmallDividend(FloorMode, s.lower, s.upper.n);
    DivExact(FloorMode, 1, s.lower);
    FloorModBound(ValueOf(s, env), c);
  }

  /** SplitModConst is exact on a variable for every valuation exactly under the condition, for any
      scale. */
  lemma {:induction false} SplitModConstExact(s0: Split, v: nat, c: int, mode: DivMode, visit: Expr -> Expr)
    requires Verified(s0) && c > 0 && VisitSound(visit) && s0.index == Var(v)
    ensures ModExact(s0, c, mode) <==>
            forall env: Env :: ValueOf(SplitModConst(s0, c, mode, visit), env) == ModBy(mode, ValueOf(s0, env), c)
  {
    if ModExact(s0, c, mode) {
      forall env: Env ensures ValueOf(SplitModConst(s0, c, mode, visit), env) == ModBy(mode, ValueOf(s0, env), c) {
        SplitModConstSound(s0, c, mode, visit, env);
      }
    } else if s0.scale > 0 {
      SplitModConstFails(s0, v, c, mode, visit);
    } else {
      assert ConvertDivMode(s0, mode) == s0;
      NegativeFails(s0, v, c, visit);
    }
  }
}
