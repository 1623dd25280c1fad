/** Laws of division and remainder that hold alike for C's truncating mode and the floor mode,
    for positive divisors (used throughout src/arith/canonical_simplify.cc). */
module DivModes {
  import opened IntOperator

  datatype DivMode = TruncMode | FloorMode

  function DivBy(mode: DivMode, x: int, c: int): int
    requires c != 0
  {
    if mode == TruncMode then TruncDiv(x, c) else FloorDiv(x, c)
  }

  function ModBy(mode: DivMode, x: int, c: int): int
    requires c != 0
  {
    if mode == TruncMode then TruncMod(x, c) else FloorMod(x, c)
  }

  /** In floor mode, or on non-negative numbers, both modes are Euclidean. */
  lemma {:induction false} Euclidean(mode: DivMode, x: int, c: int)
    requires c > 0 && (mode == FloorMode || x >= 0)
    ensures DivBy(mode, x, c) == x / c && ModBy(mode, x, c) == x % c
  {
    FloorIsEuclid(x, c);
  }

  /** Truncating division is odd. */
  lemma {:induction false} Odd(x: int, c: int)
    requires c > 0
    ensures DivBy(TruncMode, -x, c) == -DivBy(TruncMode, x, c) && ModBy(TruncMode, -x, c) == -ModBy(TruncMode, x, c)
  {
    if x == 0 {
      DivModUnique(0, c, 0, 0);
    } else {
      assert Abs(-x) == Abs(x);
    }
  }

  lemma {:induction false} DivModIdentity(mode: DivMode, x: int, c: int)
    requires c > 0
    ensures x == DivBy(mode, x, c) * c + ModBy(mode, x, c)
    ensures -c < ModBy(mode, x, c) < c
    ensures (mode == FloorMode || x >= 0) ==> ModBy(mode, x, c) >= 0
  {
    TruncModBound(x, c);
    FloorModBound(x, c);
  }

  lemma {:induction false} DivModPlus(q: int, c: int, r: int)
    requires c > 0 && 0 <= r < c
    ensures (q * c + r) / c == q && (q * c + r) % c == r
  {
    DivModUnique(q * c + r, c, q, r);
  }

  // ----- the laws, in both modes -------------------------------------------------------------

  /** (x / a) / b == x / (a * b) */
  lemma {:induction false} DivDiv(mode: DivMode, x: int, a: int, b: int)
    requires a > 0 && b > 0
    ensures a * b > 0 && DivBy(mode, DivBy(mode, x, a), b) == DivBy(mode, x, a * b)
    decreases if x < 0 then 1 else 0
  {
    ProductPositive(a, b);
    if mode == FloorMode || x >= 0 {
      EuclidNested(x, a, b);
      Euclidean(mode, x, a);
      Euclidean(mode, x, a * b);
      Euclidean(mode, x / a, b);
    } else {
      DivDiv(mode, -x, a, b);
      Odd(x, a);
      Odd(x, a * b);
      Odd(DivBy(mode, x, a), b);
    }
  }

  lemma {:induction false} EuclidModDiv(x: int, a: int, b: int)
    requires a > 0 && b > 0
    ensures a * b > 0 && (x % (a * b)) / a == (x / a) % b
  {
    EuclidNested(x, a, b);
    DivModPlus((x / a) % b, a, x % a);
  }

  /** (x % (a * b)) / a == (x / a) % b */
  lemma {:induction false} ModDiv(mode: DivMode, x: int, a: int, b: int)
    requires a > 0 && b > 0
    ensures a * b > 0 && DivBy(mode, ModBy(mode, x, a * b), a) == ModBy(mode, DivBy(mode, x, a), b)
    decreases if x < 0 then 1 else 0
  {
    ProductPositive(a, b);
    if mode == FloorMode || x >= 0 {
      Euclidean(mode, x, a);
      Euclidean(mode, x, a * b);
      Euclidean(mode, x / a, b);
      Euclidean(mode, x % (a * b), a);
      EuclidModDiv(x, a, b);
    } else {
      ModDiv(mode, -x, a, b);
      Odd(x, a);
      Odd(x, a * b);
      Odd(ModBy(mode, x, a * b), a);
      Odd(DivBy(mode, x, a), b);
    }
  }

  /** (x % (a * b)) % a == x % a */
  lemma {:induction false} ModMod(mode: DivMode, x: int, a: int, b: int)
    requires a > 0 && b > 0
    ensures a * b > 0 && ModBy(mode, ModBy(mode, x, a * b), a) == ModBy(mode, x, a)
    decreases if x < 0 then 1 else 0
  {
    ProductPositive(a, b);
    if mode == FloorMode || x >= 0 {
      EuclidNested(x, a, b);
      Euclidean(mode, x, a);
      Euclidean(mode, x, a * b);
      DivModPlus((x / a) % b, a, x % a);
      Euclidean(mode, x % (a * b), a);
    } else {
      ModMod(mode, -x, a, b);
      Odd(x, a);
      Odd(x, a * b);
      Odd(ModBy(mode, x, a * b), a);
    }
  }

  /** (x * k) / (c * k) == x / c and (x * k) % (c * k) == (x % c) * k */
  lemma {:induction false} ScaleBoth(mode: DivMode, x: int, c: int, k: int)
    requires c > 0 && k > 0
    ensures c * k > 0 && DivBy(mode, x * k, c * k) == DivBy(mode, x, c)
    ensures ModBy(mode, x * k, c * k) == ModBy(mode, x, c) * k
    decreases if x < 0 then 1 else 0
  {
    ProductPositive(c, k);
    if mode == FloorMode || x >= 0 {
      EuclidScale(x, c, k);
      MulLe(0, if x >= 0 then x else 0, k);
      Euclidean(mode, x, c);
      Euclidean(mode, x * k, c * k);
    } else {
      ScaleBoth(mode, -x, c, k);
      MulSigns(x, k);
      MulSigns(ModBy(mode, x, c), k);
      Odd(x, c);
      Odd(x * k, c * k);
    }
  }

  lemma {:induction false} EuclidScale(x: int, c: int, k: int)
    requires c > 0 && k > 0
    ensures c * k > 0 && (x * k) / (c * k) == x / c && (x * k) % (c * k) == (x % c) * k
  {
    ProductPositive(c, k);
    var q, r := x / c, x % c;
    assert x == q * c + r;
    Distribute(q * c, r, k);
    MulAssoc(q, c, k);
    MulLe(0, r, k);
    MulLe(r, c - 1, k);
    Distribute(c, 1, k);
    DivModUnique(x * k, c * k, q, r * k);
  }

  /** Exact multiples. */
  lemma {:induction false} DivExact(mode: DivMode, x: int, c: int)
    requires c > 0
    ensures DivBy(mode, x * c, c) == x && ModBy(mode, x * c, c) == 0
    decreases if x < 0 then 1 else 0
  {
    if mode == FloorMode || x >= 0 {
      DivModPlus(x, c, 0);
      MulLe(0, if x >= 0 then x else 0, c);
      Euclidean(mode, x * c, c);
    } else {
      DivExact(mode, -x, c);
      MulSigns(x, c);
      Odd(x * c, c);
    }
  }

  /** Numbers smaller than the divisor. */
  lemma {:induction false} SmallDividend(mode: DivMode, x: int, c: int)
    requires c > 0 && -c < x < c && (mode == FloorMode ==> x >= 0)
    ensures DivBy(mode, x, c) == 0 && ModBy(mode, x, c) == x
  {
    if x >= 0 {
      DivModUnique(x, c, 0, x);
      Euclidean(mode, x, c);
    } else {
      DivModUnique(-x, c, 0, -x);
      Euclidean(mode, -x, c);
      Odd(x, c);
    }
  }

  /** A quotient and its remainder add up again: (x / (c * s)) * s + (x % (c * s)) / c == x / c. */
  lemma {:induction false} Recombine(mode: DivMode, x: int, c: int, s: int)
    requires c > 0 && s > 0
    ensures c * s > 0 && DivBy(mode, x, c * s) * s + DivBy(mode, ModBy(mode, x, c * s), c) == DivBy(mode, x, c)
  {
    DivDiv(mode, x, c, s);
    ModDiv(mode, x, c, s);
    DivModIdentity(mode, DivBy(mode, x, c), s);
  }
}
