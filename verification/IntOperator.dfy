/** Integer operators of the arithmetic analyzer: C division, floor division, gcd, Bezout
    coefficients and overflow tests (src/arith/int_operator.h). */
module IntOperator {

  // ----- division ------------------------------------------------------------------------

  function Abs(x: int): (r: int)
    ensures r >= 0 && (r == x || r == -x)
  {
    if x >= 0 then x else -x
  }

  function Min(x: int, y: int): int { if x <= y then x else y }
  function Max(x: int, y: int): int { if x >= y then x else y }

  /** C's `x / y`: the magnitudes divide and the result rounds toward zero. */
  function TruncDiv(x: int, y: int): int
    requires y != 0
  {
    var q := Abs(x) / Abs(y);
    if x >= 0 <==> y > 0 then q else -q
  }

  /** C's `x % y`: the remainder of the magnitudes with the sign of x. */
  function TruncMod(x: int, y: int): int
    requires y != 0
  {
    var r := Abs(x) % Abs(y);
    if x >= 0 then r else -r
  }

  /** floordiv, computed from C's quotient and remainder as the source does. */
  function FloorDiv(x: int, y: int): int
    requires y != 0
  {
    var rdiv := TruncDiv(x, y);
    var rmod := TruncMod(x, y);
    if (y >= 0 && rmod >= 0) || (y < 0 && rmod <= 0) then rdiv else rdiv - 1
  }

  /** floormod, computed from C's remainder as the source does. */
  function FloorMod(x: int, y: int): int
    requires y != 0
  {
    var rmod := TruncMod(x, y);
    if (y >= 0 && rmod >= 0) || (y < 0 && rmod <= 0) then rmod else rmod + y
  }

  lemma {:induction false} MulLe(a: int, b: int, c: int)
    requires a <= b && 0 <= c
    ensures a * c <= b * c && c * a <= c * b
  {}

  lemma {:induction false} MulSigns(a: int, b: int)
    ensures (-a) * b == -(a * b) && a * (-b) == -(a * b) && (-a) * (-b) == a * b
  {}

  lemma {:induction false} Distribute(a: int, b: int, c: int)
    ensures (a + b) * c == a * c + b * c && c * (a + b) == c * a + c * b
    ensures (a - b) * c == a * c - b * c && c * (a - b) == c * a - c * b
  {}

  lemma {:induction false} MulAssoc(a: int, b: int, c: int)
    ensures (a * b) * c == a * (b * c)
  {}

  lemma {:induction false} QuotientUnique(d: int, q: int, r: int, q': int, r': int)
    requires d > 0 && q * d + r == q' * d + r' && 0 <= r < d && 0 <= r' < d
    ensures q == q' && r == r'
  {
    if q > q' {
      MulLe(q' + 1, q, d);
      Distribute(q', 1, d);
    } else if q < q' {
      MulLe(q + 1, q', d);
      Distribute(q, 1, d);
    }
  }

  /** A quotient and remainder with 0 <= r < d are the Euclidean ones. */
  lemma {:induction false} DivModUnique(x: int, d: int, q: int, r: int)
    requires d > 0 && x == q * d + r && 0 <= r < d
    ensures x / d == q && x % d == r
  {
    QuotientUnique(d, q, r, x / d, x % d);
  }

  lemma {:induction false} ProductPositive(a: int, b: int)
    requires a > 0 && b > 0
    ensures a * b > 0
  {
    MulLe(1, a, b);
  }

  /** Dividing by a * b: the quotient of the quotient, and the remainder in two parts. */
  lemma {:induction false} EuclidNested(x: int, a: int, b: int)
    requires a > 0 && b > 0
    ensures a * b > 0 && x / (a * b) == (x / a) / b && x % (a * b) == ((x / a) % b) * a + x % a
  {
    ProductPositive(a, b);
    var q, r := x / a, x % a;
    var q', r' := q / b, q % b;
    assert x == q * a + r && q == q' * b + r';
    NestedProduct(q', b, r', a);
    MulLe(r', b - 1, a);
    MulLe(0, r', a);
    Distribute(b, 1, a);
    DivModUnique(x, a * b, q', r' * a + r);
  }

  lemma {:induction false} NestedProduct(q: int, b: int, r: int, a: int)
    ensures (q * b + r) * a == q * (a * b) + r * a && b * a == a * b
  {
    Distribute(q * b, r, a);
    MulAssoc(q, b, a);
  }

  /** C's division: exact identity, remainder smaller than the divisor, sign of x. */
  lemma {:induction false} TruncModBound(x: int, y: int)
    requires y != 0
    ensures x == TruncDiv(x, y) * y + TruncMod(x, y)
    ensures x >= 0 ==> 0 <= TruncMod(x, y) < Abs(y)
    ensures x <= 0 ==> -Abs(y) < TruncMod(x, y) <= 0
  {
    Magnitudes(Abs(x), Abs(y));
    WithSigns(x, y, Abs(x) / Abs(y), Abs(x) % Abs(y));
  }

  lemma {:induction false} Magnitudes(n: int, d: int)
    requires d > 0
    ensures n == n / d * d + n % d && 0 <= n % d < d
  {}

  lemma {:induction false} WithSigns(x: int, y: int, q: int, r: int)
    requires y != 0 && Abs(x) == q * Abs(y) + r
    ensures x == (if x >= 0 <==> y > 0 then q else -q) * y + (if x >= 0 then r else -r)
  {
    MulSigns(q, y);
  }

  lemma {:induction false} FloorModBound(x: int, y: int)
    requires y != 0
    ensures x == FloorDiv(x, y) * y + FloorMod(x, y)
    ensures if y > 0 then 0 <= FloorMod(x, y) < y else y < FloorMod(x, y) <= 0
  {
    TruncModBound(x, y);
    Distribute(TruncDiv(x, y), 1, y);
  }

  /** floordiv and floormod are the unique quotient and remainder whose remainder lies
      between 0 and the divisor. */
  lemma {:induction false} FloorDivModUnique(x: int, y: int, q: int, r: int)
    requires y != 0
    ensures (x == q * y + r && (if y > 0 then 0 <= r < y else y < r <= 0)) <==>
            (q == FloorDiv(x, y) && r == FloorMod(x, y))
  {
    FloorModBound(x, y);
    var f, g := FloorDiv(x, y), FloorMod(x, y);
    if x == q * y + r && (if y > 0 then 0 <= r < y else y < r <= 0) {
      if y > 0 {
        QuotientUnique(y, q, r, f, g);
      } else {
        MulSigns(q, y);
        MulSigns(f, y);
        QuotientUnique(-y, q, -r, f, -g);
      }
    }
  }

  /** For a positive divisor, floor division is Euclidean division. */
  lemma {:induction false} FloorIsEuclid(x: int, y: int)
    requires y > 0
    ensures FloorDiv(x, y) == x / y && FloorMod(x, y) == x % y
  {
    FloorModBound(x, y);
    QuotientUnique(y, x / y, x % y, FloorDiv(x, y), FloorMod(x, y));
  }

  // ----- divisibility and gcd ------------------------------------------------------------

  /** d divides a. Zero divides only zero. */
  predicate Divides(d: int, a: int)
  {
    if d == 0 then a == 0 else a % d == 0
  }

  lemma {:induction false} DividesIntro(d: int, k: int)
    ensures Divides(d, k * d) && Divides(d, d * k)
  {
    if d > 0 {
      DivModUnique(k * d, d, k, 0);
    } else if d < 0 {
      var q, r := (k * d) / d, (k * d) % d;
      assert k * d == (-k) * (-d) + 0 && k * d == (-q) * (-d) + r;
      DivModUnique(k * d, -d, -k, 0);
      DivModUnique(k * d, -d, -q, r);
    }
  }

  lemma {:induction false} DividesElim(d: int, a: int) returns (k: int)
    requires Divides(d, a)
    ensures a == k * d
    ensures d != 0 ==> k == a / d
  {
    if d == 0 { k := 0; } else { k := a / d; }
  }

  lemma {:induction false} DividesCombo(d: int, a: int, b: int, x: int, y: int)
    requires Divides(d, a) && Divides(d, b)
    ensures Divides(d, a * x + b * y)
  {
    var j := DividesElim(d, a);
    var k := DividesElim(d, b);
    assert a * x + b * y == (j * x + k * y) * d;
    DividesIntro(d, j * x + k * y);
  }

  lemma {:induction false} DividesTrans(d: int, e: int, a: int)
    requires Divides(d, e) && Divides(e, a)
    ensures Divides(d, a)
  {
    var j := DividesElim(d, e);
    var k := DividesElim(e, a);
    assert a == (k * j) * d;
    DividesIntro(d, k * j);
  }

  lemma {:induction false} DividesNegate(d: int, a: int)
    requires Divides(d, a)
    ensures Divides(-d, a) && Divides(d, -a)
  {
    var k := DividesElim(d, a);
    MulSigns(k, d);
    DividesIntro(-d, -k);
    DividesIntro(d, -k);
  }

  lemma {:induction false} DividesAbs(d: int, a: int)
    ensures Divides(d, a) == Divides(Abs(d), a) == Divides(d, Abs(a))
  {
    if Divides(d, a) { DividesNegate(d, a); }
    if Divides(-d, a) { DividesNegate(-d, a); }
    if Divides(d, -a) { DividesNegate(d, -a); }
  }

  /** A nonzero number is at least as large as its divisors. */
  lemma {:induction false} DividesLe(d: int, a: int)
    requires Divides(d, a) && a != 0
    ensures d != 0 && Abs(d) <= Abs(a)
    ensures Abs(d) == Abs(a) ==> Divides(a, d)
  {
    var k := DividesElim(d, a);
    assert k != 0;
    if k >= 1 {
      assert Abs(a) == k * Abs(d);
      assert k * Abs(d) == (k - 1) * Abs(d) + Abs(d);
    } else {
      assert Abs(a) == (-k) * Abs(d);
      assert (-k) * Abs(d) == (-k - 1) * Abs(d) + Abs(d);
    }
    if Abs(d) == Abs(a) {
      assert d == 1 * a || d == -1 * a;
      DividesIntro(a, 1); DividesIntro(a, -1);
    }
  }

  /** The greatest common divisor by Euclid's recursion; Gcd(0, 0) is 0. */
  function Gcd(a: nat, b: nat): nat
    decreases b
  {
    if b == 0 then a else Gcd(b, a % b)
  }

  /** Gcd divides both arguments, and every common divisor divides Gcd. */
  lemma {:induction false} GcdIsGreatest(a: nat, b: nat)
    ensures Divides(Gcd(a, b), a) && Divides(Gcd(a, b), b)
    ensures forall d: int :: Divides(d, a) && Divides(d, b) ==> Divides(d, Gcd(a, b))
    ensures Gcd(a, b) == 0 <==> a == 0 && b == 0
    decreases b
  {
    if b == 0 {
      DividesIntro(a, 1); DividesIntro(a, 0);
    } else {
      GcdIsGreatest(b, a % b);
      var g := Gcd(b, a % b);
      assert a == b * (a / b) + (a % b) * 1;
      DividesCombo(g, b, a % b, a / b, 1);
      forall d: int | Divides(d, a) && Divides(d, b)
        ensures Divides(d, g)
      {
        assert a % b == a * 1 + b * -(a / b);
        DividesCombo(d, a, b, 1, -(a / b));
      }
    }
  }

  lemma {:induction false} GcdSymmetric(a: nat, b: nat)
    ensures Gcd(a, b) == Gcd(b, a)
  {
    if a < b {
      DivModUnique(a, b, 0, a);
      assert Gcd(a, b) == Gcd(b, a);
    } else if b < a {
      DivModUnique(b, a, 0, b);
      assert Gcd(b, a) == Gcd(a, b);
    }
  }

  // ----- extended Euclid -----------------------------------------------------------------

  /** The loop of ExtendedEuclidean as a recursion on its four variables, returning the
      final (old_r, old_s). */
  function EuclidLoop(oldR: int, r: int, oldS: int, s: int): (int, int)
    decreases Abs(r)
  {
    if r == 0 then (oldR, oldS)
    else
      TruncModBound(oldR, r);
      var q := TruncDiv(oldR, r);
      EuclidLoop(r, oldR - q * r, s, oldS - q * s)
  }

  lemma {:induction false} EuclidStep(a: int, oldR: int, r: int, oldS: int, s: int, q: int)
    ensures (oldR - oldS * a) * 1 + (r - s * a) * (-q) == (oldR - q * r) - (oldS - q * s) * a
  {
    MulSigns(r - s * a, q);
    Distribute(r, s * a, q);
    Distribute(oldS, q * s, a);
    MulAssoc(q, s, a);
  }

  /** What the four loop variables keep: both remainders are combinations of a and b, and
      their gcd does not change. */
  lemma {:induction false} EuclidLoopBezout(a: nat, b: int, oldR: int, r: int, oldS: int, s: int)
    requires Divides(b, oldR - oldS * a) && Divides(b, r - s * a)
    ensures var (g, x) := EuclidLoop(oldR, r, oldS, s);
            Divides(b, g - x * a) && Abs(g) == Gcd(Abs(oldR), Abs(r)) &&
            (oldR >= 0 && r >= 0 ==> g >= 0)
    decreases Abs(r)
  {
    if r != 0 {
      TruncModBound(oldR, r);
      var q := TruncDiv(oldR, r);
      assert oldR - q * r == TruncMod(oldR, r);
      EuclidStep(a, oldR, r, oldS, s, q);
      DividesCombo(b, oldR - oldS * a, r - s * a, 1, -q);
      EuclidLoopBezout(a, b, r, TruncMod(oldR, r), s, oldS - q * s);
    }
  }

  /** The triple (g, x, y) that ExtendedEuclidean(a, b, &x, &y) produces. */
  function Bezout(a: int, b: int): (int, int, int)
  {
    var (g, oldS) := EuclidLoop(Abs(a), b, 1, 0);
    var x := if a >= 0 then oldS else -oldS;
    var y := if b != 0 then TruncDiv(g - x * a, b) else 1;
    (g, x, y)
  }

  /** Bezout's identity for every sign of a and b: the final division is exact, |g| is the
      gcd, and g is negative only for a negative b. */
  lemma {:induction false} BezoutIdentity(a: int, b: int)
    ensures var (g, x, y) := Bezout(a, b);
            a * x + b * y == g && Abs(g) == Gcd(Abs(a), Abs(b)) && (g < 0 ==> b < 0)
  {
    var (g, oldS) := EuclidLoop(Abs(a), b, 1, 0);
    EuclidStart(Abs(a), b);
    EuclidLoopBezout(Abs(a), b, Abs(a), b, 1, 0);
    BezoutFinish(a, b, g, oldS);
  }

  lemma {:induction false} EuclidStart(a: int, b: int)
    ensures Divides(b, a - 1 * a) && Divides(b, b - 0 * a)
  {
    DividesIntro(b, 0);
    DividesIntro(b, 1);
  }

  lemma {:induction false} BezoutFinish(a: int, b: int, g: int, s: int)
    requires Divides(b, g - s * Abs(a))
    ensures var x := if a >= 0 then s else -s;
            if b != 0 then a * x + b * TruncDiv(g - x * a, b) == g else a * x == g
  {
    MulSigns(s, a);
    if b != 0 {
      var k := DividesElim(b, g - s * Abs(a));
      TruncDivExact(k, b);
    }
  }

  lemma {:induction false} TruncDivExact(k: int, b: int)
    requires b != 0
    ensures TruncDiv(k * b, b) == k && TruncMod(k * b, b) == 0
    ensures FloorDiv(k * b, b) == k && FloorMod(k * b, b) == 0
  {
    FloorDivModUnique(k * b, b, k, 0);
    TruncModBound(k * b, b);
    DividesIntro(b, k); DividesAbs(b, k * b); DividesAbs(Abs(b), k * b);
    assert TruncMod(k * b, b) == 0;
  }

  /** C's remainder and floor remainder vanish exactly on multiples. */
  lemma {:induction false} RemainderZero(a: int, b: int)
    requires b != 0
    ensures TruncMod(a, b) == 0 <==> Divides(b, a)
    ensures FloorMod(a, b) == 0 <==> Divides(b, a)
    ensures Divides(b, a) ==> a == TruncDiv(a, b) * b && TruncDiv(a, b) == FloorDiv(a, b)
  {
    TruncModBound(a, b);
    FloorDivModUnique(a, b, FloorDiv(a, b), FloorMod(a, b));
    if Divides(b, a) {
      var k := DividesElim(b, a);
      TruncDivExact(k, b);
    }
    if TruncMod(a, b) == 0 { DividesIntro(b, TruncDiv(a, b)); }
    if FloorMod(a, b) == 0 { DividesIntro(b, FloorDiv(a, b)); }
  }

  /** The source's loop over updated variables. */
  method ExtendedEuclidean(a: int, b: int) returns (g: int, x: int, y: int)
    ensures (g, x, y) == Bezout(a, b)
    ensures a * x + b * y == g
    ensures Abs(g) == Gcd(Abs(a), Abs(b))
    ensures g < 0 ==> b < 0
  {
    var s, oldS := 0, 1;
    var r, oldR := b, Abs(a);
    while r != 0
      invariant EuclidLoop(oldR, r, oldS, s) == EuclidLoop(Abs(a), b, 1, 0)
      decreases Abs(r)
    {
      TruncModBound(oldR, r);
      var q := TruncDiv(oldR, r);
      oldR, r := r, oldR - q * r;
      oldS, s := s, oldS - q * s;
    }
    x := if a >= 0 then oldS else -oldS;
    if b != 0 {
      y := TruncDiv(oldR - x * a, b);
    } else {
      y := 1;
    }
    g := oldR;
    BezoutIdentity(a, b);
  }

  /** The gcd loop, which swaps its operands instead of keeping Bezout coefficients. */
  method ZeroAwareGCD(a0: int, b0: int) returns (g: nat)
    ensures g == Gcd(Abs(a0), Abs(b0))
  {
    var a, b := Abs(a0), Abs(b0);
    if a < b { a, b := b, a; }
    GcdSymmetric(Abs(a0), Abs(b0));
    if b == 0 { return a; }
    while a % b != 0
      invariant a >= 0 && b > 0
      invariant Gcd(a, b) == Gcd(Abs(a0), Abs(b0))
      decreases b
    {
      a := a % b;
      GcdSymmetric(a, b);
      a, b := b, a;
    }
    assert Gcd(a, b) == Gcd(b, 0);
    return b;
  }

  /** (a * b) / ExtendedEuclidean(a, b), for operands that are not both 0. */
  function LeastCommonMultiple(a: int, b: int): int
    requires a != 0 || b != 0
  {
    EuclidNonZero(a, b);
    TruncDiv(a * b, Bezout(a, b).0)
  }

  lemma {:induction false} EuclidNonZero(a: int, b: int)
    requires a != 0 || b != 0
    ensures Bezout(a, b).0 != 0 && Divides(Bezout(a, b).0, a) && Divides(Bezout(a, b).0, b)
  {
    BezoutIdentity(a, b);
    GcdIsGreatest(Abs(a), Abs(b));
    var g := Bezout(a, b).0;
    DividesAbs(Abs(g), a);
    DividesAbs(Abs(g), b);
    DividesAbs(g, a);
    DividesAbs(g, b);
  }

  /** For all signs the result is a common multiple and divides every common multiple, and for
      positive operands it is positive. */
  lemma {:induction false} LcmIsLeast(a: int, b: int)
    requires a != 0 || b != 0
    ensures var l := LeastCommonMultiple(a, b);
            && Divides(a, l) && Divides(b, l)
            && (forall m: int :: Divides(a, m) && Divides(b, m) ==> Divides(l, m))
            && (a > 0 && b > 0 ==> l > 0)
  {
    var (g, x, y) := Bezout(a, b);
    BezoutIdentity(a, b);
    EuclidNonZero(a, b);
    var i := DividesElim(g, a);
    var j := DividesElim(g, b);
    LcmFactors(a, b, g, i, j);
    forall m: int | Divides(a, m) && Divides(b, m) ensures Divides(LeastCommonMultiple(a, b), m) {
      var p := DividesElim(a, m);
      var q := DividesElim(b, m);
      LcmStep(g, x, y, i, j, m, p, q);
    }
  }

  lemma {:induction false} LcmFactors(a: int, b: int, g: int, i: int, j: int)
    requires g != 0 && a == i * g && b == j * g
    ensures TruncDiv(a * b, g) == i * j * g && Divides(a, i * j * g) && Divides(b, i * j * g)
    ensures a > 0 && b > 0 && g > 0 ==> i * j * g > 0
  {
    MulAssoc(i, j, g);
    MulAssoc(j, i, g);
    assert a * b == (i * j * g) * g by { MulAssoc(i * g, j, g); MulAssoc(i, g, j); }
    TruncDivExact(i * j * g, g);
    DividesIntro(a, j);
    DividesIntro(b, i);
    assert a * j == i * j * g by { MulAssoc(i, g, j); }
    if a > 0 && b > 0 && g > 0 {
      if i <= 0 { MulLe(i, 0, g); }
      ProductPositive(i, b);
    }
  }

  lemma {:induction false} LcmStep(g: int, x: int, y: int, i: int, j: int, m: int, p: int, q: int)
    requires g != 0 && (i * g) * x + (j * g) * y == g
    requires m == p * (i * g) && m == q * (j * g)
    ensures Divides(i * j * g, m)
  {
    var l := i * j * g;
    assert i * x + j * y == 1 by {
      MulAssoc(i, g, x); MulAssoc(i, x, g); MulAssoc(j, g, y); MulAssoc(j, y, g);
      Distribute(i * x, j * y, g);
      UnitFactor(i * x + j * y, g);
    }
    assert m * i == q * l by { MulAssoc(q, j * g, i); MulAssoc(j, g, i); MulAssoc(j, i, g); }
    assert m * j == p * l by { MulAssoc(p, i * g, j); MulAssoc(i, g, j); MulAssoc(i, j, g); }
    calc {
      m;
      m * (i * x + j * y);
      { Distribute(i * x, j * y, m); MulAssoc(m, i, x); MulAssoc(m, j, y); }
      (q * l) * x + (p * l) * y;
      { MulAssoc(q, l, x); MulAssoc(q, x, l); MulAssoc(p, l, y); MulAssoc(p, y, l);
        Distribute(q * x, p * y, l); }
      (q * x + p * y) * l;
    }
    DividesIntro(l, q * x + p * y);
  }

  lemma {:induction false} UnitFactor(k: int, g: int)
    requires g != 0 && k * g == g
    ensures k == 1
  {
    MulSigns(k, g);
    QuotientUnique(Abs(g), k, 0, 1, 0);
  }

  // ----- overflow tests ------------------------------------------------------------------

  const INT64_MIN: int := -0x8000_0000_0000_0000

  predicate AddOverflows(x: int, y: int, min: int, max: int) {
    (y > 0 && x > max - y) || (y < 0 && x < min - y)
  }

  predicate SubOverflows(x: int, y: int, min: int, max: int) {
    (y > 0 && x < min + y) || (y < 0 && x > max + y)
  }

  predicate MulOverflows(x: int, y: int, min: int, max: int) {
    if y == 0 then false
    else if y > 0 then x < TruncDiv(min, y) || x > TruncDiv(max, y)
    else (y == -1 && x == INT64_MIN) || x > TruncDiv(min, y) || x < TruncDiv(max, y)
  }

  /** A bound times a positive number, against the truncated quotient of the limit. */
  lemma {:induction false} QuotientLimit(x: int, y: int, m: int)
    requires y > 0
    ensures m >= 0 ==> (x > TruncDiv(m, y) <==> x * y > m)
    ensures m <= 0 ==> (x < TruncDiv(m, y) <==> x * y < m)
  {
    var q := TruncDiv(m, y);
    TruncModBound(m, y);
    if x > q { MulLe(q + 1, x, y); Distribute(q, 1, y); }
    if x <= q { MulLe(x, q, y); }
    if x < q { MulLe(x, q - 1, y); Distribute(q, 1, y); }
    if x >= q { MulLe(q, x, y); }
  }

  /** The overflow tests are exact: they say whether the result leaves [min, max]. */
  lemma {:induction false} OverflowExact(x: int, y: int, min: int, max: int)
    requires min <= 0 <= max && min <= x <= max
    ensures AddOverflows(x, y, min, max) <==> !(min <= x + y <= max)
    ensures SubOverflows(x, y, min, max) <==> !(min <= x - y <= max)
  {}

  lemma {:induction false} MulOverflowExact(x: int, y: int, min: int, max: int)
    requires min <= 0 <= max < -INT64_MIN
    ensures MulOverflows(x, y, min, max) <==> !(min <= x * y <= max)
  {
    if y > 0 {
      QuotientLimit(x, y, min);
      QuotientLimit(x, y, max);
    } else if y < 0 {
      NegatedQuotient(min, y);
      NegatedQuotient(max, y);
      QuotientLimit(x, -y, -min);
      QuotientLimit(x, -y, -max);
      MulSigns(x, y);
    }
  }

  lemma {:induction false} NegatedQuotient(m: int, y: int)
    requires y < 0
    ensures TruncDiv(m, y) == TruncDiv(-m, -y)
  {
    if m == 0 { assert 0 / -y == 0 by { DivModUnique(0, -y, 0, 0); } }
  }
}
