/** How good the residue classes are (src/arith/modular_set.cc): when the class computed for a product, a
    union, a quotient or an expression is the least one that holds all the values. */
module ModularSetLeast {
  import opened IntOperator
  import opened PrimExprs
  import opened Wrappers
  import opened ModularSet

  ghost predicate Contains(e: Entry, f: Entry) { forall x :: In(f, x) ==> In(e, x) }

  /** A class contains another exactly if its coefficient divides the other's and it holds its base. */
  lemma {:induction false} ContainsExact(e: Entry, f: Entry)
    ensures Contains(e, f) <==> Divides(e.coeff, f.coeff) && In(e, f.base)
  {
    if Contains(e, f) {
      DividesIntro(f.coeff, 0);
      DividesIntro(f.coeff, 1);
      assert In(f, f.base) && In(f, f.base + f.coeff);
      DividesSum(e.coeff, f.base + f.coeff - e.base, f.base - e.base);
    }
    if Divides(e.coeff, f.coeff) && In(e, f.base) {
      forall x | In(f, x) ensures In(e, x) {
        DividesTrans(e.coeff, f.coeff, x - f.base);
        DividesSum(e.coeff, x - f.base, f.base - e.base);
      }
    }
  }

  /** The same for a class that Make brings into range. */
  lemma {:induction false} ContainsMade(e: Entry, coeff: nat, base: int)
    ensures Contains(e, Make(coeff, base)) <==> Divides(e.coeff, coeff) && In(e, base)
  {
    var f := Entry(coeff, base);
    forall x ensures In(Make(coeff, base), x) <==> In(f, x) { MakeMembers(coeff, base, x); }
    ContainsExact(e, f);
  }

  lemma {:induction false} DividesGcd(d: int, a: int, b: int)
    ensures Divides(d, GcdOf(a, b)) <==> Divides(d, a) && Divides(d, b)
  {
    GcdIsGreatest(Abs(a), Abs(b));
    DividesAbs(d, a);
    DividesAbs(d, b);
    GcdOfDivides(a, b);
    if Divides(d, GcdOf(a, b)) {
      DividesTrans(d, GcdOf(a, b), a);
      DividesTrans(d, GcdOf(a, b), b);
    }
  }

  lemma {:induction false} BaseIn(e: Entry, k: int)
    ensures In(e, e.base + k * e.coeff)
  {
    DividesIntro(e.coeff, k);
  }

  // ----- products ------------------------------------------------------------------------------

  ghost predicate HoldsProducts(e: Entry, a: Entry, b: Entry) {
    forall x, y :: In(a, x) && In(b, y) ==> In(e, x * y)
  }

  /** The class of a product is the least that holds all products. */
  lemma {:induction false} MulExact(a: Entry, b: Entry, e: Entry)
    ensures HoldsProducts(e, a, b) <==> Contains(e, MulEntry(a, b))
  {
    if HoldsProducts(e, a, b) {
      ProductSteps(a, b, e);
      var p, q, m, n := a.coeff, b.coeff, b.base, a.base;
      DividesGcd(e.coeff, p * m, n * q);
      DividesGcd(e.coeff, p * q, GcdOf(p * m, n * q));
      ContainsMade(e, GcdOf(p * q, GcdOf(p * m, n * q)), n * m);
    }
    if Contains(e, MulEntry(a, b)) {
      forall x, y | In(a, x) && In(b, y) ensures In(e, x * y) { MulSound(a, b, x, y); }
    }
  }

  /** The products of the first two members of each class. */
  lemma {:induction false} ProductSteps(a: Entry, b: Entry, e: Entry)
    requires HoldsProducts(e, a, b)
    ensures In(e, a.base * b.base) && Divides(e.coeff, a.coeff * b.base)
    ensures Divides(e.coeff, a.base * b.coeff) && Divides(e.coeff, a.coeff * b.coeff)
  {
    var p, q, m, n := a.coeff, b.coeff, b.base, a.base;
    BaseIn(a, 0);
    BaseIn(a, 1);
    BaseIn(b, 0);
    BaseIn(b, 1);
    assert In(a, n) && In(a, n + p) && In(b, m) && In(b, m + q);
    Distribute(n, p, m);
    Distribute(m, q, n);
    Distribute(m, q, n + p);
    Distribute(n, p, q);
    DividesSum(e.coeff, (n + p) * m - e.base, n * m - e.base);
    DividesSum(e.coeff, n * (m + q) - e.base, n * m - e.base);
    DividesSum(e.coeff, (n + p) * (m + q) - e.base, n * (m + q) - e.base);
    DividesSum(e.coeff, p * m + p * q, p * m);
  }

  // ----- unions --------------------------------------------------------------------------------

  /** r is within every class that contains both a and b. */
  ghost predicate LeastUnion(r: Entry, a: Entry, b: Entry) {
    forall e: Entry :: Contains(e, a) && Contains(e, b) ==> Contains(e, r)
  }

  /** The coefficient of the least class with both. */
  function Span(a: Entry, b: Entry): nat { GcdOf(GcdOf(a.coeff, b.coeff), b.base - a.base) }

  /** The bases agree, as C's remainders, or what they have in common with their distance divides them. */
  predicate UnionTight(a: Entry, b: Entry) {
    var coeff := GcdOf(a.coeff, b.coeff);
    if coeff == 0 then a.base == b.base || Span(a, b) == 1
    else TruncMod(a.base, coeff) == TruncMod(b.base, coeff) || Divides(Span(a, b), a.base)
  }

  lemma {:induction false} BothExact(e: Entry, a: Entry, b: Entry)
    ensures Contains(e, a) && Contains(e, b) <==> Divides(e.coeff, Span(a, b)) && In(e, a.base)
  {
    ContainsExact(e, a);
    ContainsExact(e, b);
    DividesGcd(e.coeff, a.coeff, b.coeff);
    DividesGcd(e.coeff, GcdOf(a.coeff, b.coeff), b.base - a.base);
    if In(e, a.base) && In(e, b.base) { DividesSum(e.coeff, b.base - e.base, a.base - e.base); }
    if In(e, a.base) && Divides(e.coeff, b.base - a.base) {
      DividesSum(e.coeff, b.base - a.base, a.base - e.base);
    }
  }

  /** The least class: contained in r's exactly if the span divides r's coefficient. */
  lemma {:induction false} LeastExact(r: Entry, a: Entry, b: Entry)
    requires Contains(r, a)
    ensures LeastUnion(r, a, b) <==> Divides(Span(a, b), r.coeff)
  {
    var d := Span(a, b);
    ContainsExact(r, a);
    var least := Entry(d, a.base);
    DividesIntro(d, 1);
    DividesIntro(d, 0);
    BothExact(least, a, b);
    ContainsExact(least, r);
    if Divides(d, r.coeff) {
      forall e: Entry | Contains(e, a) && Contains(e, b) ensures Contains(e, r) {
        BothExact(e, a, b);
        DividesTrans(e.coeff, d, r.coeff);
        DividesTrans(e.coeff, r.coeff, a.base - r.base);
        DividesSum(e.coeff, a.base - e.base, a.base - r.base);
        ContainsExact(e, r);
      }
    }
  }

  /** Union gives the least class with both exactly if the bases agree as remainders or the span divides
      them. */
  lemma {:induction false} UnionExact(a: Entry, b: Entry)
    ensures LeastUnion(Union(a, b), a, b) <==> UnionTight(a, b)
  {
    var coeff, d := GcdOf(a.coeff, b.coeff), Span(a, b);
    forall x | In(a, x) ensures In(Union(a, b), x) { UnionSound(a, b, x); }
    LeastExact(Union(a, b), a, b);
    GcdOfDivides(a.coeff, b.coeff);
    GcdOfDivides(coeff, b.base - a.base);
    if coeff == 0 {
      DividesOne(d);
      DividesIntro(1, a.base - b.base);
    } else {
      UnionModulus(a, b);
    }
  }

  lemma {:induction false} DividesOne(d: nat)
    ensures Divides(d, 1) <==> d == 1
  {
    if Divides(d, 1) { DividesLe(d, 1); }
  }

  lemma {:induction false} UnionModulus(a: Entry, b: Entry)
    requires GcdOf(a.coeff, b.coeff) > 0
    ensures Divides(Span(a, b), Union(a, b).coeff) <==> UnionTight(a, b)
  {
    var coeff, d := GcdOf(a.coeff, b.coeff), Span(a, b);
    var base0, base1 := TruncMod(a.base, coeff), TruncMod(b.base, coeff);
    GcdOfDivides(coeff, b.base - a.base);
    SameRemainders(d, coeff, a.base);
    SameRemainders(d, coeff, b.base);
    DividesGcd(d, base0, base1);
    DividesGcd(d, GcdOf(base0, base1), coeff);
    if Divides(d, a.base) { DividesSum(d, a.base, b.base - a.base); }
  }

  lemma {:induction false} SameRemainders(d: int, coeff: int, base: int)
    requires coeff > 0 && Divides(d, coeff)
    ensures Divides(d, TruncMod(base, coeff)) <==> Divides(d, base)
  {
    TruncModBound(base, coeff);
    DividesIntro(coeff, TruncDiv(base, coeff));
    DividesTrans(d, coeff, TruncDiv(base, coeff) * coeff);
    if Divides(d, base) { DividesSum(d, base, TruncDiv(base, coeff) * coeff); }
    if Divides(d, TruncMod(base, coeff)) { DividesSum(d, TruncMod(base, coeff), TruncDiv(base, coeff) * coeff); }
  }

  /** Two classes of odd numbers: their union is taken to be everything. */
  lemma {:induction false} UnionLosesOdd()
    ensures Union(Entry(4, 1), Entry(4, 3)) == EVERYTHING
    ensures Contains(Entry(2, 1), Entry(4, 1)) && Contains(Entry(2, 1), Entry(4, 3))
    ensures !Contains(Entry(2, 1), EVERYTHING)
  {
    assert GcdOf(4, 4) == 4 by { assert Gcd(4, 4) == Gcd(4, 0) == 4; }
    assert GcdOf(1, 3) == 1 by { assert Gcd(1, 3) == Gcd(3, 1) == Gcd(1, 0) == 1; }
    assert GcdOf(1, 4) == 1 by { assert Gcd(1, 4) == Gcd(4, 1) == Gcd(1, 0) == 1; }
    ContainsExact(Entry(2, 1), Entry(4, 1));
    ContainsExact(Entry(2, 1), Entry(4, 3));
    ContainsExact(Entry(2, 1), EVERYTHING);
  }

  // ----- quotients -----------------------------------------------------------------------------

  function Quotient(x: int, val: int, roundDown: bool): int
    requires val != 0
  {
    if roundDown then FloorDiv(x, val) else TruncDiv(x, val)
  }

  /** e holds the quotients of the members, or of those that are not negative. */
  ghost predicate HoldsQuotients(e: Entry, a: Entry, val: int, roundDown: bool, nonNegative: bool)
    requires val != 0
  {
    forall x :: In(a, x) && (nonNegative ==> x >= 0) ==> In(e, Quotient(x, val, roundDown))
  }

  ghost predicate LeastQuotient(r: Entry, a: Entry, val: int, roundDown: bool, nonNegative: bool)
    requires val != 0
  {
    forall e: Entry :: HoldsQuotients(e, a, val, roundDown, nonNegative) ==> Contains(e, r)
  }

  /** The divisor does not divide the coefficient, or is as large; the rounding is clear; or the division
      truncates towards zero from both sides. */
  predicate QuotientTight(a: Entry, val: int, roundDown: bool, nonNegative: bool) {
    || !Divides(val, a.coeff)
    || a.base == 0
    || (a.base > 0 && val > 0 && (roundDown || nonNegative))
    || a.coeff == Abs(val)
    || (!roundDown && !nonNegative && a.coeff > 0 && !Divides(val, a.base))
  }

  lemma {:induction false} FloorShift(x: int, m: int, v: int)
    requires v != 0
    ensures FloorDiv(x + m * v, v) == FloorDiv(x, v) + m
  {
    FloorModBound(x, v);
    Distribute(FloorDiv(x, v), m, v);
    FloorDivModUnique(x + m * v, v, FloorDiv(x, v) + m, FloorMod(x, v));
  }

  /** Quotients of numbers that are not negative, by floor division. */
  lemma {:induction false} QuotientAsFloor(x: int, val: int, roundDown: bool)
    requires val != 0 && x >= 0
    ensures roundDown || val > 0 ==> Quotient(x, val, roundDown) == FloorDiv(x, val)
    ensures !roundDown && val < 0 ==> Quotient(x, val, roundDown) == -FloorDiv(x, -val)
  {
    FloorIsEuclid(x, Abs(val));
  }

  /** Truncation, from floor division. */
  lemma {:induction false} TruncAsFloor(x: int, v: int)
    requires v != 0 && !Divides(v, x)
    ensures TruncDiv(x, v) == FloorDiv(x, v) + (if x >= 0 <==> v > 0 then 0 else 1)
  {
    RemainderZero(x, v);
    TruncModBound(x, v);
  }

  lemma {:induction false} MemberFrom(a: Entry, k: nat)
    requires a.coeff > 0 || a.base >= 0
    ensures In(a, a.base + (Abs(a.base) + k) * a.coeff) && a.base + (Abs(a.base) + k) * a.coeff >= 0
  {
    BaseIn(a, Abs(a.base) + k);
    if a.coeff > 0 { MulLe(1, a.coeff, Abs(a.base) + k); }
  }

  /** Quotients lie apart by multiples of e's coefficient. */
  lemma {:induction false} ApartBy(e: Entry, a: Entry, val: int, roundDown: bool, nonNegative: bool, x: int, y: int)
    requires val != 0 && HoldsQuotients(e, a, val, roundDown, nonNegative)
    requires In(a, x) && In(a, y) && (nonNegative ==> x >= 0 && y >= 0)
    ensures Divides(e.coeff, Quotient(x, val, roundDown) - Quotient(y, val, roundDown))
  {
    DividesSum(e.coeff, Quotient(x, val, roundDown) - e.base, Quotient(y, val, roundDown) - e.base);
  }

  /** The divisor that floor division is done by. */
  function Divisor(val: int, roundDown: bool): int { if roundDown then val else Abs(val) }

  lemma {:induction false} FloorsApart(e: Entry, a: Entry, val: int, roundDown: bool, nonNegative: bool, x: int, y: int)
    requires val != 0 && HoldsQuotients(e, a, val, roundDown, nonNegative)
    requires In(a, x) && In(a, y) && x >= 0 && y >= 0
    ensures Divides(e.coeff, FloorDiv(x, Divisor(val, roundDown)) - FloorDiv(y, Divisor(val, roundDown)))
  {
    ApartBy(e, a, val, roundDown, nonNegative, x, y);
    ApartBy(e, a, val, roundDown, nonNegative, y, x);
    QuotientAsFloor(x, val, roundDown);
    QuotientAsFloor(y, val, roundDown);
  }

  /** If the divisor divides the coefficient, e's coefficient divides their quotient. */
  lemma {:induction false} EvenStep(e: Entry, a: Entry, val: int, roundDown: bool, nonNegative: bool)
    requires val != 0 && HoldsQuotients(e, a, val, roundDown, nonNegative) && Divides(val, a.coeff)
    requires a.coeff > 0 || a.base >= 0
    ensures Divides(e.coeff, TruncDiv(a.coeff, val))
  {
    var v := Divisor(val, roundDown);
    var x, y := a.base + Abs(a.base) * a.coeff, a.base + (Abs(a.base) + 1) * a.coeff;
    MemberFrom(a, 0);
    MemberFrom(a, 1);
    Distribute(Abs(a.base), 1, a.coeff);
    FloorsApart(e, a, val, roundDown, nonNegative, y, x);
    DividesAbs(val, a.coeff);
    RemainderZero(a.coeff, v);
    RemainderZero(a.coeff, val);
    FloorShift(x, TruncDiv(a.coeff, v), v);
    DividesAbs(e.coeff, TruncDiv(a.coeff, val));
    DividesAbs(e.coeff, TruncDiv(a.coeff, v));
  }

  // Floor division of c * i steps unevenly if the divisor does not divide c.

  function At(x: int, c: int, v: int, i: nat): int
    requires v != 0
  {
    FloorDiv(x + i * c, v)
  }

  ghost predicate AllApart(x: int, c: int, v: int, m: int)
    requires v != 0
  {
    forall i: nat, j: nat :: Divides(m, At(x, c, v, i) - At(x, c, v, j))
  }

  lemma {:induction false} FloorOfSum(x: int, c: int, v: int)
    requires v != 0
    ensures FloorDiv(x + c, v) - FloorDiv(x, v) - FloorDiv(c, v) in {0, 1}
  {
    FloorModBound(x, v);
    FloorModBound(c, v);
    var q, r := FloorDiv(x, v) + FloorDiv(c, v), FloorMod(x, v) + FloorMod(c, v);
    Distribute(FloorDiv(x, v), FloorDiv(c, v), v);
    Distribute(q, 1, v);
    FloorDivModUnique(x + c, v, q, r);
    FloorDivModUnique(x + c, v, q + 1, r - v);
  }

  lemma {:induction false} OneStep(x: int, c: int, v: int, i: nat)
    requires v != 0
    ensures At(x, c, v, i + 1) - At(x, c, v, i) - FloorDiv(c, v) in {0, 1}
  {
    Distribute(i, 1, c);
    FloorOfSum(x + i * c, c, v);
  }

  lemma {:induction false} EqualSteps(s: int, t: int, q: int, m: nat)
    requires m != 1 && Divides(m, s) && Divides(m, t) && s - q in {0, 1} && t - q in {0, 1}
    ensures s == t
  {
    DividesSum(m, s, t);
    DividesAbs(m, s - t);
    DividesOne(m);
  }

  lemma {:induction false} SameSteps(x: int, c: int, v: int, m: nat, j: nat)
    requires v != 0 && m != 1 && AllApart(x, c, v, m)
    ensures At(x, c, v, j) - At(x, c, v, 0) == j * (At(x, c, v, 1) - At(x, c, v, 0))
  {
    if j > 0 {
      var i := j - 1;
      SameSteps(x, c, v, m, i);
      OneStep(x, c, v, 0);
      OneStep(x, c, v, i);
      var s := At(x, c, v, 1) - At(x, c, v, 0);
      EqualSteps(At(x, c, v, j) - At(x, c, v, i), s, FloorDiv(c, v), m);
      Distribute(i, 1, s);
    }
  }

  lemma {:induction false} UnevenSteps(x: int, c: int, v: int, m: nat)
    requires v != 0 && !Divides(v, c) && AllApart(x, c, v, m)
    ensures m == 1
  {
    if m != 1 {
      var n, s := Abs(v), At(x, c, v, 1) - At(x, c, v, 0);
      SameSteps(x, c, v, m, n);
      FloorShift(x, if v > 0 then c else -c, v);
      MulSigns(c, v);
      MulSigns(v, s);
      DividesIntro(v, s);
      assert false;
    }
  }

  /** If it does not, e holds everything. */
  lemma {:induction false} UnevenQuotient(e: Entry, a: Entry, val: int, roundDown: bool, nonNegative: bool)
    requires val != 0 && HoldsQuotients(e, a, val, roundDown, nonNegative) && !Divides(val, a.coeff)
    ensures e.coeff == 1
  {
    DividesIntro(val, 0);
    assert a.coeff > 0;
    var v := Divisor(val, roundDown);
    DividesAbs(val, a.coeff);
    var x := a.base + Abs(a.base) * a.coeff;
    forall i: nat, j: nat ensures Divides(e.coeff, At(x, a.coeff, v, i) - At(x, a.coeff, v, j)) {
      MemberFrom(a, i);
      MemberFrom(a, j);
      Distribute(Abs(a.base), i, a.coeff);
      Distribute(Abs(a.base), j, a.coeff);
      FloorsApart(e, a, val, roundDown, nonNegative, x + i * a.coeff, x + j * a.coeff);
    }
    UnevenSteps(x, a.coeff, v, e.coeff);
  }

  lemma {:induction false} SameResidue(v: int, c: int, b: int, k: int)
    requires Divides(v, c)
    ensures Divides(v, b + k * c) <==> Divides(v, b)
  {
    DividesIntro(c, k);
    DividesTrans(v, c, k * c);
    if Divides(v, b + k * c) { DividesSum(v, b + k * c, k * c); }
    if Divides(v, b) { DividesSum(v, b, k * c); }
  }

  /** Truncation on both sides of zero: e holds everything. */
  lemma {:induction false} TwoSides(e: Entry, a: Entry, val: int)
    requires val != 0 && HoldsQuotients(e, a, val, false, false) && Divides(val, a.coeff)
    requires a.coeff > 0 && !Divides(val, a.base)
    ensures e.coeff == 1
  {
    var k := Abs(a.base);
    var x := a.base + k * a.coeff;
    var w := TruncDiv(a.coeff, val);
    var y := a.base + (k - (x + 1)) * a.coeff;
    MemberFrom(a, 0);
    BaseIn(a, k - (x + 1));
    Distribute(k, x + 1, a.coeff);
    MulLe(1, a.coeff, x + 1);
    SameResidue(val, a.coeff, a.base, k);
    SameResidue(val, a.coeff, a.base, k - (x + 1));
    TruncAsFloor(x, val);
    TruncAsFloor(y, val);
    ApartBy(e, a, val, false, false, x, y);
    EvenStep(e, a, val, false, false);
    RemainderZero(a.coeff, val);
    MulAssoc(x + 1, w, val);
    FloorShift(y, (x + 1) * w, val);
    DividesIntro(w, x + 1);
    DividesTrans(e.coeff, w, (x + 1) * w);
    DividesSum(e.coeff, TruncDiv(x, val) - TruncDiv(y, val), (x + 1) * w);
    DividesAbs(e.coeff, TruncDiv(x, val) - TruncDiv(y, val) - (x + 1) * w);
    DividesOne(e.coeff);
  }

  /** Quotients within one class when the rounding is the same for all. */
  lemma {:induction false} QuotientsWithin(a: Entry, val: int, roundDown: bool, nonNegative: bool) returns (e: Entry)
    requires val != 0 && Divides(val, a.coeff)
    requires roundDown || nonNegative || a.coeff == 0 || Divides(val, a.base)
    ensures HoldsQuotients(e, a, val, roundDown, nonNegative) && e.coeff == Abs(TruncDiv(a.coeff, val))
  {
    var c := Abs(TruncDiv(a.coeff, val));
    if a.coeff == 0 {
      e := Entry(c, Quotient(a.base, val, roundDown));
      DividesIntro(c, 0);
    } else if roundDown || Divides(val, a.base) {
      e := Entry(c, FloorDiv(a.base, val));
      forall x | In(a, x) ensures In(e, Quotient(x, val, roundDown)) { FloorWithin(a, val, x, roundDown); }
    } else {
      var s := if val > 0 then 1 else -1;
      e := Entry(c, s * FloorDiv(a.base, Abs(val)));
      forall x | In(a, x) && x >= 0 ensures In(e, Quotient(x, val, false)) { TruncWithin(a, val, x); }
    }
  }

  lemma {:induction false} FloorWithin(a: Entry, val: int, x: int, roundDown: bool)
    requires val != 0 && Divides(val, a.coeff) && In(a, x) && (roundDown || Divides(val, a.base))
    ensures Divides(Abs(TruncDiv(a.coeff, val)), Quotient(x, val, roundDown) - FloorDiv(a.base, val))
  {
    RemainderZero(a.coeff, val);
    var m := QuotientOfMultiple(a.coeff, val, x - a.base);
    FloorShift(a.base, m, val);
    if !roundDown {
      DividesIntro(val, m);
      DividesSum(val, a.base, m * val);
      RemainderZero(x, val);
    }
  }

  lemma {:induction false} TruncWithin(a: Entry, val: int, x: int)
    requires val != 0 && Divides(val, a.coeff) && In(a, x) && x >= 0
    ensures var s := if val > 0 then 1 else -1;
            Divides(Abs(TruncDiv(a.coeff, val)), TruncDiv(x, val) - s * FloorDiv(a.base, Abs(val)))
  {
    var v := Abs(val);
    DividesAbs(val, a.coeff);
    RemainderZero(a.coeff, v);
    var m := QuotientOfMultiple(a.coeff, v, x - a.base);
    FloorShift(a.base, m, v);
    QuotientAsFloor(x, val, false);
    DividesNegate(Abs(TruncDiv(a.coeff, v)), m);
  }

  /** DivByConst gives the least class with all quotients exactly under QuotientTight. */
  lemma {:induction false} DivByConstExact(a: Entry, val: int, roundDown: bool, nonNegative: bool)
    requires val != 0
    ensures var r := DivByConst(a, val, roundDown, nonNegative);
            r.Some? &&
            (LeastQuotient(r.value, a, val, roundDown, nonNegative) <==> QuotientTight(a, val, roundDown, nonNegative))
  {
    RemainderZero(a.coeff, val);
    var r := DivByConst(a, val, roundDown, nonNegative).value;
    if QuotientTight(a, val, roundDown, nonNegative) {
      forall e: Entry | HoldsQuotients(e, a, val, roundDown, nonNegative) ensures Contains(e, r) {
        QuotientContained(e, a, val, roundDown, nonNegative);
      }
    } else {
      var e := QuotientsWithin(a, val, roundDown, nonNegative);
      ContainsExact(e, EVERYTHING);
      DividesOne(e.coeff);
      if e.coeff == 1 { UnitQuotient(a.coeff, val); }
    }
  }

  lemma {:induction false} UnitQuotient(coeff: nat, val: int)
    requires val != 0 && Divides(val, coeff)
    ensures Abs(TruncDiv(coeff, val)) == 1 <==> coeff == Abs(val)
  {
    RemainderZero(coeff, val);
    TruncDivExact(1, val);
    TruncDivExact(-1, val);
  }

  lemma {:induction false} QuotientContained(e: Entry, a: Entry, val: int, roundDown: bool, nonNegative: bool)
    requires val != 0 && HoldsQuotients(e, a, val, roundDown, nonNegative)
    requires QuotientTight(a, val, roundDown, nonNegative) && DivByConst(a, val, roundDown, nonNegative).Some?
    ensures Contains(e, DivByConst(a, val, roundDown, nonNegative).value)
  {
    RemainderZero(a.coeff, val);
    BaseIn(a, 0);
    DividesAbs(e.coeff, TruncDiv(a.coeff, val));
    if !Divides(val, a.coeff) {
      UnevenQuotient(e, a, val, roundDown, nonNegative);
      HoldsAll(e);
    } else if a.base == 0 {
      EvenStep(e, a, val, roundDown, nonNegative);
      TruncDivExact(0, val);
      ContainsMade(e, Abs(TruncDiv(a.coeff, val)), 0);
    } else if a.base > 0 && val > 0 && (roundDown || nonNegative) {
      EvenStep(e, a, val, roundDown, nonNegative);
      QuotientAsFloor(a.base, val, roundDown);
      FloorIsEuclid(a.base, val);
      ContainsMade(e, Abs(TruncDiv(a.coeff, val)), TruncDiv(a.base, val));
    } else if a.coeff == Abs(val) {
      EvenStep(e, a, val, roundDown, nonNegative);
      UnitQuotient(a.coeff, val);
      DividesOne(e.coeff);
      HoldsAll(e);
    } else {
      TwoSides(e, a, val);
      HoldsAll(e);
    }
  }

  lemma {:induction false} HoldsAll(e: Entry)
    requires e.coeff == 1
    ensures Contains(e, EVERYTHING)
  {
    DividesIntro(1, 0 - e.base);
    ContainsExact(e, EVERYTHING);
  }

  // ----- expressions ---------------------------------------------------------------------------

  /** Sums, differences and products in which no variable occurs twice. */
  predicate Plain(e: Expr) {
    match e
    case Var(_) => true
    case IntImm(_) => true
    case Bin(op, x, y) => op in {Add, Sub, Mul} && Plain(x) && Plain(y) && FreeVars(x) !! FreeVars(y)
    case _ => false
  }

  lemma {:induction false} PlainDefined(e: Expr, env: Env, nonNegative: Expr -> bool)
    requires Plain(e)
    ensures Defined(e, env, nonNegative)
  {
    if e.Bin? {
      PlainDefined(e.a, env, nonNegative);
      PlainDefined(e.b, env, nonNegative);
    }
  }

  lemma {:induction false} SomeMember(vars: Classes) returns (env: Env)
    ensures KnownClasses(vars, env)
  {
    env := map v | v in vars :: vars[v].base;
    forall v | v in vars ensures In(vars[v], Get(env, v)) { BaseIn(vars[v], 0); }
  }

  lemma {:induction false} MergedKnown(vars: Classes, first: Env, second: Env, vs: set<nat>)
    requires KnownClasses(vars, first) && KnownClasses(vars, second)
    ensures KnownClasses(vars, Merge(first, second, vs))
  {
    var env := Merge(first, second, vs);
    forall v | v in vars ensures In(vars[v], Get(env, v)) {
      assert Get(env, v) == Get(first, v) || Get(env, v) == Get(second, v);
    }
  }

  /** k times the distance of any two values of e is a multiple of m. */
  ghost predicate Spread(e: Expr, vars: Classes, k: int, m: int) {
    forall env, env' :: KnownClasses(vars, env) && KnownClasses(vars, env') ==>
      Divides(m, k * (Eval(e, env) - Eval(e, env')))
  }

  lemma {:induction false} GcdTimes(m: int, k: int, a: int, b: int)
    requires Divides(m, k * a) && Divides(m, k * b)
    ensures Divides(m, k * GcdOf(a, b))
  {
    var p, q := Abs(a), Abs(b);
    DividesAbs(m, k * a);
    MulSigns(k, a);
    MulSigns(k, b);
    if a < 0 { DividesNegate(m, k * a); }
    if b < 0 { DividesNegate(m, k * b); }
    var (g, x, y) := Bezout(p, q);
    BezoutIdentity(p, q);
    Distribute(p * x, q * y, k);
    MulAssoc(k, p, x);
    MulAssoc(k, q, y);
    DividesCombo(m, k * p, k * q, x, y);
  }

  /** The left operand with the right one held. */
  lemma {:induction false} LeftSpread(e: Expr, vars: Classes, k: int, m: int, held: Env)
    requires e.Bin? && Plain(e) && Spread(e, vars, k, m) && KnownClasses(vars, held)
    ensures Spread(e.a, vars, if e.op == Mul then k * Eval(e.b, held) else k, m)
  {
    var n, vs := if e.op == Mul then k * Eval(e.b, held) else k, FreeVars(e.a);
    forall env, env' | KnownClasses(vars, env) && KnownClasses(vars, env')
      ensures Divides(m, n * (Eval(e.a, env) - Eval(e.a, env')))
    {
      MergedKnown(vars, env, held, vs);
      MergedKnown(vars, env', held, vs);
      MergedEval(e.a, e.b, env, held);
      MergedEval(e.a, e.b, env', held);
      EvalOf(e, Merge(env, held, vs));
      EvalOf(e, Merge(env', held, vs));
      LeftStep(e.op, k, m, Eval(e.a, env), Eval(e.a, env'), Eval(e.b, held));
    }
  }

  lemma {:induction false} RightSpread(e: Expr, vars: Classes, k: int, m: int, held: Env)
    requires e.Bin? && Plain(e) && Spread(e, vars, k, m) && KnownClasses(vars, held)
    ensures Spread(e.b, vars, if e.op == Mul then k * Eval(e.a, held) else k, m)
  {
    var n, vs := if e.op == Mul then k * Eval(e.a, held) else k, FreeVars(e.a);
    forall env, env' | KnownClasses(vars, env) && KnownClasses(vars, env')
      ensures Divides(m, n * (Eval(e.b, env) - Eval(e.b, env')))
    {
      MergedKnown(vars, held, env, vs);
      MergedKnown(vars, held, env', vs);
      MergedEval(e.a, e.b, held, env);
      MergedEval(e.a, e.b, held, env');
      EvalOf(e, Merge(held, env, vs));
      EvalOf(e, Merge(held, env', vs));
      RightStep(e.op, k, m, Eval(e.b, env), Eval(e.b, env'), Eval(e.a, held));
    }
  }

  function Combined(op: BinOp, x: int, y: int): int {
    if op == Add then x + y else if op == Sub then x - y else x * y
  }

  lemma {:induction false} EvalOf(e: Expr, env: Env)
    requires e.Bin? && e.op in {Add, Sub, Mul}
    ensures Eval(e, env) == Combined(e.op, Eval(e.a, env), Eval(e.b, env))
  {}

  lemma {:induction false} LeftStep(op: BinOp, k: int, m: int, x: int, x': int, y: int)
    requires op in {Add, Sub, Mul} && Divides(m, k * (Combined(op, x, y) - Combined(op, x', y)))
    ensures Divides(m, (if op == Mul then k * y else k) * (x - x'))
  {
    Factored(k, x, x', y);
    assert op != Mul ==> Combined(op, x, y) - Combined(op, x', y) == x - x';
  }

  lemma {:induction false} RightStep(op: BinOp, k: int, m: int, x: int, x': int, y: int)
    requires op in {Add, Sub, Mul} && Divides(m, k * (Combined(op, y, x) - Combined(op, y, x')))
    ensures Divides(m, (if op == Mul then k * y else k) * (x - x'))
  {
    Factored(k, x, x', y);
    if op == Sub {
      assert Combined(op, y, x) - Combined(op, y, x') == x' - x;
      DividesNegate(m, k * (x' - x));
      Distribute(x, x', k);
    }
  }

  lemma {:induction false} Factored(k: int, x: int, x': int, y: int)
    ensures k * (x * y - x' * y) == (k * y) * (x - x') && k * (y * x - y * x') == (k * y) * (x - x')
  {
    Distribute(x, x', y);
    MulAssoc(k, y, x - x');
  }

  /** From a member to the base. */
  lemma {:induction false} AtBase(m: int, k: int, p: int, e: Entry, y: int)
    requires In(e, y) && Divides(m, k * y * p) && Divides(m, k * p * e.coeff)
    ensures Divides(m, k * (p * e.base))
  {
    var l := DividesElim(e.coeff, y - e.base);
    DividesCombo(m, k * y * p, k * p * e.coeff, 1, -l);
    ShiftedProduct(k, y, p, l, e.coeff, e.base);
  }

  lemma {:induction false} ShiftedProduct(k: int, y: int, p: int, l: int, c: int, b: int)
    requires y - b == l * c
    ensures k * y * p * 1 + k * p * c * -l == k * (p * b)
  {
    var kp := k * p;
    assert k * y * p == kp * y by { MulAssoc(k, y, p); MulAssoc(k, p, y); }
    assert kp * c * -l == -(kp * (l * c)) by { MulSigns(kp * c, l); MulAssoc(kp, c, l); }
    Distribute(y, l * c, kp);
    MulAssoc(k, p, b);
  }

  /** What divides the distances of all values divides the coefficient. */
  lemma {:induction false} VisitSpans(e: Expr, vars: Classes, nonNegative: Expr -> bool, k: int, m: int)
    requires Plain(e) && Spread(e, vars, k, m)
    ensures Visit(e, vars, nonNegative).Some? && Divides(m, k * Visit(e, vars, nonNegative).value.coeff)
    decreases e, 2
  {
    match e
    case Var(v) => VariableSpans(v, vars, k, m);
    case IntImm(_) => DividesIntro(m, 0);
    case Bin(op, x, y) =>
      if op == Mul {
        ProductSpans(e, vars, nonNegative, k, m);
      } else {
        var held := SomeMember(vars);
        LeftSpread(e, vars, k, m, held);
        RightSpread(e, vars, k, m, held);
        VisitSpans(x, vars, nonNegative, k, m);
        VisitSpans(y, vars, nonNegative, k, m);
        GcdTimes(m, k, Visit(x, vars, nonNegative).value.coeff, Visit(y, vars, nonNegative).value.coeff);
      }
  }

  lemma {:induction false} VariableSpans(v: nat, vars: Classes, k: int, m: int)
    requires Spread(Var(v), vars, k, m)
    ensures Divides(m, k * Lookup(vars, v).coeff)
  {
    var c := Lookup(vars, v);
    var env := SomeMember(vars);
    var low, high := env[v := c.base], env[v := c.base + c.coeff];
    BaseIn(c, 0);
    BaseIn(c, 1);
    assert KnownClasses(vars, low) && KnownClasses(vars, high);
    assert Eval(Var(v), high) - Eval(Var(v), low) == c.coeff;
  }

  lemma {:induction false} ProductSpans(e: Expr, vars: Classes, nonNegative: Expr -> bool, k: int, m: int)
    requires e.Bin? && e.op == Mul && Plain(e) && Spread(e, vars, k, m)
    ensures Visit(e, vars, nonNegative).Some? && Divides(m, k * Visit(e, vars, nonNegative).value.coeff)
    decreases e, 1
  {
    var held := SomeMember(vars);
    PlainDefined(e.a, held, nonNegative);
    PlainDefined(e.b, held, nonNegative);
    VisitSound(e.a, vars, nonNegative, held);
    VisitSound(e.b, vars, nonNegative, held);
    var a, b := Visit(e.a, vars, nonNegative).value, Visit(e.b, vars, nonNegative).value;
    var x, y := Eval(e.a, held), Eval(e.b, held);
    LeftSpread(e, vars, k, m, held);
    RightSpread(e, vars, k, m, held);
    VisitSpans(e.a, vars, nonNegative, k * y, m);
    VisitSpans(e.b, vars, nonNegative, k * x, m);
    CrossSpread(e, vars, nonNegative, k, m);
    VisitSpans(e.b, vars, nonNegative, k * a.coeff, m);
    ProductDivides(a, b, k, m, x, y);
  }

  lemma {:induction false} ProductDivides(a: Entry, b: Entry, k: int, m: int, x: int, y: int)
    requires In(a, x) && In(b, y) && Divides(m, k * y * a.coeff) && Divides(m, k * x * b.coeff)
    requires Divides(m, k * a.coeff * b.coeff)
    ensures Divides(m, k * MulEntry(a, b).coeff)
  {
    var p, q := a.coeff, b.coeff;
    AtBase(m, k, p, b, y);
    assert k * q * p == k * p * q by { MulAssoc(k, q, p); MulAssoc(k, p, q); }
    AtBase(m, k, q, a, x);
    MulAssoc(k, p, q);
    GcdTimes(m, k, p * b.base, a.base * q);
    GcdTimes(m, k, p * q, GcdOf(p * b.base, a.base * q));
  }

  /** The right operand, scaled by the coefficient of the left. */
  lemma {:induction false} CrossSpread(e: Expr, vars: Classes, nonNegative: Expr -> bool, k: int, m: int)
    requires e.Bin? && e.op == Mul && Plain(e) && Spread(e, vars, k, m) && Visit(e.a, vars, nonNegative).Some?
    ensures Spread(e.b, vars, k * Visit(e.a, vars, nonNegative).value.coeff, m)
    decreases e, 0
  {
    var p := Visit(e.a, vars, nonNegative).value.coeff;
    forall env, env' | KnownClasses(vars, env) && KnownClasses(vars, env')
      ensures Divides(m, (k * p) * (Eval(e.b, env) - Eval(e.b, env')))
    {
      var y, y' := Eval(e.b, env), Eval(e.b, env');
      LeftSpread(e, vars, k, m, env);
      LeftSpread(e, vars, k, m, env');
      VisitSpans(e.a, vars, nonNegative, k * y, m);
      VisitSpans(e.a, vars, nonNegative, k * y', m);
      DividesSum(m, k * y * p, k * y' * p);
      CrossProduct(k, y, y', p);
    }
  }

  lemma {:induction false} CrossProduct(k: int, y: int, y': int, p: int)
    ensures k * y * p - k * y' * p == (k * p) * (y - y')
  {
    Distribute(y, y', k * p);
    assert k * y * p == (k * p) * y by { MulAssoc(k, y, p); MulAssoc(k, p, y); }
    assert k * y' * p == (k * p) * y' by { MulAssoc(k, y', p); MulAssoc(k, p, y'); }
  }

  /** Values of e, over all valuations within the classes, are in f. */
  ghost predicate HoldsValues(f: Entry, e: Expr, vars: Classes) {
    forall env: Env :: KnownClasses(vars, env) ==> In(f, Eval(e, env))
  }

  lemma {:induction false} PlainSound(e: Expr, vars: Classes, nonNegative: Expr -> bool, env: Env)
    requires Plain(e) && KnownClasses(vars, env)
    ensures Visit(e, vars, nonNegative).Some? && In(Visit(e, vars, nonNegative).value, Eval(e, env))
  {
    PlainDefined(e, env, nonNegative);
    VisitSound(e, vars, nonNegative, env);
  }

  lemma {:induction false} ValuesSpread(f: Entry, e: Expr, vars: Classes)
    requires HoldsValues(f, e, vars)
    ensures Spread(e, vars, 1, f.coeff)
  {
    forall env, env' | KnownClasses(vars, env) && KnownClasses(vars, env')
      ensures Divides(f.coeff, 1 * (Eval(e, env) - Eval(e, env')))
    {
      TwoMembers(f, Eval(e, env), Eval(e, env'));
    }
  }

  lemma {:induction false} TwoMembers(f: Entry, x: int, y: int)
    requires In(f, x) && In(f, y)
    ensures Divides(f.coeff, 1 * (x - y))
  {
    DividesSum(f.coeff, x - f.base, y - f.base);
  }

  /** A class that another coefficient divides, with a common member. */
  lemma {:induction false} CoarserContains(f: Entry, r: Entry, x: int)
    requires Divides(f.coeff, r.coeff) && In(f, x) && In(r, x)
    ensures Contains(f, r)
  {
    DividesTrans(f.coeff, r.coeff, x - r.base);
    DividesSum(f.coeff, x - f.base, x - r.base);
    ContainsExact(f, r);
  }

  /** The class of a plain expression is the least that holds all its values. */
  lemma {:induction false} VisitExact(e: Expr, vars: Classes, nonNegative: Expr -> bool, f: Entry)
    requires Plain(e)
    ensures Visit(e, vars, nonNegative).Some?
    ensures HoldsValues(f, e, vars) <==> Contains(f, Visit(e, vars, nonNegative).value)
  {
    var env := SomeMember(vars);
    PlainSound(e, vars, nonNegative, env);
    var r := Visit(e, vars, nonNegative).value;
    if HoldsValues(f, e, vars) {
      ValuesSpread(f, e, vars);
      VisitSpans(e, vars, nonNegative, 1, f.coeff);
      CoarserContains(f, r, Eval(e, env));
    }
    if Contains(f, r) {
      forall env: Env | KnownClasses(vars, env) ensures In(f, Eval(e, env)) {
        PlainSound(e, vars, nonNegative, env);
      }
    }
  }
}
