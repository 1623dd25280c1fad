/** Residue classes coeff * k + base as an abstract domain (src/arith/modular_set.cc). */
module ModularSet {
  import opened IntOperator
  import opened PrimExprs
  import opened Wrappers

  /** A coefficient of 0 stands for a constant. */
  datatype Entry = Entry(coeff: nat, base: int)

  predicate In(e: Entry, x: int) { Divides(e.coeff, x - e.base) }

  /** The constructor brings the base into [0, coeff). */
  function Make(coeff: nat, base: int): Entry { Entry(coeff, if coeff == 0 then base else base % coeff) }

  predicate Normal(e: Entry) { e.coeff > 0 ==> 0 <= e.base < e.coeff }

  const EVERYTHING := Entry(1, 0)
  const NOTHING := Entry(0, 1)

  function GcdOf(a: int, b: int): nat { Gcd(Abs(a), Abs(b)) }

  lemma {:induction false} GcdOfDivides(a: int, b: int)
    ensures Divides(GcdOf(a, b), a) && Divides(GcdOf(a, b), b)
    ensures GcdOf(a, b) == 0 <==> a == 0 && b == 0
  {
    GcdIsGreatest(Abs(a), Abs(b));
    DividesAbs(GcdOf(a, b), a);
    DividesAbs(GcdOf(a, b), b);
  }

  lemma {:induction false} DividesSum(d: int, a: int, b: int)
    requires Divides(d, a) && Divides(d, b)
    ensures Divides(d, a + b) && Divides(d, a - b)
  {
    DividesCombo(d, a, b, 1, 1);
    DividesCombo(d, a, b, 1, -1);
  }

  /** Normalising does not change the class. */
  lemma {:induction false} MakeMembers(coeff: nat, base: int, x: int)
    ensures In(Make(coeff, base), x) <==> Divides(coeff, x - base)
    ensures Normal(Make(coeff, base))
  {
    if coeff > 0 {
      var q, r := base / coeff, base % coeff;
      assert base == q * coeff + r;
      DividesIntro(coeff, q);
      if Divides(coeff, x - base) { DividesSum(coeff, x - base, q * coeff); }
      if Divides(coeff, x - r) { DividesSum(coeff, x - r, q * coeff); }
    }
  }

  lemma {:induction false} EverythingIn(x: int)
    ensures In(EVERYTHING, x)
  {
    DividesIntro(1, x);
  }

  // ----- sums and products -------------------------------------------------------------------

  function AddEntry(a: Entry, b: Entry): Entry { Make(GcdOf(a.coeff, b.coeff), a.base + b.base) }
  function SubEntry(a: Entry, b: Entry): Entry { Make(GcdOf(a.coeff, b.coeff), a.base - b.base) }

  function MulEntry(a: Entry, b: Entry): Entry {
    Make(GcdOf(a.coeff * b.coeff, GcdOf(a.coeff * b.base, a.base * b.coeff)), a.base * b.base)
  }

  lemma {:induction false} AddSound(a: Entry, b: Entry, x: int, y: int)
    requires In(a, x) && In(b, y)
    ensures In(AddEntry(a, b), x + y) && In(SubEntry(a, b), x - y)
  {
    var g := GcdOf(a.coeff, b.coeff);
    GcdOfDivides(a.coeff, b.coeff);
    DividesTrans(g, a.coeff, x - a.base);
    DividesTrans(g, b.coeff, y - b.base);
    DividesSum(g, x - a.base, y - b.base);
    assert x + y - (a.base + b.base) == (x - a.base) + (y - b.base);
    assert x - y - (a.base - b.base) == (x - a.base) - (y - b.base);
    MakeMembers(g, a.base + b.base, x + y);
    MakeMembers(g, a.base - b.base, x - y);
  }

  /** A multiple of the gcd, split between the two coefficients. */
  lemma {:induction false} SplitMultiple(p: nat, q: nat, t: int) returns (u: int, w: int)
    requires Divides(GcdOf(p, q), t)
    ensures t == u * p + w * q
  {
    var (g, x, y) := Bezout(p, q);
    BezoutIdentity(p, q);
    var k := DividesElim(GcdOf(p, q), t);
    u, w := k * x, k * y;
    CombineMultiple(k, p, x, q, y);
  }

  lemma {:induction false} CombineMultiple(k: int, p: int, x: int, q: int, y: int)
    ensures k * (p * x + q * y) == (k * x) * p + (k * y) * q
  {
    Distribute(p * x, q * y, k);
    MulAssoc(k, x, p);
    MulAssoc(k, y, q);
  }

  /** The sum is exact: every member is a sum of members. */
  lemma {:induction false} AddExact(a: Entry, b: Entry, z: int) returns (x: int, y: int)
    requires In(AddEntry(a, b), z)
    ensures In(a, x) && In(b, y) && x + y == z
  {
    MakeMembers(GcdOf(a.coeff, b.coeff), a.base + b.base, z);
    var u, w := SplitMultiple(a.coeff, b.coeff, z - (a.base + b.base));
    x, y := a.base + u * a.coeff, b.base + w * b.coeff;
    DividesIntro(a.coeff, u);
    DividesIntro(b.coeff, w);
  }

  lemma {:induction false} SubExact(a: Entry, b: Entry, z: int) returns (x: int, y: int)
    requires In(SubEntry(a, b), z)
    ensures In(a, x) && In(b, y) && x - y == z
  {
    MakeMembers(GcdOf(a.coeff, b.coeff), a.base - b.base, z);
    var u, w := SplitMultiple(a.coeff, b.coeff, z - (a.base - b.base));
    x, y := a.base + u * a.coeff, b.base - w * b.coeff;
    DividesIntro(a.coeff, u);
    MulSigns(w, b.coeff);
    DividesIntro(b.coeff, -w);
  }

  lemma {:induction false} MulSound(a: Entry, b: Entry, x: int, y: int)
    requires In(a, x) && In(b, y)
    ensures In(MulEntry(a, b), x * y)
  {
    var p, q, m, n := a.coeff, b.coeff, b.base, a.base;
    var k := DividesElim(p, x - n);
    var l := DividesElim(q, y - m);
    var inner := GcdOf(p * m, n * q);
    var g := GcdOf(p * q, inner);
    GcdOfDivides(p * m, n * q);
    GcdOfDivides(p * q, inner);
    DividesTrans(g, inner, p * m);
    DividesTrans(g, inner, n * q);
    ProductExpansion(p, q, m, n, k, l);
    DividesCombo(g, p * q, p * m, k * l, k);
    DividesCombo(g, n * q, 0, l, 0);
    DividesSum(g, (p * q) * (k * l) + (p * m) * k, (n * q) * l + 0 * 0);
    MakeMembers(g, n * m, x * y);
  }

  lemma {:induction false} ProductExpansion(p: int, q: int, m: int, n: int, k: int, l: int)
    ensures (k * p + n) * (l * q + m) - n * m == (p * q) * (k * l) + (p * m) * k + (n * q) * l
  {
    Distribute(k * p, n, l * q + m);
    Distribute(l * q, m, k * p);
    Distribute(l * q, m, n);
    assert (k * p) * (l * q) == (p * q) * (k * l) by { MulAssoc(k, p, l * q); MulAssoc(p, q, k * l); }
    assert (k * p) * m == (p * m) * k by { MulAssoc(k, p, m); }
    assert n * (l * q) == (n * q) * l by { MulAssoc(n, l, q); MulAssoc(n, q, l); }
  }

  // ----- union and intersection --------------------------------------------------------------

  function Union(a: Entry, b: Entry): Entry {
    var coeff := GcdOf(a.coeff, b.coeff);
    if coeff == 0 then (if a.base == b.base then a else EVERYTHING)
    else
      var base0, base1 := TruncMod(a.base, coeff), TruncMod(b.base, coeff);
      if base0 == base1 then Make(coeff, base0) else Make(GcdOf(GcdOf(base0, base1), coeff), base0)
  }

  /** Dividing by a divisor of the coefficient, a member is the reduced base plus a multiple. */
  lemma {:induction false} ReducedMember(e: Entry, coeff: nat, x: int)
    requires In(e, x) && coeff > 0 && Divides(coeff, e.coeff)
    ensures Divides(coeff, x - TruncMod(e.base, coeff))
  {
    DividesTrans(coeff, e.coeff, x - e.base);
    TruncModBound(e.base, coeff);
    DividesIntro(coeff, TruncDiv(e.base, coeff));
    DividesSum(coeff, x - e.base, TruncDiv(e.base, coeff) * coeff);
  }

  lemma {:induction false} UnionSound(a: Entry, b: Entry, x: int)
    requires In(a, x) || In(b, x)
    ensures In(Union(a, b), x)
  {
    var coeff := GcdOf(a.coeff, b.coeff);
    GcdOfDivides(a.coeff, b.coeff);
    EverythingIn(x);
    if coeff > 0 {
      var base0, base1 := TruncMod(a.base, coeff), TruncMod(b.base, coeff);
      if In(a, x) { ReducedMember(a, coeff, x); } else { ReducedMember(b, coeff, x); }
      MakeMembers(coeff, base0, x);
      if base0 != base1 { CoarserUnion(coeff, base0, base1, x); }
    }
  }

  lemma {:induction false} CoarserUnion(coeff: nat, base0: int, base1: int, x: int)
    requires Divides(coeff, x - base0) || Divides(coeff, x - base1)
    ensures In(Make(GcdOf(GcdOf(base0, base1), coeff), base0), x)
  {
    var inner := GcdOf(base0, base1);
    var g := GcdOf(inner, coeff);
    GcdOfDivides(base0, base1);
    GcdOfDivides(inner, coeff);
    DividesTrans(g, inner, base0);
    DividesTrans(g, inner, base1);
    var base := if Divides(coeff, x - base0) then base0 else base1;
    DividesTrans(g, coeff, x - base);
    DividesSum(g, x - base, base);
    DividesSum(g, x, base0);
    MakeMembers(g, base0, x);
  }

  /** The classes meet exactly when the gcd divides the distance of their bases. */
  predicate Meet(a: Entry, b: Entry) { Divides(Bezout(a.coeff, b.coeff).0, b.base - a.base) }

  /** Intersect, for coefficients that are not both 0. */
  function Intersect(a: Entry, b: Entry): Entry
    requires a.coeff > 0 || b.coeff > 0
  {
    var (g, x, y) := Bezout(a.coeff, b.coeff);
    BezoutIdentity(a.coeff, b.coeff);
    GcdOfDivides(a.coeff, b.coeff);
    var v := b.base - a.base;
    if TruncMod(v, g) == 0 then
      LcmNonNegative(a.coeff, b.coeff, g);
      Make(TruncDiv(a.coeff, g) * b.coeff, TruncDiv(v, g) * x * a.coeff + a.base)
    else NOTHING
  }

  lemma {:induction false} LcmNonNegative(c1: nat, c2: nat, g: int)
    requires g > 0
    ensures TruncDiv(c1, g) >= 0 && TruncDiv(c1, g) * c2 >= 0
  {
    assert TruncDiv(c1, g) == c1 / g;
    MulLe(0, c1 / g, c2);
  }

  /** The common member found from the Bezout coefficients. */
  lemma {:induction false} CommonMember(c1: int, b1: int, c2: int, b2: int, g: int, x: int, y: int, k: int)
    requires c1 * x + c2 * y == g && b2 - b1 == k * g
    ensures (k * x * c1 + b1) - b1 == (k * x) * c1 && (k * x * c1 + b1) - b2 == (k * -y) * c2
  {
    CombineMultiple(k, c1, x, c2, y);
    MulSigns(k, y);
    MulSigns(k * y, c2);
  }

  /** Common multiples are the multiples of c1 / g * c2. */
  lemma {:induction false} CommonMultiples(c1: int, c2: int, g: int, x: int, y: int, t: int)
    requires g > 0 && c1 * x + c2 * y == g && Divides(g, c1) && Divides(g, c2)
    ensures Divides(c1 / g * c2, t) <==> Divides(c1, t) && Divides(c2, t)
  {
    var p := DividesElim(g, c1);
    var q := DividesElim(g, c2);
    assert p * c2 == q * c1 by { MulAssoc(p, q, g); MulAssoc(q, p, g); }
    DividesIntro(c2, p);
    DividesIntro(c1, q);
    if Divides(p * c2, t) {
      DividesTrans(c1, p * c2, t);
      DividesTrans(c2, p * c2, t);
    }
    if Divides(c1, t) && Divides(c2, t) {
      var m := DividesElim(c1, t);
      var n := DividesElim(c2, t);
      UnitCombination(p, q, g, x, y);
      MultipleOfBoth(p, q, g, x, y, m, n, t);
      DividesIntro(p * c2, n * x + m * y);
    }
  }

  lemma {:induction false} UnitCombination(p: int, q: int, g: int, x: int, y: int)
    requires g > 0 && (p * g) * x + (q * g) * y == g
    ensures p * x + q * y == 1
  {
    var u := p * x + q * y;
    assert u * g == g by {
      Distribute(p * x, q * y, g);
      MulAssoc(p, x, g);
      MulAssoc(p, g, x);
      MulAssoc(q, y, g);
      MulAssoc(q, g, y);
    }
    if u > 1 { MulLe(2, u, g); }
    if u < 1 { MulLe(u, 0, g); }
  }

  lemma {:induction false} MultipleOfBoth(p: int, q: int, g: int, x: int, y: int, m: int, n: int, t: int)
    requires p * x + q * y == 1 && t == m * (p * g) && t == n * (q * g)
    ensures t == (n * x + m * y) * (p * (q * g))
  {
    Distribute(p * x, q * y, t);
    ReorderFirst(n, q, g, p, x);
    ReorderFirst(m, p, g, q, y);
    assert p * (q * g) == q * (p * g) by { MulAssoc(p, q, g); MulAssoc(q, p, g); }
    Distribute(n * x, m * y, p * (q * g));
  }

  lemma {:induction false} ReorderFirst(n: int, q: int, g: int, p: int, x: int)
    ensures (p * x) * (n * (q * g)) == (n * x) * (p * (q * g))
  {
    MulAssoc(p * x, n, q * g);
    MulAssoc(n * x, p, q * g);
    assert (p * x) * n == (n * x) * p by { MulAssoc(p, x, n); MulAssoc(n, x, p); }
  }

  /** Intersect is exact: the common members when there are any, and the empty branch exactly when
      there are none. */
  lemma {:induction false} IntersectExact(a: Entry, b: Entry, z: int)
    requires a.coeff > 0 || b.coeff > 0
    ensures Meet(a, b) ==> (In(Intersect(a, b), z) <==> In(a, z) && In(b, z))
    ensures !Meet(a, b) ==> Intersect(a, b) == NOTHING && !(In(a, z) && In(b, z))
  {
    var (g, x, y) := Bezout(a.coeff, b.coeff);
    BezoutIdentity(a.coeff, b.coeff);
    GcdOfDivides(a.coeff, b.coeff);
    var v := b.base - a.base;
    RemainderZero(v, g);
    if Meet(a, b) {
      var k := TruncDiv(v, g);
      var z0 := k * x * a.coeff + a.base;
      CommonMember(a.coeff, a.base, b.coeff, b.base, g, x, y, k);
      DividesIntro(a.coeff, k * x);
      DividesIntro(b.coeff, k * -y);
      LcmNonNegative(a.coeff, b.coeff, g);
      MakeMembers(TruncDiv(a.coeff, g) * b.coeff, z0, z);
      CommonMultiples(a.coeff, b.coeff, g, x, y, z - z0);
      SameClass(a.coeff, a.base, z0, z);
      SameClass(b.coeff, b.base, z0, z);
    } else if In(a, z) && In(b, z) {
      DividesTrans(g, a.coeff, z - a.base);
      DividesTrans(g, b.coeff, z - b.base);
      DividesSum(g, z - a.base, z - b.base);
      assert false;
    }
  }

  lemma {:induction false} SameClass(c: int, b: int, z0: int, z: int)
    requires Divides(c, z0 - b)
    ensures Divides(c, z - z0) <==> Divides(c, z - b)
  {
    if Divides(c, z - z0) { DividesSum(c, z - z0, z0 - b); }
    if Divides(c, z - b) { DividesSum(c, z - b, z0 - b); }
  }

  /** Where the classes meet, the intersection is not empty. */
  lemma {:induction false} MeetHasMember(a: Entry, b: Entry) returns (z: int)
    requires (a.coeff > 0 || b.coeff > 0) && Meet(a, b)
    ensures In(a, z) && In(b, z)
  {
    var e := Intersect(a, b);
    z := e.base;
    DividesIntro(e.coeff, 0);
    IntersectExact(a, b, z);
  }

  // ----- division by a constant --------------------------------------------------------------

  /** DivByConst; nonNegative is the analyzer's CanProveGreaterEqual(lhs, 0). */
  function DivByConst(a: Entry, val: int, roundDown: bool, nonNegative: bool): Option<Entry> {
    if val == 0 then None
    else if TruncMod(a.coeff, val) == 0 && a.base == 0 then Some(Make(Abs(TruncDiv(a.coeff, val)), 0))
    else if TruncMod(a.coeff, val) == 0 && a.base > 0 && val > 0 && (roundDown || nonNegative) then
      Some(Make(Abs(TruncDiv(a.coeff, val)), TruncDiv(a.base, val)))
    else Some(EVERYTHING)
  }

  lemma {:induction false} DivByConstSound(a: Entry, val: int, roundDown: bool, nonNegative: bool, x: int)
    requires In(a, x) && val != 0 && (nonNegative ==> x >= 0)
    ensures var r := DivByConst(a, val, roundDown, nonNegative);
            r.Some? && In(r.value, if roundDown then FloorDiv(x, val) else TruncDiv(x, val))
  {
    var q := if roundDown then FloorDiv(x, val) else TruncDiv(x, val);
    EverythingIn(q);
    if TruncMod(a.coeff, val) == 0 {
      var m := QuotientOfMultiple(a.coeff, val, x - a.base);
      var c := Abs(TruncDiv(a.coeff, val));
      if a.base == 0 {
        TruncDivExact(m, val);
        MakeMembers(c, 0, q);
      } else if a.base > 0 && val > 0 && (roundDown || nonNegative) {
        ShiftedQuotient(x, a.base, m, val);
        MakeMembers(c, TruncDiv(a.base, val), q);
      }
    }
  }

  /** A multiple of a coefficient that val divides is val times a multiple of the quotient. */
  lemma {:induction false} QuotientOfMultiple(coeff: int, val: int, t: int) returns (m: int)
    requires Divides(coeff, t) && val != 0 && TruncMod(coeff, val) == 0
    ensures t == m * val && Divides(Abs(TruncDiv(coeff, val)), m)
  {
    RemainderZero(coeff, val);
    var c := TruncDiv(coeff, val);
    var k := DividesElim(coeff, t);
    m := k * c;
    MulAssoc(k, c, val);
    MultipleOfAbs(c, k);
  }

  lemma {:induction false} MultipleOfAbs(c: int, k: int)
    ensures Divides(Abs(c), k * c)
  {
    DividesIntro(c, k);
    DividesAbs(c, k * c);
  }

  lemma {:induction false} ShiftedQuotient(x: int, base: int, m: int, val: int)
    requires val > 0 && base > 0 && x - base == m * val
    ensures FloorDiv(x, val) - TruncDiv(base, val) == m
    ensures x >= 0 ==> TruncDiv(x, val) == FloorDiv(x, val)
  {
    FloorIsEuclid(x, val);
    FloorIsEuclid(base, val);
    Distribute(m, base / val, val);
    DivModUnique(x, val, m + base / val, base % val);
  }

  // ----- the visitors ------------------------------------------------------------------------

  type Classes = map<nat, Entry>

  /** VisitExpr; nonNegative is what the parent analyzer can prove. None when a check fails. */
  function Visit(e: Expr, vars: Classes, nonNegative: Expr -> bool): Option<Entry> {
    match e
    case Var(v) => Some(if v in vars then vars[v] else EVERYTHING)
    case IntImm(n) => Some(Make(0, n))
    case Bin(op, x, y) =>
      if op in {Add, Sub, Mul, MinOp, MaxOp} then
        var a, b := Visit(x, vars, nonNegative), Visit(y, vars, nonNegative);
        if a.None? || b.None? then None
        else Some(match op
                  case Add => AddEntry(a.value, b.value)
                  case Sub => SubEntry(a.value, b.value)
                  case Mul => MulEntry(a.value, b.value)
                  case _ => Union(a.value, b.value))
      else if op in {Div, FloorDivOp} then
        var b := Visit(y, vars, nonNegative);
        if b.None? then None
        else if b.value.coeff != 0 then Some(EVERYTHING)
        else
          var a := Visit(x, vars, nonNegative);
          if a.None? then None else DivByConst(a.value, b.value.base, op == FloorDivOp, nonNegative(x))
      else Some(EVERYTHING)
    case Not(_) => Some(EVERYTHING)
    case Select(_, t, f) =>
      var a, b := Visit(t, vars, nonNegative), Visit(f, vars, nonNegative);
      if a.None? || b.None? then None else Some(Union(a.value, b.value))
  }

  /** No divisor in e is zero, and what is said to be non-negative is. */
  predicate Defined(e: Expr, env: Env, nonNegative: Expr -> bool) {
    match e
    case Bin(op, x, y) =>
      && (op in {Add, Sub, Mul, MinOp, MaxOp, Div, FloorDivOp} ==>
          Defined(x, env, nonNegative) && Defined(y, env, nonNegative))
      && (op in {Div, FloorDivOp} ==> Eval(y, env) != 0 && (nonNegative(x) ==> Eval(x, env) >= 0))
    case Select(_, t, f) => Defined(t, env, nonNegative) && Defined(f, env, nonNegative)
    case _ => true
  }

  ghost predicate KnownClasses(vars: Classes, env: Env) { forall v :: v in vars ==> In(vars[v], Get(env, v)) }

  /** Every check passes, and the value is in the class. */
  lemma {:induction false} VisitSound(e: Expr, vars: Classes, nonNegative: Expr -> bool, env: Env)
    requires Defined(e, env, nonNegative) && KnownClasses(vars, env)
    ensures Visit(e, vars, nonNegative).Some? && In(Visit(e, vars, nonNegative).value, Eval(e, env))
  {
    EverythingIn(Eval(e, env));
    match e {
      case Var(v) =>
      case IntImm(n) => DividesIntro(0, 0);
      case Bin(op, x, y) =>
        if op in {Add, Sub, Mul, MinOp, MaxOp, Div, FloorDivOp} {
          VisitSound(x, vars, nonNegative, env);
          VisitSound(y, vars, nonNegative, env);
          var a, b := Visit(x, vars, nonNegative).value, Visit(y, vars, nonNegative).value;
          VisitBinSound(op, a, b, Eval(x, env), Eval(y, env), op in {Div, FloorDivOp} && nonNegative(x));
        }
      case Not(_) =>
      case Select(_, t, f) =>
        VisitSound(t, vars, nonNegative, env);
        VisitSound(f, vars, nonNegative, env);
        UnionSound(Visit(t, vars, nonNegative).value, Visit(f, vars, nonNegative).value, Eval(e, env));
    }
  }

  lemma {:induction false} VisitBinSound(op: BinOp, a: Entry, b: Entry, x: int, y: int, nonNegative: bool)
    requires In(a, x) && In(b, y) && (op in {Div, FloorDivOp} ==> y != 0) && (nonNegative ==> x >= 0)
    ensures op == Add ==> In(AddEntry(a, b), EvalBin(op, x, y))
    ensures op == Sub ==> In(SubEntry(a, b), EvalBin(op, x, y))
    ensures op == Mul ==> In(MulEntry(a, b), EvalBin(op, x, y))
    ensures op in {MinOp, MaxOp} ==> In(Union(a, b), EvalBin(op, x, y))
    ensures op in {Div, FloorDivOp} && b.coeff == 0 ==>
              DivByConst(a, b.base, op == FloorDivOp, nonNegative).Some? &&
              In(DivByConst(a, b.base, op == FloorDivOp, nonNegative).value, EvalBin(op, x, y))
  {
    AddSound(a, b, x, y);
    MulSound(a, b, x, y);
    if op in {MinOp, MaxOp} { UnionSound(a, b, EvalBin(op, x, y)); }
    if op in {Div, FloorDivOp} && b.coeff == 0 { DivByConstSound(a, y, op == FloorDivOp, nonNegative, x); }
  }

  // ----- classes from a constraint -----------------------------------------------------------

  /** EnterConstraint's pattern: a remainder of a variable compared with a constant. */
  function DetectClass(cond: Expr): Option<(nat, int, int)> {
    match cond
    case Bin(EQ, Bin(op, Var(v), IntImm(coeff)), IntImm(base)) =>
      if op == Mod || op == FloorModOp then Some((v, coeff, base)) else None
    case _ => None
  }

  function Lookup(vars: Classes, v: nat): Entry { if v in vars then vars[v] else EVERYTHING }

  /** The variable's class, intersected with that of the constraint. */
  function Narrowed(vars: Classes, v: nat, coeff: nat, base: int): Entry
    requires coeff > 0
  {
    Intersect(Lookup(vars, v), Make(coeff, base))
  }

  /** What a remainder says besides the class: it is in range and, for C's remainder, has x's sign. */
  predicate RemainderFits(op: BinOp, x: int, coeff: int, base: int) {
    if op == FloorModOp then 0 <= base < coeff
    else -coeff < base < coeff && (base > 0 ==> x > 0) && (base < 0 ==> x < 0)
  }

  /** A remainder is base exactly if x is in the class of base and the remainder fits. */
  lemma {:induction false} RemainderExact(op: BinOp, x: int, coeff: int, base: int)
    requires coeff > 0 && (op == Mod || op == FloorModOp)
    ensures EvalBin(op, x, coeff) == base <==> Divides(coeff, x - base) && RemainderFits(op, x, coeff, base)
  {
    TruncModBound(x, coeff);
    FloorModBound(x, coeff);
    var q := if op == Mod then TruncDiv(x, coeff) else FloorDiv(x, coeff);
    var r := EvalBin(op, x, coeff);
    DividesIntro(coeff, q);
    if r == base {
      assert x - base == q * coeff;
    } else if Divides(coeff, x - base) && RemainderFits(op, x, coeff, base) {
      DividesSum(coeff, x - base, q * coeff);
      DividesLe(coeff, r - base);
      assert false;
    }
  }

  lemma {:induction false} RemainderClass(op: BinOp, v: nat, coeff: int, base: int, env: Env)
    requires coeff > 0 && (op == Mod || op == FloorModOp)
    ensures Holds(Bin(EQ, Bin(op, Var(v), IntImm(coeff)), IntImm(base)), env) <==>
            Divides(coeff, Get(env, v) - base) && RemainderFits(op, Get(env, v), coeff, base)
  {
    var x := Get(env, v);
    var lhs, rhs := Bin(op, Var(v), IntImm(coeff)), IntImm(base);
    assert Eval(Bin(EQ, lhs, rhs), env) == Truth(Eval(lhs, env) == Eval(rhs, env));
    assert Eval(Var(v), env) == x && Eval(IntImm(coeff), env) == coeff && Eval(rhs, env) == base;
    RemainderExact(op, x, coeff, base);
  }

  /** Within the variable's class, the constraint holds exactly in the narrowed class, as far as the
      remainder fits. */
  lemma {:induction false} NarrowedExact(vars: Classes, cond: Expr, env: Env)
    requires DetectClass(cond).Some? && DetectClass(cond).value.1 > 0 && KnownClasses(vars, env)
    ensures var (v, coeff, base) := DetectClass(cond).value;
            Holds(cond, env) <==>
            Meet(Lookup(vars, v), Make(coeff, base)) && In(Narrowed(vars, v, coeff, base), Get(env, v)) &&
            RemainderFits(cond.a.op, Get(env, v), coeff, base)
  {
    var (v, coeff, base) := DetectClass(cond).value;
    var x := Get(env, v);
    RemainderClass(cond.a.op, v, coeff, base, env);
    EverythingIn(x);
    MakeMembers(coeff, base, x);
    IntersectExact(Lookup(vars, v), Make(coeff, base), x);
  }

  /** Where the constraint holds, the variable is in the narrowed class. */
  lemma {:induction false} NarrowedSound(vars: Classes, cond: Expr, env: Env)
    requires DetectClass(cond).Some? && DetectClass(cond).value.1 > 0 && Holds(cond, env) && KnownClasses(vars, env)
    ensures var (v, coeff, base) := DetectClass(cond).value; In(Narrowed(vars, v, coeff, base), Get(env, v))
  {
    NarrowedExact(vars, cond, env);
  }

  /** Queries look variables up, nothing else. */
  lemma {:induction false} VisitLookup(e: Expr, vars: Classes, vars': Classes, nonNegative: Expr -> bool)
    requires forall v :: Lookup(vars, v) == Lookup(vars', v)
    ensures Visit(e, vars, nonNegative) == Visit(e, vars', nonNegative)
  {
    match e {
      case Var(v) => assert Lookup(vars, v) == Lookup(vars', v);
      case Bin(op, x, y) =>
        VisitLookup(x, vars, vars', nonNegative);
        VisitLookup(y, vars, vars', nonNegative);
      case Select(_, t, f) =>
        VisitLookup(t, vars, vars', nonNegative);
        VisitLookup(f, vars, vars', nonNegative);
      case _ =>
    }
  }
}
