/** Division of a sum of splits by a constant: the divisible part divides term by term, the rest as
    one split (SeparateDivisibleParts and the sum cases of the division visitors in
    src/arith/canonical_simplify.cc). */
module CanonicalDivision {
  import opened IntOperator
  import opened PrimExprs
  import opened IntConstraintSystems
  import opened DivModes
  import opened CanonicalSplit
  import opened CanonicalSum
  import opened CanonicalNormalize

  /** sub picks the places idx of args, in order. */
  ghost predicate Picks(args: seq<Split>, sub: seq<Split>, idx: seq<nat>, limit: nat) {
    && |sub| == |idx| && limit <= |args|
    && (forall p :: 0 <= p < |idx| ==> idx[p] < limit && sub[p] == args[idx[p]])
    && (forall p, q :: 0 <= p < q < |idx| ==> idx[p] < idx[q])
  }

  lemma {:induction false} PicksSegmented(args: seq<Split>, sub: seq<Split>, idx: seq<nat>, limit: nat)
    requires AllVerified(args) && Segmented(args) && Picks(args, sub, idx, limit)
    ensures AllVerified(sub) && Segmented(sub)
  {
    forall i, j, k | 0 <= i < j < k < |sub| && sub[i].index == sub[k].index ensures sub[j].index == sub[i].index {
      assert idx[i] < idx[j] < idx[k];
    }
    forall i, j | 0 <= i < j < |sub| && sub[i].index == sub[j].index ensures sub[i].lower >= sub[j].lower {
      assert idx[i] < idx[j];
    }
  }

  ghost predicate AllMultiples(args: seq<Split>, c: int) { forall i :: 0 <= i < |args| ==> Multiple(args[i].scale, c) }

  lemma {:induction false} PicksNext(args: seq<Split>, sub: seq<Split>, idx: seq<nat>, i: nat)
    requires i < |args| && Picks(args, sub, idx, i)
    ensures Picks(args, sub, idx, i + 1) && Picks(args, sub + [args[i]], idx + [i], i + 1)
  {}

  lemma {:induction false} SumValueNext(args: seq<Split>, s: Split, env: Env)
    ensures SumValue(args + [s], env) == SumValue(args, env) + ValueOf(s, env)
  {
    SumValueConcat(args, [s], env);
    SumValueSingle(s, env);
  }

  /** Of the first i splits, dargs are those whose scale c divides and rargs the others. */
  ghost predicate Partitioned(args: seq<Split>, i: nat, c: int, dargs: seq<Split>, rargs: seq<Split>) {
    && i <= |args| && AllMultiples(dargs, c)
    && (forall s :: s in rargs ==> s in args && !Multiple(s.scale, c))
    && (rargs == [] ==> dargs == args[..i])
    && forall env: Env :: SumValue(dargs, env) + SumValue(rargs, env) == SumValue(args[..i], env)
  }

  lemma {:induction false} PartitionNext(args: seq<Split>, i: nat, c: int, dargs: seq<Split>, rargs: seq<Split>)
    requires i < |args| && c > 0 && Partitioned(args, i, c, dargs, rargs)
    ensures Multiple(args[i].scale, c) ==> Partitioned(args, i + 1, c, dargs + [args[i]], rargs)
    ensures !Multiple(args[i].scale, c) ==> Partitioned(args, i + 1, c, dargs, rargs + [args[i]])
  {
    assert args[..i + 1] == args[..i] + [args[i]];
    forall env: Env
      ensures SumValue(dargs + [args[i]], env) == SumValue(dargs, env) + ValueOf(args[i], env)
      ensures SumValue(rargs + [args[i]], env) == SumValue(rargs, env) + ValueOf(args[i], env)
      ensures SumValue(args[..i + 1], env) == SumValue(args[..i], env) + ValueOf(args[i], env)
    {
      SumValueNext(dargs, args[i], env);
      SumValueNext(rargs, args[i], env);
      SumValueNext(args[..i], args[i], env);
    }
  }

  lemma {:induction false} SomeOther(args: seq<Split>, c: int, dargs: seq<Split>, rargs: seq<Split>)
    requires Partitioned(args, |args|, c, dargs, rargs) && |rargs| > 0
    ensures !AllMultiples(args, c)
  {
    assert rargs[0] in rargs;
    var i :| 0 <= i < |args| && args[i] == rargs[0];
    assert !Multiple(args[i].scale, c);
  }

  /** The splits whose scale c divides, and the others. */
  method PartitionArgs(args: seq<Split>, c: int) returns (dargs: seq<Split>, rargs: seq<Split>)
    requires AllVerified(args) && Segmented(args) && c > 0
    ensures AllVerified(dargs) && Segmented(dargs) && AllVerified(rargs) && Segmented(rargs)
    ensures Partitioned(args, |args|, c, dargs, rargs)
  {
    dargs, rargs := [], [];
    ghost var didx: seq<nat>, ridx: seq<nat> := [], [];
    for i := 0 to |args|
      invariant Picks(args, dargs, didx, i) && Picks(args, rargs, ridx, i) && Partitioned(args, i, c, dargs, rargs)
    {
      PicksNext(args, dargs, didx, i);
      PicksNext(args, rargs, ridx, i);
      PartitionNext(args, i, c, dargs, rargs);
      if args[i].scale % c == 0 {
        dargs, didx := dargs + [args[i]], didx + [i];
      } else {
        rargs, ridx := rargs + [args[i]], ridx + [i];
      }
    }
    PicksSegmented(args, dargs, didx, |args|);
    PicksSegmented(args, rargs, ridx, |args|);
  }

  /** SeparateDivisibleParts: two sums that add up to the given one, the first divisible by c, the second without a
      divisible term. */
  method SeparateDivisibleParts(psum: SumExpr, c: int) returns (divisible: SumExpr, rest: SumExpr)
    requires psum.Valid() && c > 0
    ensures fresh(divisible) && fresh(rest) && divisible != rest && divisible.Valid() && rest.Valid()
    ensures Multiple(divisible.base, c) && AllMultiples(divisible.args, c)
    ensures divisible.base + rest.base == psum.base
    ensures forall env: Env :: SumValue(divisible.args, env) + SumValue(rest.args, env) == SumValue(psum.args, env)
    ensures forall s :: s in rest.args ==> s in psum.args && !Multiple(s.scale, c)
    ensures if Multiple(psum.base, c) then rest.base == 0 else divisible.base == 0
    ensures AllMultiples(psum.args, c) ==> divisible.args == psum.args && rest.args == []
  {
    var dargs, rargs := PartitionArgs(psum.args, c);
    assert psum.args[..|psum.args|] == psum.args;
    if |rargs| > 0 { SomeOther(psum.args, c, dargs, rargs); }
    var divides := psum.base % c == 0;
    DivModPlus(0, c, 0);
    divisible := new SumExpr(dargs, if divides then psum.base else 0);
    rest := new SumExpr(rargs, if divides then 0 else psum.base);
  }

  // ----- the division visitors on a sum ------------------------------------------------------

  /** A quotient is a sum, or a single split. */
  datatype Quotient = SumQuotient(args: seq<Split>, base: int) | SplitQuotient(split: Split)

  ghost function QuotientValue(q: Quotient, env: Env): int {
    match q
    case SumQuotient(args, base) => SumValue(args, env) + base
    case SplitQuotient(s) => ValueOf(s, env)
  }

  /** Every scale and the base are divided. */
  ghost predicate TermByTerm(q: Quotient, args: seq<Split>, base: int, c: int)
    requires c > 0
  {
    q.SumQuotient? && q.base * c == base && |q.args| == |args| &&
    forall i :: 0 <= i < |args| ==> q.args[i] == Divided(args[i], c)
  }

  /** (c * l + e) / c == l + e / c, in floor mode or when both parts are not negative. */
  lemma {:induction false} DivideParts(mode: DivMode, l: int, e: int, c: int)
    requires c > 0 && (mode == FloorMode || (l >= 0 && e >= 0))
    ensures DivBy(mode, c * l + e, c) == l + DivBy(mode, e, c)
  {
    MulLe(0, if l >= 0 then l else 0, c);
    Euclidean(mode, c * l + e, c);
    Euclidean(mode, e, c);
    Distribute(l, e / c, c);
    DivModUnique(c * l + e, c, l + e / c, e % c);
  }

  /** AsSplit: ToSplitExpr of a sum. */
  method AsSplit(args: seq<Split>, base: int) returns (s: Split)
    requires AllVerified(args)
    ensures Verified(s) && forall env: Env :: ValueOf(s, env) == SumValue(args, env) + base
    ensures s in args || s == ToSplit(s.index)
  {
    if base == 0 && |args| == 1 {
      s := args[0];
      forall env: Env ensures ValueOf(s, env) == SumValue(args, env) + base {
        assert args == [s];
        SumValueSingle(s, env);
      }
    } else {
      var e := Normalize(args, base);
      s := ToSplit(e);
      forall env: Env ensures ValueOf(s, env) == SumValue(args, env) + base { DivByOne(TruncMode, Eval(e, env)); }
    }
  }

  function NonNegative(e: Expr): Expr { Bin(GE, e, IntImm(0)) }
  function LessThan(e: Expr, c: int): Expr { Bin(LT, e, IntImm(c)) }

  lemma {:induction false} ProvedBounds(prove: (Ranges, Expr) -> bool, rs: Ranges, e: Expr, c: int, env: Env)
    requires ProverSound(prove) && InAll(rs, env)
    ensures prove(rs, NonNegative(e)) ==> Eval(e, env) >= 0
    ensures prove(rs, LessThan(e, c)) ==> Eval(e, env) < c
  {
    if prove(rs, NonNegative(e)) { ProvedInAll(prove, rs, NonNegative(e), env); }
    if prove(rs, LessThan(e, c)) { ProvedInAll(prove, rs, LessThan(e, c), env); }
    assert Eval(IntImm(0), env) == 0 && Eval(IntImm(c), env) == c;
  }

  /** Adds rest / c to the quotient of the divisible part, dropping a rest known to be in [0, c). */
  method AddRest(lhs: SumExpr, temp: Expr, c: int, mode: DivMode, small: bool)
    requires lhs.Valid() && c > 0
    modifies lhs
    ensures forall env: Env :: (small ==> 0 <= Eval(temp, env) < c) ==>
              SumValue(lhs.args, env) + lhs.base ==
              SumValue(old(lhs.args), env) + old(lhs.base) + DivBy(mode, Eval(temp, env), c)
  {
    if temp.IntImm? {
      lhs.base := lhs.base + DivBy(mode, temp.value, c);
    } else if !small {
      var s := SplitDivConst(ToSplit(temp), c, mode);
      SplitDivConstSound(ToSplit(temp), c, mode, map[]);
      forall env: Env ensures ValueOf(s, env) == DivBy(mode, Eval(temp, env), c) {
        SplitDivConstSound(ToSplit(temp), c, mode, env);
        DivByOne(TruncMode, Eval(temp, env));
      }
      lhs.AddToSelf(s, 1);
    } else {
      forall env: Env | 0 <= Eval(temp, env) < c ensures DivBy(mode, Eval(temp, env), c) == 0 {
        SmallDividend(mode, Eval(temp, env), c);
      }
    }
  }

  /** Division of a sum by c in either mode: exact wherever the analyzer's ranges hold, and term by term if
      every term is divisible. */
  method DivideSum(prove: (Ranges, Expr) -> bool, rs: Ranges, a: SumExpr, c: int, mode: DivMode) returns (q: Quotient)
    requires ProverSound(prove) && a.Valid() && c > 0
    ensures forall env: Env :: InAll(rs, env) ==> QuotientValue(q, env) == DivBy(mode, a.Value(env), c)
    ensures AllMultiples(a.args, c) && Multiple(a.base, c) ==> TermByTerm(q, a.args, a.base, c)
  {
    var lhs, extra := SeparateDivisibleParts(a, c);
    var whole := Normalize(lhs.args, lhs.base);
    var temp := Normalize(extra.args, extra.base);
    var trusted := mode == FloorMode || (prove(rs, NonNegative(whole)) && prove(rs, NonNegative(temp)));
    if !extra.IsZero() && !trusted {
      q := ByNormalForm(a, c);
      return;
    }
    var small := prove(rs, LessThan(temp, c)) && (mode == TruncMode || prove(rs, NonNegative(temp)));
    var none := extra.IsZero();
    DivideByParts(lhs, temp, none, c, mode, small);
    q := SumQuotient(lhs.args, lhs.base);
    forall env: Env | InAll(rs, env) ensures QuotientValue(q, env) == DivBy(mode, a.Value(env), c) {
      ProvedBounds(prove, rs, whole, c, env);
      ProvedBounds(prove, rs, temp, c, env);
    }
  }

  /** Divides lhs by c in place, and adds the quotient of the rest unless there is none. */
  method DivideByParts(lhs: SumExpr, temp: Expr, none: bool, c: int, mode: DivMode, small: bool)
    requires lhs.Valid() && c > 0 && Multiple(lhs.base, c) && AllMultiples(lhs.args, c)
    modifies lhs
    ensures forall env: Env ::
              var whole := SumValue(old(lhs.args), env) + old(lhs.base);
              var e := Eval(temp, env);
              (none ==> e == 0) && (small ==> 0 <= e < c) && (mode == FloorMode || e == 0 || (whole >= 0 && e >= 0)) ==>
                SumValue(lhs.args, env) + lhs.base == DivBy(mode, whole + e, c)
    ensures none ==> TermByTerm(SumQuotient(lhs.args, lhs.base), old(lhs.args), old(lhs.base), c)
  {
    ghost var args0, base0 := lhs.args, lhs.base;
    lhs.DivideBy(c);
    ghost var args1, base1 := lhs.args, lhs.base;
    if !none { AddRest(lhs, temp, c, mode, small); }
    forall env: Env | (none ==> Eval(temp, env) == 0) && (small ==> 0 <= Eval(temp, env) < c) &&
                      (mode == FloorMode || Eval(temp, env) == 0 ||
                       (SumValue(args0, env) + base0 >= 0 && Eval(temp, env) >= 0))
      ensures SumValue(lhs.args, env) + lhs.base == DivBy(mode, SumValue(args0, env) + base0 + Eval(temp, env), c)
    {
      Distribute(SumValue(args1, env), base1, c);
      WholeAndRest(mode, SumValue(args1, env) + base1, SumValue(args0, env) + base0, Eval(temp, env), c);
    }
  }

  lemma {:induction false} WholeAndRest(mode: DivMode, l: int, whole: int, e: int, c: int)
    requires c > 0 && c * l == whole && (mode == FloorMode || e == 0 || (whole >= 0 && e >= 0))
    ensures DivBy(mode, whole + e, c) == l + DivBy(mode, e, c) && DivBy(mode, 0, c) == 0
  {
    DivExact(mode, l, c);
    DivExact(mode, 0, c);
    if mode == FloorMode || (whole >= 0 && e >= 0) {
      if l < 0 { MulLe(l, -1, c); }
      DivideParts(mode, l, e, c);
    }
  }

  /** The sum as one split, divided in truncating mode. */
  method ByNormalForm(a: SumExpr, c: int) returns (q: Quotient)
    requires a.Valid() && c > 0
    ensures forall env: Env :: QuotientValue(q, env) == DivBy(TruncMode, a.Value(env), c)
  {
    var s := AsSplit(a.args, a.base);
    q := SplitQuotient(SplitDivConst(s, c, TruncMode));
    forall env: Env ensures QuotientValue(q, env) == DivBy(TruncMode, a.Value(env), c) {
      SplitDivConstSigned(s, c, TruncMode, env);
    }
  }
}
