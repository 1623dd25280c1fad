/** Sums of split expressions (SumExprNode in src/arith/canonical_simplify.cc). */
module CanonicalSum {
  import opened IntOperator
  import opened PrimExprs
  import opened CanonicalSplit

  ghost function SumValue(args: seq<Split>, env: Env): int {
    if |args| == 0 then 0 else ValueOf(args[0], env) + SumValue(args[1..], env)
  }

  ghost predicate AllVerified(args: seq<Split>) { forall i :: 0 <= i < |args| ==> Verified(args[i]) }

  /** Arguments with the same index stand together, with descending lower factors. */
  ghost predicate Segmented(args: seq<Split>) {
    && (forall i, j, k :: 0 <= i < j < k < |args| && args[i].index == args[k].index ==> args[j].index == args[i].index)
    && (forall i, j :: 0 <= i < j < |args| && args[i].index == args[j].index ==> args[i].lower >= args[j].lower)
  }

  lemma {:induction false} SumValueConcat(a: seq<Split>, b: seq<Split>, env: Env)
    ensures SumValue(a + b, env) == SumValue(a, env) + SumValue(b, env)
  {
    if |a| == 0 {
      assert a + b == b;
    } else {
      assert (a + b)[1..] == a[1..] + b;
      SumValueConcat(a[1..], b, env);
    }
  }

  lemma {:induction false} SumValueSingle(s: Split, env: Env)
    ensures SumValue([s], env) == ValueOf(s, env)
  {
    assert SumValue([s], env) == ValueOf(s, env) + SumValue([s][1..], env);
  }

  /** The value of a sum around one of its places. */
  lemma {:induction false} SumValueAt(args: seq<Split>, j: nat, env: Env)
    requires j < |args|
    ensures SumValue(args, env) == SumValue(args[..j], env) + ValueOf(args[j], env) + SumValue(args[j + 1..], env)
  {
    assert args == args[..j] + ([args[j]] + args[j + 1..]);
    SumValueConcat(args[..j], [args[j]] + args[j + 1..], env);
    SumValueConcat([args[j]], args[j + 1..], env);
    SumValueSingle(args[j], env);
  }

  lemma {:induction false} SumValueUpdate(args: seq<Split>, j: nat, s: Split, env: Env)
    requires j < |args|
    ensures SumValue(args[j := s], env) == SumValue(args, env) - ValueOf(args[j], env) + ValueOf(s, env)
  {
    var args' := args[j := s];
    SumValueAt(args, j, env);
    SumValueAt(args', j, env);
    assert args'[..j] == args[..j] && args'[j + 1..] == args[j + 1..];
  }

  function Inserted(args: seq<Split>, j: nat, s: Split): seq<Split>
    requires j <= |args|
  {
    args[..j] + [s] + args[j..]
  }

  lemma {:induction false} SumValueInserted(args: seq<Split>, j: nat, s: Split, env: Env)
    requires j <= |args|
    ensures SumValue(Inserted(args, j, s), env) == SumValue(args, env) + ValueOf(s, env)
  {
    assert args == args[..j] + args[j..];
    SumValueConcat(args[..j], args[j..], env);
    SumValueConcat(args[..j] + [s], args[j..], env);
    SumValueConcat(args[..j], [s], env);
    SumValueSingle(s, env);
  }

  // ----- adding one split --------------------------------------------------------------------

  /** The splits add up by their scales. */
  predicate SameFactors(lhs: Split, rhs: Split) {
    lhs.index == rhs.index && lhs.upper == rhs.upper && lhs.lower == rhs.lower && Compatible(lhs, rhs.mode)
  }

  /** None of the splits has the factors of s. */
  ghost predicate NoneLike(args: seq<Split>, s: Split) { forall i :: 0 <= i < |args| ==> !SameFactors(s, args[i]) }

  /** The segment of s starts at start, and everything in it before j is at least as coarse. */
  ghost predicate Scanned(args: seq<Split>, start: nat, j: nat, s: Split) {
    && start <= j <= |args|
    && (forall i :: 0 <= i < start ==> args[i].index != s.index)
    && (forall i :: start <= i < j ==> args[i].index == s.index && args[i].lower >= s.lower)
    && (start < |args| ==> args[start].index == s.index)
  }

  /** Inserting at the end of the segment or before a finer split keeps the order. */
  lemma {:induction false} InsertedSegmented(args: seq<Split>, start: nat, j: nat, s: Split)
    requires Segmented(args) && Scanned(args, start, j, s)
    requires j == |args| || args[j].index != s.index || s.lower > args[j].lower
    ensures Segmented(Inserted(args, j, s))
  {
    var r := Inserted(args, j, s);
    forall i | 0 <= i < |r| ensures r[i] == if i < j then args[i] else if i == j then s else args[i - 1] {}
    NoneAfter(args, start, j, s);
    forall a, b, c | 0 <= a < b < c < |r| && r[a].index == r[c].index ensures r[b].index == r[a].index {
      InsertedContiguous(args, start, j, s, a, b, c);
    }
    forall a, b | 0 <= a < b < |r| && r[a].index == r[b].index ensures r[a].lower >= r[b].lower {
      if a == j || b == j {
        assert r[j] == s;
      }
    }
  }

  /** Past the insertion point, splits of the same index are finer. */
  lemma {:induction false} NoneAfter(args: seq<Split>, start: nat, j: nat, s: Split)
    requires Segmented(args) && Scanned(args, start, j, s)
    requires j == |args| || args[j].index != s.index || s.lower > args[j].lower
    ensures forall i :: j <= i < |args| && args[i].index == s.index ==>
            args[i].lower < s.lower && args[j].index == s.index
  {
    forall i | j <= i < |args| && args[i].index == s.index ensures args[i].lower < s.lower && args[j].index == s.index {
      assert args[start].index == args[i].index;
    }
  }

  /** Nor has any split past it the factors of s. */
  lemma {:induction false} NoneLater(args: seq<Split>, start: nat, j: nat, s: Split)
    requires Segmented(args) && Scanned(args, start, j, s) && NoneLike(args[..j], s)
    requires j == |args| || args[j].index != s.index || s.lower > args[j].lower
    ensures NoneLike(args, s)
  {
    NoneAfter(args, start, j, s);
    forall i | 0 <= i < |args| ensures !SameFactors(s, args[i]) {
      if i < j { assert args[..j][i] == args[i]; }
    }
  }

  lemma {:induction false} InsertedContiguous(args: seq<Split>, start: nat, j: nat, s: Split, a: nat, b: nat, c: nat)
    requires Segmented(args) && Scanned(args, start, j, s)
    requires forall i :: j <= i < |args| && args[i].index == s.index ==> args[j].index == s.index
    requires a < b < c < |args| + 1
    requires Inserted(args, j, s)[a].index == Inserted(args, j, s)[c].index
    ensures Inserted(args, j, s)[b].index == Inserted(args, j, s)[a].index
  {
    var r := Inserted(args, j, s);
    if a == j {
      assert args[c - 1].index == s.index && args[j].index == s.index;
      if b - 1 > j && c - 1 > b - 1 { assert args[b - 1].index == args[j].index; }
    } else if c == j {
      assert a >= start;
    } else if b == j {
      var c' := c - 1;
      assert args[a].index == args[c'].index;
      BetweenIsSegment(args, start, j, s, a, c');
    } else {
      var a', b', c' := if a < j then a else a - 1, if b < j then b else b - 1, if c < j then c else c - 1;
      assert r[a] == args[a'] && r[b] == args[b'] && r[c] == args[c'];
    }
  }

  /** A segment that reaches over the insertion point is that of s. */
  lemma {:induction false} BetweenIsSegment(args: seq<Split>, start: nat, j: nat, s: Split, a: nat, c: nat)
    requires Segmented(args) && Scanned(args, start, j, s)
    requires a < j <= c < |args| && args[a].index == args[c].index
    ensures args[a].index == s.index
  {
    assert args[start].index == s.index;
  }

  // ----- the sum as an object ----------------------------------------------------------------

  function Scaled(s: Split, k: int): Split { s.(scale := s.scale * k) }

  function Divided(s: Split, k: int): Split
    requires k != 0
  {
    s.(scale := TruncDiv(s.scale, k))
  }

  lemma {:induction false} ScaledValue(s: Split, k: int, env: Env)
    ensures ValueOf(Scaled(s, k), env) == k * ValueOf(s, env)
  {
    Rescaled(Part(s.mode, Eval(s.index, env), s.lower, s.upper), s.scale, k);
  }

  /** Splits with the same factors and compatible modes add up by scale. */
  lemma {:induction false} MergedValue(a: Split, b: Split, k: int, env: Env)
    requires a.index == b.index && a.lower == b.lower && a.upper == b.upper && Compatible(a, b.mode)
    ensures ValueOf(b.(scale := b.scale + a.scale * k), env) == ValueOf(b, env) + k * ValueOf(a, env)
  {
    var x := Eval(a.index, env);
    DivByOne(a.mode, x);
    DivByOne(b.mode, x);
    MergedScales(Part(b.mode, x, b.lower, b.upper), b.scale, a.scale, k);
  }

  lemma {:induction false} MergedScales(y: int, s: int, t: int, k: int)
    ensures y * (s + t * k) == y * s + k * (y * t)
  {
    Distribute(s, t * k, y);
    Rescaled(y, t, k);
  }

  class SumExpr {
    var args: seq<Split>
    var base: int

    ghost predicate Valid()
      reads this
    {
      AllVerified(args) && Segmented(args)
    }

    ghost function Value(env: Env): int
      reads this
    {
      SumValue(args, env) + base
    }

    constructor (args: seq<Split>, base: int)
      requires AllVerified(args) && Segmented(args)
      ensures Valid() && this.args == args && this.base == base
    {
      this.args, this.base := args, base;
    }

    predicate IsZero()
      reads this
    {
      base == 0 && |args| == 0
    }

    /** AddToSelf: adds k * other, keeping the segments; there is a new split only if no other has its factors. */
    method AddToSelf(other: Split, k: int)
      requires Valid() && Verified(other)
      modifies this
      ensures Valid() && base == old(base)
      ensures forall env: Env :: SumValue(args, env) == SumValue(old(args), env) + k * ValueOf(other, env)
      ensures |args| == |old(args)| + if other.scale != 0 && NoneLike(old(args), other) then 1 else 0
    {
      ghost var before := args;
      if other.scale == 0 { return; }
      var start := 0;
      while start < |args| && args[start].index != other.index
        invariant start <= |args| && forall i :: 0 <= i < start ==> args[i].index != other.index
      {
        start := start + 1;
      }
      var j := start;
      while j < |args|
        invariant args == before && Scanned(args, start, j, other) && NoneLike(args[..j], other)
      {
        if args[j].index != other.index || other.lower > args[j].lower {
          NoneLater(args, start, j, other);
          Insert(other, k, start, j);
          return;
        }
        if other.lower == args[j].lower && other.upper == args[j].upper && Compatible(other, args[j].mode) {
          assert SameFactors(other, args[j]);
          Merge(other, k, j);
          return;
        }
        j := j + 1;
      }
      assert args[..j] == args;
      Insert(other, k, start, j);
    }

    method Merge(other: Split, k: int, j: nat)
      requires Valid() && j < |args| && other.index == args[j].index
      requires other.lower == args[j].lower && other.upper == args[j].upper && Compatible(other, args[j].mode)
      modifies this
      ensures Valid() && base == old(base)
      ensures forall env: Env :: SumValue(args, env) == SumValue(old(args), env) + k * ValueOf(other, env)
      ensures |args| == |old(args)|
    {
      ghost var before := args;
      args := args[j := args[j].(scale := args[j].scale + other.scale * k)];
      forall env: Env ensures SumValue(args, env) == SumValue(before, env) + k * ValueOf(other, env) {
        MergedSum(before, j, other, k, env);
      }
      SameShape(args, before);
    }

    method Insert(other: Split, k: int, ghost start: nat, j: nat)
      requires Valid() && Verified(other) && Scanned(args, start, j, other)
      requires j == |args| || args[j].index != other.index || other.lower > args[j].lower
      modifies this
      ensures Valid() && base == old(base)
      ensures forall env: Env :: SumValue(args, env) == SumValue(old(args), env) + k * ValueOf(other, env)
      ensures |args| == |old(args)| + 1
    {
      var s := Scaled(other, k);
      InsertedSegmented(args, start, j, s);
      forall env: Env ensures SumValue(Inserted(args, j, s), env) == SumValue(args, env) + k * ValueOf(other, env) {
        SumValueInserted(args, j, s, env);
        ScaledValue(other, k, env);
      }
      args := Inserted(args, j, s);
    }

    /** Adds k times another sum. */
    method AddSum(other: seq<Split>, otherBase: int, k: int)
      requires Valid() && AllVerified(other)
      modifies this
      ensures Valid() && base == old(base) + otherBase * k
      ensures forall env: Env :: SumValue(args, env) == SumValue(old(args), env) + k * SumValue(other, env)
    {
      ghost var before := args;
      for i := 0 to |other|
        invariant Valid() && base == old(base)
        invariant forall env: Env :: SumValue(args, env) == SumValue(before, env) + k * SumValue(other[..i], env)
      {
        ghost var soFar := args;
        AddToSelf(other[i], k);
        forall env: Env ensures SumValue(args, env) == SumValue(before, env) + k * SumValue(other[..i + 1], env) {
          assert other[..i + 1] == other[..i] + [other[i]];
          SumValueConcat(other[..i], [other[i]], env);
          SumValueSingle(other[i], env);
          Distribute(SumValue(other[..i], env), ValueOf(other[i], env), k);
          assert SumValue(args, env) == SumValue(soFar, env) + k * ValueOf(other[i], env);
        }
      }
      assert other[..|other|] == other;
      base := base + otherBase * k;
    }

    /** MulToSelf: multiplies every scale and the base. */
    method MulToSelf(k: int)
      requires Valid()
      modifies this
      ensures Valid() && base == old(base) * k
      ensures forall env: Env :: SumValue(args, env) == k * SumValue(old(args), env)
    {
      ghost var before := args;
      base := base * k;
      for i := 0 to |args|
        invariant base == old(base) * k && ScaledUpTo(args, before, i, k)
      {
        args := args[i := Scaled(args[i], k)];
      }
      forall env: Env ensures SumValue(args, env) == k * SumValue(before, env) { ScaledSum(args, before, k, env); }
      SameShape(args, before);
    }

    /** DivideBy: the opposite, when it divides everything. */
    method DivideBy(k: int)
      requires Valid() && Multiple(base, k) && forall i :: 0 <= i < |args| ==> Multiple(args[i].scale, k)
      modifies this
      ensures Valid() && base * k == old(base)
      ensures forall env: Env :: k * SumValue(args, env) == SumValue(old(args), env)
      ensures |args| == |old(args)| && forall i :: 0 <= i < |args| ==> args[i] == Divided(old(args)[i], k)
    {
      ghost var before := args;
      ExactQuotient(base, k);
      base := TruncDiv(base, k);
      for i := 0 to |args|
        invariant base * k == old(base) && |args| == |before| && ScaledUpTo(before, args, i, k)
        invariant forall j :: 0 <= j < i ==> args[j] == Divided(before[j], k)
      {
        ExactQuotient(before[i].scale, k);
        args := args[i := Divided(args[i], k)];
      }
      forall env: Env ensures k * SumValue(args, env) == SumValue(before, env) { ScaledSum(before, args, k, env); }
      SameShape(args, before);
    }
  }

  lemma {:induction false} MergedSum(args: seq<Split>, j: nat, other: Split, k: int, env: Env)
    requires j < |args| && other.index == args[j].index && other.lower == args[j].lower && other.upper == args[j].upper
    requires Compatible(other, args[j].mode)
    ensures SumValue(args[j := args[j].(scale := args[j].scale + other.scale * k)], env) ==
            SumValue(args, env) + k * ValueOf(other, env)
  {
    MergedValue(other, args[j], k, env);
    SumValueUpdate(args, j, args[j].(scale := args[j].scale + other.scale * k), env);
  }

  /** The first n of a are those of b times k; the others are the same. */
  ghost predicate ScaledUpTo(a: seq<Split>, b: seq<Split>, n: nat, k: int) {
    |a| == |b| && n <= |a| && forall i :: 0 <= i < |a| ==> a[i] == if i < n then Scaled(b[i], k) else b[i]
  }

  lemma {:induction false} ScaledSum(a: seq<Split>, b: seq<Split>, k: int, env: Env)
    requires ScaledUpTo(a, b, |b|, k)
    ensures SumValue(a, env) == k * SumValue(b, env)
  {
    if |b| > 0 {
      ScaledSum(a[1..], b[1..], k, env);
      ScaledValue(b[0], k, env);
      Distribute(ValueOf(b[0], env), SumValue(b[1..], env), k);
    }
  }

  lemma {:induction false} SameShape(a: seq<Split>, b: seq<Split>)
    requires |a| == |b| && AllVerified(b) && Segmented(b)
    requires forall i :: 0 <= i < |a| ==>
             a[i].index == b[i].index && a[i].lower == b[i].lower && a[i].upper == b[i].upper
    ensures AllVerified(a) && Segmented(a)
  {}
}
