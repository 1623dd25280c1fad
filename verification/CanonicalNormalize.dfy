/** Merging, sorting and writing out a sum of splits (SimplifySplitExprs and Normalize_ in
    src/arith/canonical_simplify.cc). */
module CanonicalNormalize {
  import opened IntOperator
  import opened PrimExprs
  import opened DivModes
  import opened CanonicalSplit
  import opened CanonicalSum

  ghost predicate SameSum(a: seq<Split>, b: seq<Split>) {
    forall env: Env :: SumValue(a, env) == SumValue(b, env)
  }

  // ----- merging -----------------------------------------------------------------------------

  /** x % (c * s) next to x / (c * s): both together are x / c. */
  predicate CanMerge(lhs: Split, rhs: Split) {
    && lhs.index == rhs.index
    && UpTo(lhs.lower) == rhs.upper
    && Multiple(lhs.scale, rhs.scale)
    && lhs.lower == TruncDiv(lhs.scale, rhs.scale) * rhs.lower
    && Compatible(lhs, rhs.mode)
  }

  /** The merge rule, in both division modes and for any sign of the scales. */
  lemma {:induction false} MergePair(lhs: Split, rhs: Split, env: Env)
    requires Verified(lhs) && Verified(rhs) && CanMerge(lhs, rhs)
    ensures Verified(rhs.(upper := lhs.upper))
    ensures ValueOf(rhs.(upper := lhs.upper), env) == ValueOf(lhs, env) + ValueOf(rhs, env)
  {
    var s, c := TruncDiv(lhs.scale, rhs.scale), rhs.lower;
    ExactQuotient(lhs.scale, rhs.scale);
    if s <= 0 { MulLe(s, 0, c); assert false; }
    CoarserUpper(lhs, c, s);
    var x := Eval(lhs.index, env);
    if lhs.mode == rhs.mode {
      var x' := Modded(lhs.mode, x, lhs.upper);
      SameRemainder(lhs.mode, x, lhs.upper, lhs.lower);
      Recombine(lhs.mode, x', c, s);
      assert c * s == lhs.lower;
      Combined(DivBy(lhs.mode, x', lhs.lower), DivBy(lhs.mode, ModBy(lhs.mode, x', lhs.lower), c), s, rhs.scale);
    } else {
      UnitFactors(s, c);
      DivByOne(lhs.mode, x);
      DivByOne(rhs.mode, x);
      DivModIdentity(rhs.mode, x, 1);
      DivByOne(rhs.mode, 0);
    }
  }

  lemma {:induction false} Combined(p: int, q: int, s: int, r: int)
    ensures p * (s * r) + q * r == (p * s + q) * r
  {
    Distribute(p * s, q, r);
    MulAssoc(p, s, r);
  }

  lemma {:induction false} UnitFactors(s: int, c: int)
    requires s > 0 && c > 0 && s * c == 1
    ensures s == 1 && c == 1
  {
    MulLe(1, s, c);
    MulLe(1, c, s);
  }

  lemma {:induction false} CoarserUpper(lhs: Split, c: int, s: int)
    requires Verified(lhs) && c > 0 && s > 0 && lhs.lower == s * c
    ensures lhs.upper.UpTo? ==> lhs.upper.n % c == 0
  {
    if lhs.upper.UpTo? {
      var k := lhs.upper.n / lhs.lower;
      assert lhs.upper.n == k * lhs.lower;
      MulAssoc(k, s, c);
      DivModPlus(k * s, c, 0);
    }
  }

  /** Folding splits with the same factors. */
  lemma {:induction false} FoldPair(lhs: Split, rhs: Split, env: Env)
    requires SameFactors(lhs, rhs)
    ensures ValueOf(rhs.(scale := rhs.scale + lhs.scale), env) == ValueOf(lhs, env) + ValueOf(rhs, env)
  {
    MergedValue(lhs, rhs, 1, env);
  }

  /** Emptying one place into another. */
  lemma {:induction false} MovedSum(args: seq<Split>, i: nat, j: nat, s: Split, env: Env)
    requires i < j < |args| && ValueOf(s, env) == ValueOf(args[i], env) + ValueOf(args[j], env)
    ensures SumValue(args[j := s][i := args[i].(scale := 0)], env) == SumValue(args, env)
  {
    SumValueUpdate(args, j, s, env);
    SumValueUpdate(args[j := s], i, args[i].(scale := 0), env);
    assert ValueOf(args[i].(scale := 0), env) == 0;
  }

  function Folded(args: seq<Split>, i: nat, j: nat): seq<Split>
    requires i < j < |args|
  {
    args[j := args[j].(scale := args[j].scale + args[i].scale)][i := args[i].(scale := 0)]
  }

  function Joined(args: seq<Split>, i: nat, j: nat): seq<Split>
    requires i < j < |args|
  {
    args[j := args[j].(upper := args[i].upper)][i := args[i].(scale := 0)]
  }

  /** The inner loop from j on, as a function. */
  function Forward(args: seq<Split>, i: nat, j: nat): seq<Split>
    requires i < j <= |args|
    decreases |args| - j
  {
    if j == |args| || args[i].index != args[j].index ||
       (args[i].upper.UpTo? && args[i].upper.n < args[j].lower) then args
    else if SameFactors(args[i], args[j]) then Forward(Folded(args, i, j), i, j + 1)
    else if CanMerge(args[i], args[j]) then Joined(args, i, j)
    else Forward(args, i, j + 1)
  }

  /** The outer loop from i on, as a function. */
  function MergedFrom(args: seq<Split>, i: nat): seq<Split>
    requires i <= |args|
    decreases |args| - i
  {
    if i == |args| then args
    else
      ForwardLength(args, i, i + 1);
      MergedFrom(if args[i].scale != 0 then Forward(args, i, i + 1) else args, i + 1)
  }

  lemma {:induction false} ForwardLength(args: seq<Split>, i: nat, j: nat)
    requires i < j <= |args|
    ensures |Forward(args, i, j)| == |args|
    decreases |args| - j
  {
    if j < |args| {
      ForwardLength(Folded(args, i, j), i, j + 1);
      ForwardLength(args, i, j + 1);
    }
  }

  lemma {:induction false} FoldedSound(args: seq<Split>, i: nat, j: nat)
    requires AllVerified(args) && i < j < |args| && SameFactors(args[i], args[j])
    ensures AllVerified(Folded(args, i, j)) && SameSum(Folded(args, i, j), args)
  {
    forall env: Env ensures SumValue(Folded(args, i, j), env) == SumValue(args, env) {
      FoldPair(args[i], args[j], env);
      MovedSum(args, i, j, args[j].(scale := args[j].scale + args[i].scale), env);
    }
  }

  lemma {:induction false} JoinedSound(args: seq<Split>, i: nat, j: nat)
    requires AllVerified(args) && i < j < |args| && CanMerge(args[i], args[j])
    ensures AllVerified(Joined(args, i, j)) && SameSum(Joined(args, i, j), args)
  {
    MergePair(args[i], args[j], map[]);
    forall env: Env ensures SumValue(Joined(args, i, j), env) == SumValue(args, env) {
      MergePair(args[i], args[j], env);
      MovedSum(args, i, j, args[j].(upper := args[i].upper), env);
    }
  }

  lemma {:induction false} ForwardSound(args: seq<Split>, i: nat, j: nat)
    requires AllVerified(args) && i < j <= |args|
    ensures AllVerified(Forward(args, i, j)) && SameSum(Forward(args, i, j), args)
    decreases |args| - j
  {
    if j == |args| || args[i].index != args[j].index ||
       (args[i].upper.UpTo? && args[i].upper.n < args[j].lower) {
    } else if SameFactors(args[i], args[j]) {
      FoldedSound(args, i, j);
      ForwardSound(Folded(args, i, j), i, j + 1);
    } else if CanMerge(args[i], args[j]) {
      JoinedSound(args, i, j);
    } else {
      ForwardSound(args, i, j + 1);
    }
  }

  lemma {:induction false} MergedFromSound(args: seq<Split>, i: nat)
    requires AllVerified(args) && i <= |args|
    ensures AllVerified(MergedFrom(args, i)) && SameSum(MergedFrom(args, i), args)
    decreases |args| - i
  {
    if i < |args| {
      ForwardLength(args, i, i + 1);
      ForwardSound(args, i, i + 1);
      MergedFromSound(if args[i].scale != 0 then Forward(args, i, i + 1) else args, i + 1);
    }
  }

  /** The inner loop: the split at i is folded or merged into later ones of its segment. */
  method MergeForward(args0: seq<Split>, i: nat) returns (args: seq<Split>)
    requires AllVerified(args0) && i < |args0|
    ensures args == Forward(args0, i, i + 1) && |args| == |args0| && AllVerified(args) && SameSum(args, args0)
  {
    args := args0;
    var j := i + 1;
    ForwardLength(args0, i, j);
    ForwardSound(args0, i, j);
    while j < |args|
      invariant i < j <= |args| && Forward(args, i, j) == Forward(args0, i, i + 1)
    {
      var lhs, rhs := args[i], args[j];
      if lhs.index != rhs.index { break; }
      if lhs.upper.UpTo? && lhs.upper.n < rhs.lower { break; }
      if SameFactors(lhs, rhs) {
        args := args[j := rhs.(scale := rhs.scale + lhs.scale)][i := lhs.(scale := 0)];
      } else if CanMerge(lhs, rhs) {
        args := args[j := rhs.(upper := lhs.upper)][i := lhs.(scale := 0)];
        return;
      }
      j := j + 1;
    }
  }

  // ----- nothing is left to merge --------------------------------------------------------------

  /** The loop would fold p into q or, with all, merge p and q. */
  predicate Joins(p: Split, q: Split, all: bool) { SameFactors(p, q) || (all && CanMerge(p, q)) }

  /** No split before i that still counts joins a later one. */
  ghost predicate Settled(args: seq<Split>, i: nat, all: bool) {
    forall a, b :: 0 <= a < b < |args| && a < i && args[a].scale != 0 && args[b].scale != 0 ==>
      !Joins(args[a], args[b], all)
  }

  /** The split at i joins none of those before j. */
  ghost predicate Passed(args: seq<Split>, i: nat, j: nat, all: bool)
    requires i < j <= |args|
  {
    args[i].scale != 0 ==> forall b :: i < b < j && args[b].scale != 0 ==> !Joins(args[i], args[b], all)
  }

  /** Splits of one index that count have different lower factors. */
  ghost predicate DistinctLowers(args: seq<Split>) {
    forall a, b :: 0 <= a < b < |args| && args[a].scale != 0 && args[b].scale != 0 && args[a].index == args[b].index ==>
      args[a].lower != args[b].lower
  }

  ghost predicate Ready(args: seq<Split>, all: bool) {
    AllVerified(args) && Segmented(args) && (all ==> DistinctLowers(args))
  }

  lemma {:induction false} UpperAtLeast(s: Split)
    requires Verified(s)
    ensures s.upper.UpTo? ==> s.upper.n >= s.lower
  {}

  /** What the scales say: a over j', with i merged into j. */
  lemma {:induction false} ChainScales(sa: int, si: int, sj: int, la: int, li: int, lj: int)
    requires sj != 0 && lj > 0 && li > 0 && Multiple(si, sj) && li == TruncDiv(si, sj) * lj
    requires Multiple(sa, sj) && la == TruncDiv(sa, sj) * lj && la % li == 0
    ensures si != 0 && Multiple(sa, si) && la == TruncDiv(sa, si) * li
  {
    var t, r, m := TruncDiv(si, sj), TruncDiv(sa, sj), la / li;
    ExactQuotient(si, sj);
    ExactQuotient(sa, sj);
    assert la == m * li;
    MulAssoc(m, t, lj);
    SameFactor(r, m * t, lj);
    MulAssoc(m, t, sj);
    assert t != 0 && sa == m * si;
    if si == 0 { ZeroProduct(t, sj); }
    DividesIntro(si, m);
    TruncDivExact(m, si);
  }

  lemma {:induction false} SameFactor(a: int, b: int, c: int)
    requires c != 0 && a * c == b * c
    ensures a == b
  {
    Distribute(a, b, c);
    ZeroProduct(a - b, c);
  }

  lemma {:induction false} ZeroProduct(a: int, c: int)
    requires c != 0 && a * c == 0
    ensures a == 0
  {}

  /** A split that joins the result of a merge also joins the split that was merged away. */
  lemma {:induction false} JoinsMerged(a: Split, p: Split, q: Split, all: bool)
    requires Verified(p) && Verified(q) && Verified(a) && CanMerge(p, q)
    requires a.index == p.index ==> a.lower >= p.lower >= q.lower
    requires Joins(a, q.(upper := p.upper), all)
    ensures Joins(a, p, all)
  {
    if SameFactors(a, q.(upper := p.upper)) {
      assert SameFactors(a, p);
    } else {
      ChainScales(a.scale, p.scale, q.scale, a.lower, p.lower, q.lower);
      assert CanMerge(a, p);
    }
  }

  /** A split that joins the result of a fold joins one of the two. */
  lemma {:induction false} JoinsFolded(a: Split, p: Split, q: Split, all: bool)
    requires SameFactors(p, q) && Joins(a, q.(scale := p.scale + q.scale), all) && p.scale + q.scale != 0
    requires all ==> p.scale == 0 || q.scale == 0
    ensures (p.scale != 0 && Joins(a, p, all)) || (q.scale != 0 && Joins(a, q, all))
  {
    assert SameFactors(a, q) ==> SameFactors(a, p);
    if p.scale == 0 {
      assert q.(scale := p.scale + q.scale) == q;
    } else if SameFactors(a, q) {
    } else {
      assert q.scale == 0 && CanMerge(a, p);
    }
  }

  lemma {:induction false} FoldedReady(args: seq<Split>, i: nat, j: nat, all: bool)
    requires Ready(args, all) && i < j < |args| && SameFactors(args[i], args[j])
    requires Settled(args, i, all) && Passed(args, i, j, all)
    ensures var r := Folded(args, i, j); Ready(r, all) && Settled(r, i, all) && Passed(r, i, j + 1, all)
  {
    var r := Folded(args, i, j);
    SameShape(r, args);
    forall a, b | 0 <= a < b < |r| && a < i && r[a].scale != 0 && r[b].scale != 0 ensures !Joins(r[a], r[b], all) {
      assert r[a] == args[a];
      if b == j && Joins(r[a], r[b], all) { JoinsFolded(args[a], args[i], args[j], all); }
    }
  }

  lemma {:induction false} JoinedReady(args: seq<Split>, i: nat, j: nat, all: bool)
    requires Ready(args, all) && i < j < |args| && CanMerge(args[i], args[j]) && args[i].scale != 0
    requires Settled(args, i, all)
    ensures Ready(Joined(args, i, j), all) && Settled(Joined(args, i, j), i + 1, all)
  {
    JoinedSound(args, i, j);
    JoinedShape(args, i, j, all);
    JoinedSettled(args, i, j, all);
  }

  lemma {:induction false} JoinedShape(args: seq<Split>, i: nat, j: nat, all: bool)
    requires Segmented(args) && (all ==> DistinctLowers(args)) && i < j < |args|
    ensures Segmented(Joined(args, i, j)) && (all ==> DistinctLowers(Joined(args, i, j)))
  {}

  lemma {:induction false} JoinedSettled(args: seq<Split>, i: nat, j: nat, all: bool)
    requires AllVerified(args) && Segmented(args) && i < j < |args| && CanMerge(args[i], args[j])
    requires args[i].scale != 0 && Settled(args, i, all)
    ensures Settled(Joined(args, i, j), i + 1, all)
  {
    var r := Joined(args, i, j);
    forall a, b | 0 <= a < b < |r| && a < i + 1 && r[a].scale != 0 && r[b].scale != 0
      ensures !Joins(r[a], r[b], all)
    {
      assert a < i && r[a] == args[a];
      if b == j && Joins(r[a], r[b], all) { JoinsMerged(args[a], args[i], args[j], all); }
    }
  }

  lemma {:induction false} PastSegment(args: seq<Split>, i: nat, j: nat, all: bool)
    requires Segmented(args) && i < j < |args| && args[i].index != args[j].index
    requires Settled(args, i, all) && Passed(args, i, j, all)
    ensures Settled(args, i + 1, all)
  {
    forall b | j <= b < |args| ensures args[b].index != args[i].index {}
  }

  lemma {:induction false} CanMergeCounts(p: Split, q: Split)
    requires Verified(p) && CanMerge(p, q)
    ensures p.scale != 0
  {}

  lemma {:induction false} InRange(args: seq<Split>, i: nat, j: nat)
    requires AllVerified(args) && Segmented(args) && i < j < |args| && args[i].index == args[j].index
    ensures args[i].upper.UpTo? ==> args[i].upper.n >= args[j].lower
  {
    UpperAtLeast(args[i]);
  }

  lemma {:induction false} PassedNext(args: seq<Split>, i: nat, j: nat, all: bool)
    requires i < j < |args| && Passed(args, i, j, all) && !Joins(args[i], args[j], true)
    ensures Passed(args, i, j + 1, all)
  {}

  lemma {:induction false} PassedAll(args: seq<Split>, i: nat, all: bool)
    requires i < |args| && Settled(args, i, all) && (args[i].scale == 0 || Passed(args, i, |args|, all))
    ensures Settled(args, i + 1, all)
  {}

  /** Each pass of the inner loop settles its split. */
  lemma {:induction false} ForwardSettles(args: seq<Split>, i: nat, j: nat, all: bool)
    requires Ready(args, all) && i < j <= |args| && Settled(args, i, all) && Passed(args, i, j, all)
    ensures Ready(Forward(args, i, j), all) && Settled(Forward(args, i, j), i + 1, all)
    decreases |args| - j
  {
    if j == |args| {
      PassedAll(args, i, all);
    } else if args[i].index != args[j].index {
      PastSegment(args, i, j, all);
    } else {
      InRange(args, i, j);
      if SameFactors(args[i], args[j]) {
        assert Forward(args, i, j) == Forward(Folded(args, i, j), i, j + 1);
        FoldedReady(args, i, j, all);
        ForwardSettles(Folded(args, i, j), i, j + 1, all);
      } else if CanMerge(args[i], args[j]) {
        assert Forward(args, i, j) == Joined(args, i, j);
        CanMergeCounts(args[i], args[j]);
        JoinedReady(args, i, j, all);
      } else {
        assert Forward(args, i, j) == Forward(args, i, j + 1);
        PassedNext(args, i, j, all);
        ForwardSettles(args, i, j + 1, all);
      }
    }
  }

  lemma {:induction false} PassSettles(args: seq<Split>, i: nat, all: bool)
    requires Ready(args, all) && i < |args| && Settled(args, i, all)
    ensures |Forward(args, i, i + 1)| == |args|
    ensures var r := if args[i].scale != 0 then Forward(args, i, i + 1) else args;
            Ready(r, all) && Settled(r, i + 1, all)
  {
    ForwardLength(args, i, i + 1);
    if args[i].scale != 0 { ForwardSettles(args, i, i + 1, all); } else { PassedAll(args, i, all); }
  }

  lemma {:induction false} MergedSettled(args: seq<Split>, i: nat, all: bool)
    requires Ready(args, all) && i <= |args| && Settled(args, i, all)
    ensures Ready(MergedFrom(args, i), all) && Settled(MergedFrom(args, i), |MergedFrom(args, i)|, all)
    decreases |args| - i
  {
    if i == |args| {
      assert MergedFrom(args, i) == args;
    } else {
      PassSettles(args, i, all);
      MergedSettled(if args[i].scale != 0 then Forward(args, i, i + 1) else args, i + 1, all);
    }
  }

  /** No two splits that count can be folded or, with all, merged, in either order. */
  ghost predicate Apart(args: seq<Split>, all: bool) {
    forall a, b :: 0 <= a < b < |args| && args[a].scale != 0 && args[b].scale != 0 ==>
      !Joins(args[a], args[b], all) && !Joins(args[b], args[a], all)
  }

  lemma {:induction false} OneWay(p: Split, q: Split, all: bool)
    requires Verified(p) && Verified(q) && Joins(q, p, all)
    requires p.index == q.index ==> p.lower >= q.lower && (all ==> p.lower != q.lower)
    ensures Joins(p, q, all)
  {
    if !SameFactors(q, p) {
      var t := TruncDiv(q.scale, p.scale);
      if t <= 0 { MulLe(t, 0, p.lower); } else { MulLe(1, t, p.lower); }
      assert false;
    }
  }

  lemma {:induction false} SettledApart(args: seq<Split>, all: bool)
    requires Ready(args, all) && Settled(args, |args|, all)
    ensures Apart(args, all)
  {
    forall a, b | 0 <= a < b < |args| && args[a].scale != 0 && args[b].scale != 0
      ensures !Joins(args[a], args[b], all) && !Joins(args[b], args[a], all)
    {
      if Joins(args[b], args[a], all) { OneWay(args[a], args[b], all); }
    }
  }

  // ----- sorting -----------------------------------------------------------------------------

  function UpperRank(u: Upper): int { if u.UpTo? then u.n else 0x7fff_ffff_ffff_ffff }
  function ModeRank(m: DivMode): int { if m == TruncMode then 0 else 1 }

  /** fcompare: descending by scale, then lower factor, upper factor and mode. */
  predicate Before(a: Split, b: Split) {
    if a.scale != b.scale then a.scale > b.scale
    else if a.lower != b.lower then a.lower > b.lower
    else if UpperRank(a.upper) != UpperRank(b.upper) then UpperRank(a.upper) > UpperRank(b.upper)
    else ModeRank(a.mode) > ModeRank(b.mode)
  }

  function Place(s: Split, sorted: seq<Split>): seq<Split> {
    if |sorted| > 0 && Before(sorted[0], s) then [sorted[0]] + Place(s, sorted[1..]) else [s] + sorted
  }

  /** A stable sort. */
  function StableSort(args: seq<Split>): seq<Split> {
    if |args| == 0 then [] else Place(args[0], StableSort(args[1..]))
  }

  ghost predicate Ordered(args: seq<Split>) {
    forall i, j :: 0 <= i < j < |args| ==> !Before(args[j], args[i])
  }

  /** The splits that compare equal to k, in order. */
  function Tied(args: seq<Split>, k: Split): seq<Split> {
    if |args| == 0 then []
    else (if !Before(args[0], k) && !Before(k, args[0]) then [args[0]] else []) + Tied(args[1..], k)
  }

  lemma {:induction false} PlaceSound(s: Split, sorted: seq<Split>, env: Env)
    ensures SumValue(Place(s, sorted), env) == ValueOf(s, env) + SumValue(sorted, env)
    ensures multiset(Place(s, sorted)) == multiset{s} + multiset(sorted)
  {
    if |sorted| > 0 && Before(sorted[0], s) {
      PlaceSound(s, sorted[1..], env);
      assert Place(s, sorted)[1..] == Place(s, sorted[1..]);
      assert sorted == [sorted[0]] + sorted[1..];
    } else {
      assert Place(s, sorted)[1..] == sorted;
    }
  }

  lemma {:induction false} BeforeIsOrder(a: Split, b: Split, c: Split)
    ensures Before(a, b) ==> !Before(b, a)
    ensures !Before(c, b) && !Before(b, a) ==> !Before(c, a)
  {}

  /** Putting a split in front of an ordered list that it does not follow. */
  lemma {:induction false} ConsOrdered(s: Split, sorted: seq<Split>)
    requires Ordered(sorted) && forall j :: 0 <= j < |sorted| ==> !Before(sorted[j], s)
    ensures Ordered([s] + sorted)
  {}

  lemma {:induction false} PlaceOrdered(s: Split, sorted: seq<Split>)
    requires Ordered(sorted)
    ensures Ordered(Place(s, sorted))
  {
    if |sorted| > 0 && Before(sorted[0], s) {
      var rest := Place(s, sorted[1..]);
      PlaceOrdered(s, sorted[1..]);
      PlaceSound(s, sorted[1..], map[]);
      BeforeIsOrder(sorted[0], s, s);
      forall j | 0 <= j < |rest| ensures !Before(rest[j], sorted[0]) {
        assert rest[j] in multiset(rest);
        assert rest[j] == s || rest[j] in sorted[1..];
      }
      ConsOrdered(sorted[0], rest);
    } else {
      forall j | 0 <= j < |sorted| ensures !Before(sorted[j], s) {
        if j > 0 { BeforeIsOrder(s, sorted[0], sorted[j]); }
      }
      ConsOrdered(s, sorted);
    }
  }

  lemma {:induction false} PlaceStable(s: Split, sorted: seq<Split>, k: Split)
    ensures Tied(Place(s, sorted), k) == Tied([s] + sorted, k)
  {
    assert ([s] + sorted)[1..] == sorted;
    if |sorted| > 0 && Before(sorted[0], s) {
      PlaceStable(s, sorted[1..], k);
      assert Place(s, sorted)[1..] == Place(s, sorted[1..]);
      assert ([s] + sorted[1..])[1..] == sorted[1..];
    }
  }

  /** The sort keeps the sum and the elements, orders them, and keeps the order of ties. */
  lemma {:induction false} StableSortSound(args: seq<Split>, env: Env, k: Split)
    ensures SumValue(StableSort(args), env) == SumValue(args, env)
    ensures multiset(StableSort(args)) == multiset(args)
    ensures Ordered(StableSort(args))
    ensures Tied(StableSort(args), k) == Tied(args, k)
  {
    if |args| > 0 {
      var rest := StableSort(args[1..]);
      StableSortSound(args[1..], env, k);
      PlaceSound(args[0], rest, env);
      PlaceOrdered(args[0], rest);
      PlaceStable(args[0], rest, k);
      assert ([args[0]] + rest)[1..] == rest;
      assert args == [args[0]] + args[1..];
    }
  }

  ghost predicate ApartFrom(s: Split, rest: seq<Split>, all: bool) {
    forall q :: q in rest && q.scale != 0 && s.scale != 0 ==> !Joins(s, q, all) && !Joins(q, s, all)
  }

  lemma {:induction false} ApartCons(args: seq<Split>, all: bool)
    requires |args| > 0
    ensures Apart(args, all) <==> ApartFrom(args[0], args[1..], all) && Apart(args[1..], all)
  {
    var rest := args[1..];
    assert forall k :: 0 <= k < |rest| ==> rest[k] == args[k + 1];
    assert forall k :: 0 < k < |args| ==> args[k] == rest[k - 1];
    if Apart(args, all) {
      forall q | q in rest && q.scale != 0 && args[0].scale != 0
        ensures !Joins(args[0], q, all) && !Joins(q, args[0], all)
      {
        var k :| 0 <= k < |rest| && rest[k] == q;
        assert args[k + 1] == q;
      }
    }
  }

  lemma {:induction false} PlaceMembers(s: Split, sorted: seq<Split>, q: Split)
    ensures q in Place(s, sorted) <==> q == s || q in sorted
  {
    PlaceSound(s, sorted, map[]);
    assert q in Place(s, sorted) <==> q in multiset(Place(s, sorted));
  }

  lemma {:induction false} PlaceApart(s: Split, sorted: seq<Split>, all: bool)
    requires ApartFrom(s, sorted, all) && Apart(sorted, all)
    ensures Apart(Place(s, sorted), all)
  {
    var r := Place(s, sorted);
    if |sorted| > 0 && Before(sorted[0], s) {
      ApartCons(sorted, all);
      PlaceApart(s, sorted[1..], all);
      forall q | q in Place(s, sorted[1..]) ensures q == s || q in sorted[1..] { PlaceMembers(s, sorted[1..], q); }
      assert r[1..] == Place(s, sorted[1..]);
    } else {
      assert r[1..] == sorted;
    }
    ApartCons(r, all);
  }

  lemma {:induction false} SortApart(args: seq<Split>, all: bool)
    requires Apart(args, all)
    ensures Apart(StableSort(args), all)
  {
    if |args| > 0 {
      var rest := StableSort(args[1..]);
      ApartCons(args, all);
      SortApart(args[1..], all);
      StableSortSound(args[1..], map[], args[0]);
      forall q | q in rest ensures q in args[1..] { assert q in multiset(args[1..]); }
      PlaceApart(args[0], rest, all);
    }
  }

  /** SimplifySplitExprs: merged, then sorted; the same sum, with nothing left to fold, and nothing left
      to merge if the splits of one index have different lower factors. */
  method SimplifySplitExprs(args0: seq<Split>) returns (args: seq<Split>)
    requires AllVerified(args0)
    ensures args == StableSort(MergedFrom(args0, 0))
    ensures AllVerified(args) && Ordered(args) && SameSum(args, args0)
    ensures Segmented(args0) ==> Apart(args, false)
    ensures Segmented(args0) && DistinctLowers(args0) ==> Apart(args, true)
  {
    args := args0;
    for i := 0 to |args0|
      invariant |args| == |args0| && AllVerified(args) && MergedFrom(args, i) == MergedFrom(args0, 0)
    {
      if args[i].scale != 0 { args := MergeForward(args, i); }
    }
    ghost var merged := args;
    MergedFromSound(args0, 0);
    if Segmented(args0) { NothingLeft(args0, false); }
    if Segmented(args0) && DistinctLowers(args0) { NothingLeft(args0, true); }
    args := StableSort(args);
    SortSound(merged);
  }

  lemma {:induction false} NothingLeft(args: seq<Split>, all: bool)
    requires Ready(args, all)
    ensures Apart(StableSort(MergedFrom(args, 0)), all)
  {
    MergedSettled(args, 0, all);
    SettledApart(MergedFrom(args, 0), all);
    SortApart(MergedFrom(args, 0), all);
  }

  lemma {:induction false} SortSound(merged: seq<Split>)
    requires AllVerified(merged)
    ensures AllVerified(StableSort(merged)) && Ordered(StableSort(merged)) && SameSum(StableSort(merged), merged)
  {
    var args := StableSort(merged);
    var k := Split(IntImm(0), 1, NoUpper, 0, TruncMode);
    forall env: Env ensures SumValue(args, env) == SumValue(merged, env) { StableSortSound(merged, env, k); }
    StableSortSound(merged, map[], k);
    forall i | 0 <= i < |args| ensures Verified(args[i]) { assert args[i] in multiset(merged); }
  }

  /** 36 * (x / 12) */
  function WitnessQuotient(x: Expr): Split { Split(x, 12, NoUpper, 36, FloorMode) }

  /** k * (x % 12) */
  function WitnessRemainder(x: Expr, k: int): Split { Split(x, 1, UpTo(12), k, FloorMode) }

  /** 36 * (x / 12) + 4 * (x % 12 / 4) + 2 * (x % 12) + x % 4 */
  function Witness(x: Expr): seq<Split> {
    [WitnessQuotient(x), Split(x, 4, UpTo(12), 4, FloorMode), WitnessRemainder(x, 2),
     Split(x, 1, UpTo(4), 1, FloorMode)]
  }

  lemma {:induction false} FirstPass(x: Expr)
    ensures Forward(Witness(x), 0, 1) == Witness(x)
  {
    var a := Witness(x);
    assert TruncDiv(36, 4) == 9 && TruncDiv(36, 2) == 18;
    assert Forward(a, 0, 4) == a && Forward(a, 0, 3) == a && Forward(a, 0, 2) == a;
  }

  lemma {:induction false} SecondPass(x: Expr)
    ensures var r := Forward(Witness(x), 1, 2);
            && |r| == 4 && r[0] == WitnessQuotient(x) && r[1].scale == 0
            && r[2] == WitnessRemainder(x, 2) && r[3] == WitnessRemainder(x, 1)
  {
    var a := Witness(x);
    assert TruncDiv(4, 1) == 4;
    assert Forward(a, 1, 3) == Joined(a, 1, 3);
    assert Forward(a, 1, 2) == Forward(a, 1, 3);
  }

  lemma {:induction false} ThirdPass(x: Expr, a: seq<Split>)
    requires |a| == 4 && a[2] == WitnessRemainder(x, 2) && a[3] == WitnessRemainder(x, 1)
    ensures var r := Forward(a, 2, 3);
            |r| == 4 && r[0] == a[0] && r[1] == a[1] && r[2].scale == 0 && r[3] == WitnessRemainder(x, 3)
  {
    assert Forward(a, 2, 3) == Forward(Folded(a, 2, 3), 2, 4);
  }

  lemma {:induction false} LastPasses(x: Expr, b: seq<Split>)
    requires |b| == 4 && b[2] == WitnessRemainder(x, 2) && b[3] == WitnessRemainder(x, 1)
    ensures var r := MergedFrom(b, 2); |r| == 4 && r[0] == b[0] && r[3] == WitnessRemainder(x, 3)
  {
    ThirdPass(x, b);
    var c := Forward(b, 2, 3);
    assert MergedFrom(c, 4) == c && Forward(c, 3, 4) == c && MergedFrom(c, 3) == c;
  }

  /** With one lower factor twice, a merge can be missed: 36 * (x / 12) is passed before the others join to
      3 * (x % 12). */
  lemma {:induction false} MergeMissed(x: Expr)
    ensures AllVerified(Witness(x)) && Segmented(Witness(x))
    ensures WitnessQuotient(x) in StableSort(MergedFrom(Witness(x), 0))
    ensures WitnessRemainder(x, 3) in StableSort(MergedFrom(Witness(x), 0))
    ensures CanMerge(WitnessQuotient(x), WitnessRemainder(x, 3))
  {
    var a := Witness(x);
    FirstPass(x);
    SecondPass(x);
    var b := Forward(a, 1, 2);
    LastPasses(x, b);
    var c := MergedFrom(b, 2);
    assert MergedFrom(a, 1) == c;
    assert MergedFrom(a, 0) == MergedFrom(a, 1);
    SortMembers(c, c[0]);
    SortMembers(c, c[3]);
    assert TruncDiv(36, 3) == 12;
  }

  lemma {:induction false} SortMembers(args: seq<Split>, s: Split)
    ensures s in StableSort(args) <==> s in args
  {
    StableSortSound(args, map[], s);
    assert s in StableSort(args) <==> s in multiset(StableSort(args));
  }

  // ----- writing the sum out -----------------------------------------------------------------

  /** The part of the sum with positive scales, and with negative ones. */
  ghost function SignedValue(args: seq<Split>, positive: bool, env: Env): int {
    if |args| == 0 then 0
    else SignedValue(args[..|args| - 1], positive, env) +
         if (if positive then args[|args| - 1].scale > 0 else args[|args| - 1].scale < 0)
         then ValueOf(args[|args| - 1], env) else 0
  }

  lemma {:induction false} SignedParts(args: seq<Split>, env: Env)
    ensures SignedValue(args, true, env) + SignedValue(args, false, env) == SumValue(args, env)
  {
    if |args| > 0 {
      var rest, s := args[..|args| - 1], args[|args| - 1];
      SignedParts(rest, env);
      assert args == rest + [s];
      SumValueConcat(rest, [s], env);
      SumValueSingle(s, env);
      assert s.scale == 0 ==> ValueOf(s, env) == 0;
    }
  }

  /** Normalize_: positive scales and base first, then the negative ones subtracted. */
  method WriteOut(args: seq<Split>, base: int) returns (res: Expr)
    requires AllVerified(args)
    ensures forall env: Env :: Eval(res, env) == SumValue(args, env) + base
  {
    res := IntImm(0);
    for i := 0 to |args|
      invariant forall env: Env :: Eval(res, env) == SignedValue(args[..i], true, env)
    {
      assert args[..i + 1][..i] == args[..i];
      if args[i].scale > 0 {
        forall env: Env
          ensures Eval(Plus(res, NormalizeWithScale(args[i], 1)), env) == SignedValue(args[..i + 1], true, env)
        {
          NormalizeWithScaleEval(args[i], 1, env);
          FoldedEval(res, NormalizeWithScale(args[i], 1), env);
        }
        res := Plus(res, NormalizeWithScale(args[i], 1));
      }
    }
    assert args[..|args|] == args;
    if base > 0 {
      ghost var before := res;
      res := Plus(res, IntImm(base));
      forall env: Env ensures Eval(res, env) == Eval(before, env) + base { FoldedEval(before, IntImm(base), env); }
    }
    var plus := if base > 0 then base else 0;
    for i := 0 to |args|
      invariant forall env: Env ::
                  Eval(res, env) == SignedValue(args, true, env) + plus + SignedValue(args[..i], false, env)
    {
      assert args[..i + 1][..i] == args[..i];
      if args[i].scale < 0 {
        ghost var before := res;
        res := Minus(res, NormalizeWithScale(args[i], -1));
        forall env: Env ensures Eval(res, env) == Eval(before, env) + ValueOf(args[i], env) {
          NormalizeWithScaleEval(args[i], -1, env);
          FoldedEval(before, NormalizeWithScale(args[i], -1), env);
        }
      }
    }
    if base < 0 {
      ghost var before := res;
      res := Minus(res, IntImm(-base));
      forall env: Env ensures Eval(res, env) == Eval(before, env) + base { FoldedEval(before, IntImm(-base), env); }
    }
    forall env: Env ensures SignedValue(args, true, env) + SignedValue(args, false, env) == SumValue(args, env) {
      SignedParts(args, env);
    }
  }

  /** Normalize: the plain expression equals the sum on every valuation. */
  method Normalize(args: seq<Split>, base: int) returns (res: Expr)
    requires AllVerified(args)
    ensures forall env: Env :: Eval(res, env) == SumValue(args, env) + base
    ensures |args| == 0 ==> res == IntImm(base)
  {
    if |args| == 0 { return IntImm(base); }
    var merged := SimplifySplitExprs(args);
    res := WriteOut(merged, base);
  }
}
