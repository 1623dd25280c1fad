/** What is accepted (src/arith/iter_affine_map.cc): exactly when a division of a split, a fusion of
    splits, a normalisation of the uses of an iterator and the bijectivity check succeed. */
module IterMapAccept {
  import opened IntOperator
  import opened PrimExprs
  import opened Wrappers
  import opened IterMap
  import opened IterMapBijection

  // ----- division of a split -----------------------------------------------------------------

  /** The divisor is 1, or divides a scale other than 1, or leaves a factor of the extent once the scale
      is taken out of it. */
  ghost predicate CanDivide(s: Split, c: int)
    requires c != 0
  {
    || c == 1
    || (s.scale != 1 && Divides(c, s.scale))
    || (s.scale != 0 && Divides(s.scale, c) && Divides(FloorDiv(c, s.scale), s.extent))
  }

  lemma {:induction false} DivideExact(s: Split, c: int)
    requires c != 0
    ensures SplitFloorDiv(s, c).Some? <==> CanDivide(s, c)
    ensures SplitFloorMod(s, c).Some? <==> CanDivide(s, c)
  {
    RemainderZero(s.scale, c);
    if s.scale != 0 {
      RemainderZero(c, s.scale);
      if Divides(s.scale, c) {
        LeftOver(s.scale, c);
        RemainderZero(s.extent, FloorDiv(c, s.scale));
      }
    }
  }

  // ----- which operators resolve --------------------------------------------------------------

  /** Sums and differences always resolve, products if one factor is a literal or neither has an
      iterator, other operators if neither operand has one. */
  lemma {:induction false} DirectExact(op: BinOp, a: IterExpr, b: IterExpr)
    requires !IsDivision(op)
    ensures Direct(op, a, b).Some? <==>
            op == Add || op == Sub || (a.Plain? && b.Plain?) || (op == Mul && (IsLiteral(a) || IsLiteral(b)))
  {}

  /** A division by a nonzero literal resolves if there is no iterator, or the divisor is 1, or the one
      split that the iterator expression comes to can be divided. */
  lemma {:induction false} DivideIterExact(a: IterExpr, c: int, memo: Memo, isDiv: bool)
    requires c != 0 && !a.Plain?
    ensures var split := if a.SplitExpr? then Some(a.s) else if a.base == IntImm(0) then Fuse(a.args, memo).0 else None;
            DivIter(a, c, memo, isDiv).0.Some? <==> split.Some? && CanDivide(split.value, c)
  {
    if a.SplitExpr? {
      DivideExact(a.s, c);
    } else if a.base == IntImm(0) && Fuse(a.args, memo).0.Some? {
      DivideExact(Fuse(a.args, memo).0.value, c);
    }
  }

  // ----- choosing in order --------------------------------------------------------------------

  /** The keys at the positions grow from the expected one, each by the extent before it. */
  ghost predicate IsChain(keys: seq<int>, exts: seq<int>, order: seq<nat>, expected: int)
    requires |exts| == |keys| && forall k :: 0 <= k < |order| ==> order[k] < |keys|
  {
    |order| == 0 ||
    (keys[order[0]] == expected && IsChain(keys, exts, order[1..], expected * exts[order[0]]))
  }

  /** The key that would come next. */
  ghost function ChainTotal(exts: seq<int>, order: seq<nat>, expected: int): int
    requires forall k :: 0 <= k < |order| ==> order[k] < |exts|
  {
    if |order| == 0 then expected else ChainTotal(exts, order[1..], expected * exts[order[0]])
  }

  /** Each unused position once. */
  ghost predicate Enumerates(order: seq<nat>, used: seq<bool>) {
    && NoRepeats(order)
    && (forall k :: 0 <= k < |order| ==> order[k] < |used| && !used[order[k]])
    && (forall j :: 0 <= j < |used| && !used[j] ==> j in order)
  }

  /** Of the unused positions with one key, those of extent 1 come first. */
  ghost predicate UnitsFirst(keys: seq<int>, exts: seq<int>, used: seq<bool>)
    requires |exts| == |keys| == |used|
  {
    forall i, j :: 0 <= i < j < |keys| && !used[i] && !used[j] && keys[i] == keys[j] && exts[j] == 1 ==> exts[i] == 1
  }

  ghost predicate AllPositive(exts: seq<int>) { forall i :: 0 <= i < |exts| ==> exts[i] > 0 }

  lemma {:induction false} AbsGrows(e: int, g: int)
    requires e != 0 && g > 0
    ensures e * g != 0 && Abs(e * g) >= Abs(e) && (g > 1 ==> Abs(e * g) > Abs(e))
  {
    MulSigns(e, g);
    if e > 0 { MulLe(1, g, e); if g > 1 { MulLe(2, g, e); } }
    else { MulLe(1, g, -e); if g > 1 { MulLe(2, g, -e); } }
  }

  /** Keys of a chain never shrink, and grow after an extent above 1. */
  lemma {:induction false} ChainGrows(keys: seq<int>, exts: seq<int>, order: seq<nat>, expected: int, p: nat)
    requires |exts| == |keys| && (forall k :: 0 <= k < |order| ==> order[k] < |keys|) && AllPositive(exts)
    requires expected != 0 && IsChain(keys, exts, order, expected) && p < |order|
    ensures Abs(keys[order[p]]) >= Abs(expected)
    ensures p > 0 && exts[order[0]] > 1 ==> Abs(keys[order[p]]) > Abs(expected)
  {
    if p > 0 {
      AbsGrows(expected, exts[order[0]]);
      ChainGrows(keys, exts, order[1..], expected * exts[order[0]], p - 1);
    }
  }

  /** Taking out a position of extent 1 leaves a chain. */
  lemma {:induction false} WithoutUnit(keys: seq<int>, exts: seq<int>, order: seq<nat>, expected: int, p: nat)
    requires |exts| == |keys| && (forall k :: 0 <= k < |order| ==> order[k] < |keys|)
    requires IsChain(keys, exts, order, expected) && p < |order| && exts[order[p]] == 1
    ensures var rest := order[..p] + order[p + 1..];
            && (forall k :: 0 <= k < |rest| ==> rest[k] < |keys|)
            && IsChain(keys, exts, rest, expected)
            && ChainTotal(exts, rest, expected) == ChainTotal(exts, order, expected)
  {
    var rest := order[..p] + order[p + 1..];
    if p == 0 {
      assert rest == order[1..];
    } else {
      WithoutUnit(keys, exts, order[1..], expected * exts[order[0]], p - 1);
      assert rest[1..] == order[1..][..p - 1] + order[1..][p..];
    }
  }

  lemma {:induction false} FindKeyFirst(keys: seq<int>, used: seq<bool>, expected: int, from: nat)
    requires |used| == |keys| && from <= |keys|
    ensures forall i :: from <= i < FindKey(keys, used, expected, from) ==> used[i] || keys[i] != expected
    decreases |keys| - from
  {
    if from < |keys| && (used[from] || keys[from] != expected) { FindKeyFirst(keys, used, expected, from + 1); }
  }

  /** Where the positions of order are without the one at p. */
  lemma {:induction false} Without(order: seq<nat>, p: nat)
    requires p < |order|
    ensures var rest := order[..p] + order[p + 1..];
            && |rest| == |order| - 1
            && (forall k :: 0 <= k < |rest| ==> rest[k] == order[if k < p then k else k + 1])
            && (forall k :: 0 <= k < |order| && k != p ==> order[k] in rest)
  {
    var rest := order[..p] + order[p + 1..];
    forall k | 0 <= k < |order| && k != p ensures order[k] in rest {
      assert rest[if k < p then k else k - 1] == order[k];
    }
  }

  lemma {:induction false} WithoutRepeats(order: seq<nat>, p: nat)
    requires NoRepeats(order) && p < |order|
    ensures NoRepeats(order[..p] + order[p + 1..])
    ensures order[p] !in order[..p] + order[p + 1..]
  {
    Without(order, p);
  }

  lemma {:induction false} TakenOut(order: seq<nat>, used: seq<bool>, p: nat)
    requires Enumerates(order, used) && p < |order|
    ensures Enumerates(order[..p] + order[p + 1..], used[order[p] := true])
  {
    var rest, used' := order[..p] + order[p + 1..], used[order[p] := true];
    Without(order, p);
    WithoutRepeats(order, p);
    forall k | 0 <= k < |rest| ensures rest[k] < |used'| && !used'[rest[k]] {
      assert rest[k] in rest;
    }
    forall j | 0 <= j < |used'| && !used'[j] ensures j in rest {
      var k :| 0 <= k < |order| && order[k] == j;
    }
  }

  lemma {:induction false} EnumeratesCount(order: seq<nat>, used: seq<bool>)
    requires Enumerates(order, used)
    ensures |order| == Unused(used)
    decreases |order|
  {
    if |order| == 0 {
      AllUsedCount(used);
    } else {
      TakenOut(order, used, 0);
      UnusedMark(used, order[0]);
      EnumeratesCount(order[..0] + order[1..], used[order[0] := true]);
    }
  }

  lemma {:induction false} AllUsedCount(used: seq<bool>)
    requires forall j :: 0 <= j < |used| ==> used[j]
    ensures Unused(used) == 0
  {
    if |used| > 0 { AllUsedCount(used[1..]); }
  }

  /** The search finds the next position of the chain, or one of extent 1. */
  lemma {:induction false} FoundInChain(keys: seq<int>, exts: seq<int>, used: seq<bool>, expected: int,
      order: seq<nat>)
    returns (p: nat)
    requires |exts| == |keys| == |used| && AllPositive(exts) && expected != 0 && |order| > 0
    requires Enumerates(order, used) && IsChain(keys, exts, order, expected) && UnitsFirst(keys, exts, used)
    ensures p < |order| && order[p] == FindKey(keys, used, expected, 0) && keys[order[p]] == expected
    ensures p > 0 ==> exts[order[p]] == 1 && exts[order[0]] == 1
  {
    FindKeyFirst(keys, used, expected, 0);
    var j := FindKey(keys, used, expected, 0);
    assert j < |keys| && j <= order[0];
    p :| 0 <= p < |order| && order[p] == j;
    AbsGrows(expected, exts[j]);
    if p > 0 {
      ChainGrows(keys, exts, order, expected, p);
      assert exts[order[0]] == 1 && exts[j] == 1;
    }
  }

  /** The rest of the chain after that position. */
  lemma {:induction false} ChainTaken(keys: seq<int>, exts: seq<int>, used: seq<bool>, expected: int, order: seq<nat>,
      p: nat)
    requires |exts| == |keys| == |used| && AllPositive(exts) && expected != 0 && p < |order|
    requires Enumerates(order, used) && IsChain(keys, exts, order, expected) && UnitsFirst(keys, exts, used)
    requires p > 0 ==> exts[order[p]] == 1
    ensures var rest, used', next := order[..p] + order[p + 1..], used[order[p] := true], expected * exts[order[p]];
            && next != 0 && |rest| == |order| - 1 && Enumerates(rest, used') && UnitsFirst(keys, exts, used')
            && IsChain(keys, exts, rest, next) && ChainTotal(exts, rest, next) == ChainTotal(exts, order, expected)
  {
    var rest := order[..p] + order[p + 1..];
    AbsGrows(expected, exts[order[p]]);
    TakenOut(order, used, p);
    if p == 0 { assert rest == order[1..]; } else { WithoutUnit(keys, exts, order, expected, p); }
  }

  /** If some order of the unused positions is a chain, and those of extent 1 come first, then the
      search finds one. */
  lemma {:induction false} PickFinds(keys: seq<int>, exts: seq<int>, used: seq<bool>, expected: int, order: seq<nat>)
    requires |exts| == |keys| == |used| && AllPositive(exts) && expected != 0
    requires Enumerates(order, used) && IsChain(keys, exts, order, expected) && UnitsFirst(keys, exts, used)
    ensures var r := PickChain(keys, exts, used, expected, |order|, 0);
            r.Some? && r.value.total == ChainTotal(exts, order, expected)
    decreases |order|
  {
    if |order| > 0 {
      var p := FoundInChain(keys, exts, used, expected, order);
      var j := order[p];
      var rest, next := order[..p] + order[p + 1..], expected * exts[j];
      ChainTaken(keys, exts, used, expected, order, p);
      PickFinds(keys, exts, used[j := true], next, rest);
    }
  }

  /** What the search finds is a chain of all unused positions, and those of extent 1 come first. */
  lemma {:induction false} PickFound(keys: seq<int>, exts: seq<int>, used: seq<bool>, expected: int, n: nat)
    requires |exts| == |keys| == |used| && AllPositive(exts) && expected != 0 && Unused(used) == n
    requires PickChain(keys, exts, used, expected, n, 0).Some?
    ensures var p := PickChain(keys, exts, used, expected, n, 0).value;
            && Enumerates(p.order, used) && IsChain(keys, exts, p.order, expected)
            && p.total == ChainTotal(exts, p.order, expected) && UnitsFirst(keys, exts, used)
    decreases n
  {
    if n == 0 {
      forall j | 0 <= j < |used| ensures used[j] { NoneUnused(used, j); }
    } else {
      var j := FindKey(keys, used, expected, 0);
      UnusedMark(used, j);
      AbsGrows(expected, exts[j]);
      PickFound(keys, exts, used[j := true], expected * exts[j], n - 1);
      var q := PickChain(keys, exts, used[j := true], expected * exts[j], n - 1, 0).value;
      PutFirst(q.order, used, j);
      var order := [j] + q.order;
      assert order[1..] == q.order;
      FoundUnitsFirst(keys, exts, used, expected, q.order);
    }
  }

  lemma {:induction false} PutFirst(order: seq<nat>, used: seq<bool>, j: nat)
    requires j < |used| && !used[j] && Enumerates(order, used[j := true])
    ensures Enumerates([j] + order, used)
  {
    var all, used' := [j] + order, used[j := true];
    forall k | 0 <= k < |all| ensures all[k] < |used| && !used[all[k]] {
      if k > 0 { assert !used'[order[k - 1]]; }
    }
    forall i | 0 <= i < |used| && !used[i] ensures i in all {
      if i != j { assert !used'[i]; assert i in order; }
    }
    forall a, b | 0 <= a < b < |all| ensures all[a] != all[b] {
      if a == 0 { assert !used'[order[b - 1]]; }
    }
  }

  lemma {:induction false} FoundUnitsFirst(keys: seq<int>, exts: seq<int>, used: seq<bool>, expected: int,
      order: seq<nat>)
    requires |exts| == |keys| == |used| && AllPositive(exts) && expected != 0
    requires var j := FindKey(keys, used, expected, 0);
             && j < |keys| && Enumerates(order, used[j := true]) && UnitsFirst(keys, exts, used[j := true])
             && IsChain(keys, exts, order, expected * exts[j])
    ensures UnitsFirst(keys, exts, used)
  {
    var t := FindKey(keys, used, expected, 0);
    FindKeyFirst(keys, used, expected, 0);
    AbsGrows(expected, exts[t]);
    forall i, j | 0 <= i < j < |keys| && !used[i] && !used[j] && keys[i] == keys[j] && exts[j] == 1
      ensures exts[i] == 1
    {
      if i == t {
        var used' := used[t := true];
        assert !used'[j];
        var p :| 0 <= p < |order| && order[p] == j;
        ChainGrows(keys, exts, order, expected * exts[t], p);
      } else {
        assert j != t;
        assert !used[t := true][i] && !used[t := true][j];
      }
    }
  }

  // ----- fusing ---------------------------------------------------------------------------------

  lemma {:induction false} SmallestFirst(args: seq<Split>, best: nat, i: nat)
    requires best < |args| && best <= i <= |args|
    requires forall k :: 0 <= k < i ==>
               args[best].scale <= args[k].scale && (k < best ==> args[best].scale < args[k].scale)
    ensures var r := SmallestScale(args, best, i);
            forall k :: 0 <= k < |args| ==> args[r].scale <= args[k].scale && (k < r ==> args[r].scale < args[k].scale)
    decreases |args| - i
  {
    if i < |args| { SmallestFirst(args, if args[i].scale < args[best].scale then i else best, i + 1); }
  }

  /** The splits in this order are a least scale other than 0 and its multiples by the extents so far. */
  ghost predicate FusesInOrder(args: seq<Split>, order: seq<nat>) {
    && Enumerates(order, AllUnused(|args|)) && |order| > 0
    && (forall k :: 0 <= k < |args| ==> args[order[0]].scale <= args[k].scale)
    && args[order[0]].scale != 0 && IsChain(Scales(args), Extents(args), order, args[order[0]].scale)
  }

  /** TryFuseIters succeeds exactly if some order of the splits is such a chain, and of the splits
      with one scale those of extent 1 come first. */
  lemma {:induction false} FuseExact(args: seq<Split>)
    requires AllPositive(Extents(args))
    ensures FuseKey(args).Some? <==>
            |args| > 1 && (exists order :: FusesInOrder(args, order)) &&
            UnitsFirst(Scales(args), Extents(args), AllUnused(|args|))
  {
    if |args| > 1 {
      var i := SmallestScale(args, 0, 0);
      var keys, exts, used, base := Scales(args), Extents(args), AllUnused(|args|), args[i].scale;
      SmallestFirst(args, 0, 0);
      SearchFromBase(keys, exts, used, base, |args|, i);
      AllUnusedCount(|args|);
      if FuseKey(args).Some? {
        PickFound(keys, exts, used, base, |args|);
        var p := PickChain(keys, exts, used, base, |args|, 0).value;
        EnumeratesCount(p.order, used);
        assert FusesInOrder(args, p.order);
      }
      if exists order :: FusesInOrder(args, order) {
        var order :| FusesInOrder(args, order);
        EnumeratesCount(order, used);
        if UnitsFirst(keys, exts, used) { PickFinds(keys, exts, used, base, order); }
      }
    }
  }

  /** Starting at the first position of the base key is starting at the beginning. */
  lemma {:induction false} SearchFromBase(keys: seq<int>, exts: seq<int>, used: seq<bool>, base: int, n: nat, i: nat)
    requires |exts| == |keys| == |used| && i < |keys| && !used[i] && keys[i] == base
    requires forall k :: 0 <= k < i ==> keys[k] != base
    ensures PickChain(keys, exts, used, base, n, i) == PickChain(keys, exts, used, base, n, 0)
  {
    FindKeyFirst(keys, used, base, 0);
    assert FindKey(keys, used, base, 0) <= i by { FoundBefore(keys, used, base, 0, i); }
    assert FindKey(keys, used, base, 0) == i && FindKey(keys, used, base, i) == i;
  }

  lemma {:induction false} FoundBefore(keys: seq<int>, used: seq<bool>, expected: int, from: nat, i: nat)
    requires |used| == |keys| && from <= i < |keys| && !used[i] && keys[i] == expected
    ensures FindKey(keys, used, expected, from) <= i
    decreases i - from
  {
    if from < i { FoundBefore(keys, used, expected, from + 1, i); }
  }
}
