/** Quasi-affine iterator maps (src/arith/iter_affine_map.cc): rewriting index expressions to
    sums of splits of iterators. Factors, extents and scales are constants. */
module IterMap {
  import opened IntOperator
  import opened PrimExprs
  import opened Wrappers
  import opened MixedRadix

  // ----- iterator expressions ----------------------------------------------------------------

  /** An iterator with values in [0, extent): an input variable less its minimum, or a fused
      sum of splits. Marks are shared by identity in the source; input marks are unique per
      variable and fused marks per list of splits, so identity is equality of these values. */
  datatype Mark =
    | InputMark(v: nat, min: int, extent: int)
    | FusedMark(args: seq<Split>, extent: int)

  /** floormod(floordiv(source, lowerFactor), extent) * scale */
  datatype Split = Split(source: Mark, lowerFactor: int, extent: int, scale: int)

  /** A rewritten expression: free of iterators, one split, or a sum of splits and a base. */
  datatype IterExpr =
    | Plain(e: Expr)
    | SplitExpr(s: Split)
    | SumExpr(args: seq<Split>, base: Expr)

  /** A one-iterator-plus-offset result. */
  datatype IterSum = IterSum(args: seq<Split>, base: Expr)

  datatype Input = Input(v: nat, min: int, extent: int)

  function MarkValue(m: Mark, env: Env): int
    decreases m, 0
  {
    match m
    case InputMark(v, min, _) => Get(env, v) - min
    case FusedMark(args, _) => SplitsValue(args, env)
  }

  /** The unscaled digit of a split, floormod(floordiv(source, lowerFactor), extent). */
  function SplitDigit(s: Split, env: Env): int
    decreases s, 0
  {
    if s.lowerFactor > 0 && s.extent > 0 then Digit(MarkValue(s.source, env), s.lowerFactor, s.extent)
    else if s.lowerFactor == 0 || s.extent == 0 then 0
    else FloorMod(FloorDiv(MarkValue(s.source, env), s.lowerFactor), s.extent)
  }

  lemma {:induction false} DigitIsFloor(s: Split, env: Env)
    requires s.lowerFactor != 0 && s.extent != 0
    ensures SplitDigit(s, env) == FloorMod(FloorDiv(MarkValue(s.source, env), s.lowerFactor), s.extent)
  {
    if s.lowerFactor > 0 && s.extent > 0 {
      FloorIsEuclid(MarkValue(s.source, env), s.lowerFactor);
      FloorIsEuclid(MarkValue(s.source, env) / s.lowerFactor, s.extent);
    }
  }

  function SplitsValue(args: seq<Split>, env: Env): int
    decreases args, 0
  {
    if |args| == 0 then 0 else SplitDigit(args[0], env) * args[0].scale + SplitsValue(args[1..], env)
  }

  function SplitValue(s: Split, env: Env): int { SplitDigit(s, env) * s.scale }

  function IterValue(r: IterExpr, env: Env): int {
    match r
    case Plain(e) => Eval(e, env)
    case SplitExpr(s) => SplitValue(s, env)
    case SumExpr(args, base) => SplitsValue(args, env) + Eval(base, env)
  }

  // ----- well-formed iterators ---------------------------------------------------------------

  function Scales(args: seq<Split>): (r: seq<int>)
    ensures |r| == |args| && forall i :: 0 <= i < |args| ==> r[i] == args[i].scale
  {
    seq(|args|, i requires 0 <= i < |args| => args[i].scale)
  }

  function Extents(args: seq<Split>): (r: seq<int>)
    ensures |r| == |args| && forall i :: 0 <= i < |args| ==> r[i] == args[i].extent
  {
    seq(|args|, i requires 0 <= i < |args| => args[i].extent)
  }

  function LowerFactors(args: seq<Split>): (r: seq<int>)
    ensures |r| == |args| && forall i :: 0 <= i < |args| ==> r[i] == args[i].lowerFactor
  {
    seq(|args|, i requires 0 <= i < |args| => args[i].lowerFactor)
  }

  /** Input marks are inputs; fused marks are mixed-radix sums of well-formed splits. */
  ghost predicate MarkOk(m: Mark, inputs: seq<Input>)
    decreases m, 1
  {
    match m
    case InputMark(v, min, extent) => Input(v, min, extent) in inputs
    case FusedMark(args, extent) => SplitsOk(args, inputs) && Radix(Scales(args), Extents(args), extent)
  }

  ghost predicate SplitOk(s: Split, inputs: seq<Input>)
    decreases s, 1
  {
    s.lowerFactor > 0 && s.extent > 0 && MarkOk(s.source, inputs)
  }

  ghost predicate SplitsOk(args: seq<Split>, inputs: seq<Input>)
    decreases args, 1
  {
    forall i :: 0 <= i < |args| ==> SplitOk(args[i], inputs)
  }

  ghost predicate IterOk(r: IterExpr, inputs: seq<Input>) {
    match r
    case Plain(_) => true
    case SplitExpr(s) => SplitOk(s, inputs)
    case SumExpr(args, _) => SplitsOk(args, inputs)
  }

  /** The valuation puts every input iterator in its range. */
  ghost predicate InBox(inputs: seq<Input>, env: Env) {
    forall i :: 0 <= i < |inputs| ==>
      inputs[i].min <= Get(env, inputs[i].v) < inputs[i].min + inputs[i].extent
  }

  lemma {:induction false} SplitsValueAsDigits(args: seq<Split>, env: Env, d: seq<int>)
    requires |d| == |args| && forall i :: 0 <= i < |args| ==> d[i] == SplitDigit(args[i], env)
    ensures SplitsValue(args, env) == Value(d, Scales(args))
  {
    if |args| > 0 {
      assert Scales(args)[1..] == Scales(args[1..]);
      SplitsValueAsDigits(args[1..], env, d[1..]);
    } else {
      assert Scales(args) == [];
    }
  }

  function Digits(args: seq<Split>, env: Env): (d: seq<int>)
    ensures |d| == |args| && forall i :: 0 <= i < |args| ==> d[i] == SplitDigit(args[i], env)
  {
    seq(|args|, i requires 0 <= i < |args| => SplitDigit(args[i], env))
  }

  /** On the iteration box every well-formed mark stays in [0, extent), and a fused mark's
      digits are the digits of its splits. */
  lemma {:induction false} MarkInRange(m: Mark, inputs: seq<Input>, env: Env)
    requires MarkOk(m, inputs) && InBox(inputs, env)
    ensures 0 <= MarkValue(m, env) < m.extent
    ensures m.FusedMark? ==> forall i :: 0 <= i < |m.args| ==>
              m.args[i].scale > 0 &&
              Digit(MarkValue(m, env), m.args[i].scale, m.args[i].extent) == SplitDigit(m.args[i], env)
  {
    match m
    case InputMark(v, min, extent) =>
      var i :| 0 <= i < |inputs| && inputs[i] == Input(v, min, extent);
    case FusedMark(args, extent) =>
      var d := Digits(args, env);
      forall i | 0 <= i < |args| ensures 0 <= d[i] < args[i].extent {
        assert SplitOk(args[i], inputs);
      }
      SplitsValueAsDigits(args, env, d);
      DigitsOfValue(d, Scales(args), Extents(args), extent);
  }

  // ----- sums of splits ----------------------------------------------------------------------

  lemma {:induction false} SplitsValueAppend(args: seq<Split>, s: Split, env: Env)
    ensures SplitsValue(args + [s], env) == SplitsValue(args, env) + SplitValue(s, env)
  {
    if |args| == 0 {
      assert args + [s] == [s] && [s][1..] == [];
    } else {
      SplitsValueAppend(args[1..], s, env);
      assert (args + [s])[1..] == args[1..] + [s];
    }
  }

  lemma {:induction false} SplitsValueUpdate(args: seq<Split>, i: nat, s: Split, env: Env)
    requires i < |args|
    ensures SplitsValue(args[i := s], env) == SplitsValue(args, env) - SplitValue(args[i], env) + SplitValue(s, env)
  {
    if i == 0 {
      assert args[0 := s][1..] == args[1..];
    } else {
      SplitsValueUpdate(args[1..], i - 1, s, env);
      assert args[i := s][1..] == args[1..][i - 1 := s];
    }
  }

  // ----- choosing iterators in order of their weights ----------------------------------------

  /** The first unused position at or after `from` whose key is the expected one; |keys| if none. */
  function FindKey(keys: seq<int>, used: seq<bool>, expected: int, from: nat): (j: nat)
    requires |used| == |keys| && from <= |keys|
    ensures from <= j <= |keys| && (j < |keys| ==> !used[j] && keys[j] == expected)
    decreases |keys| - from
  {
    if from == |keys| || (!used[from] && keys[from] == expected) then from
    else FindKey(keys, used, expected, from + 1)
  }

  /** The positions chosen, innermost first, and the weight that would come next. */
  datatype Picked = Picked(order: seq<nat>, total: int)

  /** Chooses n positions, each with the expected key, which then grows by the chosen extent. */
  function PickChain(keys: seq<int>, exts: seq<int>, used: seq<bool>, expected: int, n: nat, from: nat): Option<Picked>
    requires |exts| == |keys| && |used| == |keys| && from <= |keys|
    decreases n
  {
    if n == 0 then Some(Picked([], expected))
    else
      var j := FindKey(keys, used, expected, from);
      if j == |keys| then None
      else
        var rest := PickChain(keys, exts, used[j := true], expected * exts[j], n - 1, 0);
        if rest.None? then None else Some(Picked([j] + rest.value.order, rest.value.total))
  }

  function Unused(used: seq<bool>): nat {
    if |used| == 0 then 0 else (if used[0] then 0 else 1) + Unused(used[1..])
  }

  lemma {:induction false} UnusedMark(used: seq<bool>, j: nat)
    requires j < |used| && !used[j]
    ensures Unused(used) == Unused(used[j := true]) + 1
  {
    if j == 0 {
      assert used[0 := true][1..] == used[1..];
    } else {
      UnusedMark(used[1..], j - 1);
      assert used[j := true][1..] == used[1..][j - 1 := true];
    }
  }

  lemma {:induction false} NoneUnused(used: seq<bool>, j: nat)
    requires Unused(used) == 0 && j < |used|
    ensures used[j]
  {
    if j > 0 { NoneUnused(used[1..], j - 1); }
  }

  /** The (k+1)-th chosen key is the k-th one times its extent. */
  ghost predicate GrowsAt(keys: seq<int>, exts: seq<int>, order: seq<nat>, k: nat)
    requires |exts| == |keys| && k + 1 < |order| && order[k] < |keys| && order[k + 1] < |keys|
  {
    keys[order[k + 1]] == keys[order[k]] * exts[order[k]]
  }

  /** The chosen positions carry a growing chain of keys. */
  lemma {:induction false} PickChainKeys(keys: seq<int>, exts: seq<int>, used: seq<bool>, expected: int, n: nat,
      from: nat)
    requires |exts| == |keys| && |used| == |keys| && from <= |keys|
    requires PickChain(keys, exts, used, expected, n, from).Some?
    ensures var p := PickChain(keys, exts, used, expected, n, from).value;
            && |p.order| == n
            && (forall k :: 0 <= k < n ==> p.order[k] < |keys| && !used[p.order[k]])
            && (n > 0 ==> keys[p.order[0]] == expected)
            && (forall k :: 0 <= k < n - 1 ==> GrowsAt(keys, exts, p.order, k))
            && p.total == if n == 0 then expected else keys[p.order[n - 1]] * exts[p.order[n - 1]]
    decreases n
  {
    if n > 0 {
      var j := FindKey(keys, used, expected, from);
      PickChainKeys(keys, exts, used[j := true], expected * exts[j], n - 1, 0);
      var p := PickChain(keys, exts, used, expected, n, from).value;
      var q := PickChain(keys, exts, used[j := true], expected * exts[j], n - 1, 0).value;
      assert p.order == [j] + q.order;
      forall k | 0 <= k < n - 1 ensures GrowsAt(keys, exts, p.order, k) {
        if k > 0 { assert GrowsAt(keys, exts, q.order, k - 1); }
      }
    }
  }

  /** Choosing as many positions as are unused chooses them all. */
  lemma {:induction false} PickChainCovers(keys: seq<int>, exts: seq<int>, used: seq<bool>, expected: int, n: nat,
      from: nat)
    requires |exts| == |keys| && |used| == |keys| && from <= |keys| && Unused(used) == n
    requires PickChain(keys, exts, used, expected, n, from).Some?
    ensures forall j :: 0 <= j < |keys| && !used[j] ==> j in PickChain(keys, exts, used, expected, n, from).value.order
    decreases n
  {
    forall i | 0 <= i < |keys| && !used[i]
      ensures i in PickChain(keys, exts, used, expected, n, from).value.order
    {
      if n == 0 {
        NoneUnused(used, i);
      } else {
        var j := FindKey(keys, used, expected, from);
        UnusedMark(used, j);
        PickChainCovers(keys, exts, used[j := true], expected * exts[j], n - 1, 0);
      }
    }
  }

  /** The sum of the values at unused positions. */
  function SumUnused(vals: seq<int>, used: seq<bool>): int
    requires |vals| == |used|
  {
    if |vals| == 0 then 0 else (if used[0] then 0 else vals[0]) + SumUnused(vals[1..], used[1..])
  }

  lemma {:induction false} SumUnusedMark(vals: seq<int>, used: seq<bool>, j: nat)
    requires |vals| == |used| && j < |used| && !used[j]
    ensures SumUnused(vals, used) == SumUnused(vals, used[j := true]) + vals[j]
  {
    if j == 0 {
      assert used[0 := true][1..] == used[1..];
    } else {
      SumUnusedMark(vals[1..], used[1..], j - 1);
      assert used[j := true][1..] == used[1..][j - 1 := true];
    }
  }

  lemma {:induction false} SumNoneUnused(vals: seq<int>, used: seq<bool>)
    requires |vals| == |used| && Unused(used) == 0
    ensures SumUnused(vals, used) == 0
  {
    if |vals| > 0 { SumNoneUnused(vals[1..], used[1..]); }
  }

  function SumOrder(vals: seq<int>, order: seq<nat>): int
    requires forall k :: 0 <= k < |order| ==> order[k] < |vals|
  {
    if |order| == 0 then 0 else vals[order[0]] + SumOrder(vals, order[1..])
  }

  /** The chosen positions sum to the unused ones. */
  lemma {:induction false} PickChainSum(keys: seq<int>, exts: seq<int>, used: seq<bool>, expected: int, n: nat,
      from: nat, vals: seq<int>)
    requires |exts| == |keys| && |used| == |keys| && |vals| == |keys| && from <= |keys| && Unused(used) == n
    requires PickChain(keys, exts, used, expected, n, from).Some?
    ensures var order := PickChain(keys, exts, used, expected, n, from).value.order;
            (forall k :: 0 <= k < |order| ==> order[k] < |vals|) && SumOrder(vals, order) == SumUnused(vals, used)
    decreases n
  {
    PickChainKeys(keys, exts, used, expected, n, from);
    if n == 0 {
      SumNoneUnused(vals, used);
    } else {
      var j := FindKey(keys, used, expected, from);
      UnusedMark(used, j);
      SumUnusedMark(vals, used, j);
      PickChainSum(keys, exts, used[j := true], expected * exts[j], n - 1, 0, vals);
      var order := PickChain(keys, exts, used, expected, n, from).value.order;
      assert order[1..] == PickChain(keys, exts, used[j := true], expected * exts[j], n - 1, 0).value.order;
    }
  }

  // ----- fusing ------------------------------------------------------------------------------

  function AllUnused(n: nat): (r: seq<bool>)
    ensures |r| == n && forall i :: 0 <= i < n ==> !r[i]
  {
    seq(n, i => false)
  }

  lemma {:induction false} AllUnusedCount(n: nat)
    ensures Unused(AllUnused(n)) == n
  {
    if n > 0 {
      AllUnusedCount(n - 1);
      assert AllUnused(n)[1..] == AllUnused(n - 1);
    }
  }

  /** The first position of the smallest scale, scanning from i with `best` so far. */
  function SmallestScale(args: seq<Split>, best: nat, i: nat): (r: nat)
    requires best < |args| && i <= |args|
    ensures r < |args|
    decreases |args| - i
  {
    if i == |args| then best
    else SmallestScale(args, if args[i].scale < args[best].scale then i else best, i + 1)
  }

  /** The chosen splits, outermost first, with their scales divided by the base scale. */
  function Canonical(args: seq<Split>, order: seq<nat>, base: int): (r: seq<Split>)
    requires base != 0 && forall k :: 0 <= k < |order| ==> order[k] < |args|
    ensures |r| == |order|
  {
    if |order| == 0 then []
    else
      var s := args[order[0]];
      Canonical(args, order[1..], base) + [s.(scale := TruncDiv(s.scale, base))]
  }

  /** What TryFuseIters finds for a sum: its scale-free form, its base scale and the extent of
      the fused mark. */
  datatype Fusion = Fusion(form: seq<Split>, base: int, extent: int)

  /** The search of TryFuseIters. None also stands for the fatal division by a zero base scale. */
  function FuseKey(args: seq<Split>): Option<Fusion> {
    if |args| <= 1 then None
    else
      var baseIndex := SmallestScale(args, 0, 0);
      var base := args[baseIndex].scale;
      if base == 0 then None
      else
        var picked := PickChain(Scales(args), Extents(args), AllUnused(|args|), base, |args|, baseIndex);
        if picked.None? then None
        else
          PickChainKeys(Scales(args), Extents(args), AllUnused(|args|), base, |args|, baseIndex);
          Some(Fusion(Canonical(args, picked.value.order, base), base, TruncDiv(picked.value.total, base)))
  }

  function FusedSplit(k: Fusion): Split { Split(FusedMark(k.form, k.extent), 1, k.extent, k.base) }

  /** The memo of fused sums, keyed by their scale-free forms, with two observations about the run
      so far: every memo hit had the scale it was asked for, and every division was on one side. */
  datatype Memo = Memo(fused: map<seq<Split>, Split>, coherent: bool, positive: bool)

  /** The memo has no entry for the form, or one with the base scale. */
  predicate Matches(k: Fusion, memo: Memo) { k.form in memo.fused ==> memo.fused[k.form].scale == k.base }

  function Answer(k: Fusion, memo: Memo): Split {
    if k.form in memo.fused then memo.fused[k.form] else FusedSplit(k)
  }

  function Remember(k: Fusion, memo: Memo): Memo {
    if k.form in memo.fused then memo.(coherent := memo.coherent && Matches(k, memo))
    else memo.(fused := memo.fused[k.form := FusedSplit(k)])
  }

  /** TryFuseIters on a sum with base 0. */
  function Fuse(args: seq<Split>, memo: Memo): (Option<Split>, Memo) {
    if |args| == 1 then (Some(args[0]), memo)
    else
      var key := FuseKey(args);
      if key.None? then (None, memo) else (Some(Answer(key.value, memo)), Remember(key.value, memo))
  }

  /** Every memo entry is the full split of the fused mark of its key. */
  ghost predicate MemoOk(memo: Memo, inputs: seq<Input>) {
    memo.positive ==> forall key :: key in memo.fused ==>
      var s := memo.fused[key];
      s.source == FusedMark(key, s.extent) && s.lowerFactor == 1 && SplitOk(s, inputs)
  }

  /** The chosen keys are the base times the weights of a mixed-radix system. */
  ghost predicate KeyChain(args: seq<Split>, p: Picked, base: int) {
    && |p.order| > 0 && (forall k :: 0 <= k < |p.order| ==> p.order[k] < |args|)
    && args[p.order[0]].scale == base
    && (forall k :: 0 <= k < |p.order| - 1 ==> GrowsAt(Scales(args), Extents(args), p.order, k))
    && p.total == args[p.order[|p.order| - 1]].scale * args[p.order[|p.order| - 1]].extent
  }

  lemma {:induction false} ScaledQuotient(u: int, base: int, e: int)
    requires base != 0
    ensures TruncDiv(u * base, base) == u
    ensures u * base * e == (u * e) * base && TruncDiv(u * base * e, base) == u * e
  {
    TruncDivExact(u, base);
    MulAssoc(u, base, e);
    MulAssoc(u, e, base);
    TruncDivExact(u * e, base);
  }

  /** The k-th chosen scale is its quotient by the base times the base. */
  lemma {:induction false} ChainQuotient(args: seq<Split>, p: Picked, base: int, k: nat)
    requires KeyChain(args, p, base) && base != 0 && k < |p.order|
    ensures var s := args[p.order[k]];
            var u := TruncDiv(s.scale, base);
            && s.scale == u * base && TruncDiv(s.scale * s.extent, base) == u * s.extent
            && (k == 0 ==> u == 1)
            && (k > 0 ==> u == TruncDiv(args[p.order[k - 1]].scale, base) * args[p.order[k - 1]].extent)
  {
    if k == 0 {
      ScaledQuotient(1, base, args[p.order[0]].extent);
    } else {
      ChainQuotient(args, p, base, k - 1);
      assert GrowsAt(Scales(args), Extents(args), p.order, k - 1);
      var t := args[p.order[k - 1]];
      var u := TruncDiv(t.scale, base);
      ScaledQuotient(u, base, t.extent);
      ScaledQuotient(u * t.extent, base, args[p.order[k]].extent);
    }
  }

  lemma {:induction false} CanonicalAt(args: seq<Split>, order: seq<nat>, base: int, i: nat)
    requires base != 0 && i < |order| && forall k :: 0 <= k < |order| ==> order[k] < |args|
    ensures var s := args[order[|order| - 1 - i]];
            Canonical(args, order, base)[i] == s.(scale := TruncDiv(s.scale, base))
  {
    if i < |order| - 1 {
      CanonicalAt(args, order[1..], base, i);
    }
  }

  /** The canonical form is a mixed-radix sum. */
  lemma {:induction false} CanonicalRadix(args: seq<Split>, p: Picked, base: int, inputs: seq<Input>)
    requires SplitsOk(args, inputs) && KeyChain(args, p, base) && base != 0
    ensures var c := Canonical(args, p.order, base);
            SplitsOk(c, inputs) && Radix(Scales(c), Extents(c), TruncDiv(p.total, base))
  {
    var c := Canonical(args, p.order, base);
    var n := |p.order|;
    forall i | 0 <= i < n
      ensures SplitOk(c[i], inputs) && c[i].extent == args[p.order[n - 1 - i]].extent
      ensures c[i].scale == TruncDiv(args[p.order[n - 1 - i]].scale, base)
    {
      CanonicalAt(args, p.order, base, i);
      assert SplitOk(args[p.order[n - 1 - i]], inputs);
    }
    ChainQuotient(args, p, base, 0);
    ChainQuotient(args, p, base, n - 1);
    forall k | 0 <= k < n - 1 ensures StepAt(Scales(c), Extents(c), k) {
      ChainQuotient(args, p, base, n - 1 - k);
    }
  }

  function SplitValues(args: seq<Split>, env: Env): (r: seq<int>)
    ensures |r| == |args| && forall i :: 0 <= i < |args| ==> r[i] == SplitValue(args[i], env)
  {
    seq(|args|, i requires 0 <= i < |args| => SplitValue(args[i], env))
  }

  lemma {:induction false} SumAll(args: seq<Split>, env: Env)
    ensures SumUnused(SplitValues(args, env), AllUnused(|args|)) == SplitsValue(args, env)
  {
    if |args| > 0 {
      SumAll(args[1..], env);
      assert SplitValues(args, env)[1..] == SplitValues(args[1..], env);
      assert AllUnused(|args|)[1..] == AllUnused(|args| - 1);
    }
  }

  /** The canonical form times the base is the sum of the chosen splits. */
  lemma {:induction false} CanonicalValue(args: seq<Split>, order: seq<nat>, base: int, env: Env)
    requires base != 0
    requires forall k :: 0 <= k < |order| ==>
               order[k] < |args| && args[order[k]].scale == TruncDiv(args[order[k]].scale, base) * base
    ensures SplitsValue(Canonical(args, order, base), env) * base == SumOrder(SplitValues(args, env), order)
  {
    if |order| > 0 {
      CanonicalValue(args, order[1..], base, env);
      var s := args[order[0]];
      var u := TruncDiv(s.scale, base);
      var c := Canonical(args, order[1..], base);
      SplitsValueAppend(c, s.(scale := u), env);
      Distribute(SplitsValue(c, env), SplitDigit(s, env) * u, base);
      MulAssoc(SplitDigit(s, env), u, base);
      assert SplitDigit(s.(scale := u), env) == SplitDigit(s, env);
    }
  }

  /** A full split of a fused mark is the mark's value times its scale. */
  lemma {:induction false} FullSplitValue(s: Split, inputs: seq<Input>, env: Env)
    requires SplitOk(s, inputs) && s.lowerFactor == 1 && s.source.extent == s.extent && InBox(inputs, env)
    ensures SplitDigit(s, env) == MarkValue(s.source, env)
  {
    MarkInRange(s.source, inputs, env);
    DivModUnique(MarkValue(s.source, env), s.extent, 0, MarkValue(s.source, env));
  }

  /** What TryFuseIters has chosen when it gets past the search. */
  lemma {:induction false} FuseChoice(args: seq<Split>)
    requires |args| > 1
    ensures var baseIndex := SmallestScale(args, 0, 0);
            var base := args[baseIndex].scale;
            var picked := PickChain(Scales(args), Extents(args), AllUnused(|args|), base, |args|, baseIndex);
            picked.Some? ==> (
              KeyChain(args, picked.value, base) && |picked.value.order| == |args| &&
              forall env: Env :: SumOrder(SplitValues(args, env), picked.value.order) == SplitsValue(args, env))
  {
    var baseIndex := SmallestScale(args, 0, 0);
    var base := args[baseIndex].scale;
    var picked := PickChain(Scales(args), Extents(args), AllUnused(|args|), base, |args|, baseIndex);
    if picked.Some? {
      PickChainKeys(Scales(args), Extents(args), AllUnused(|args|), base, |args|, baseIndex);
      forall env: Env ensures SumOrder(SplitValues(args, env), picked.value.order) == SplitsValue(args, env) {
        AllUnusedCount(|args|);
        PickChainSum(Scales(args), Extents(args), AllUnused(|args|), base, |args|, baseIndex, SplitValues(args, env));
        SumAll(args, env);
      }
    }
  }

  /** Fusing keeps the memo well-formed and yields a well-formed split. */
  lemma {:induction false} FuseOk(args: seq<Split>, memo: Memo, inputs: seq<Input>)
    requires memo.positive ==> SplitsOk(args, inputs)
    requires MemoOk(memo, inputs)
    ensures var (r, memo') := Fuse(args, memo);
            MemoOk(memo', inputs) && memo'.positive == memo.positive && (memo'.coherent ==> memo.coherent) &&
            (memo.positive && r.Some? ==> SplitOk(r.value, inputs))
  {
    var (r, memo') := Fuse(args, memo);
    if |args| > 1 && r.Some? && memo.positive {
      FuseChoice(args);
      var baseIndex := SmallestScale(args, 0, 0);
      var base := args[baseIndex].scale;
      var p := PickChain(Scales(args), Extents(args), AllUnused(|args|), base, |args|, baseIndex).value;
      CanonicalRadix(args, p, base, inputs);
      FusedExtentPositive(Canonical(args, p.order, base), TruncDiv(p.total, base));
    }
  }

  lemma {:induction false} FusedExtentPositive(c: seq<Split>, total: int)
    requires Radix(Scales(c), Extents(c), total)
    ensures total > 0
  {
    WeightsPositive(Scales(c), Extents(c), total, 0);
    ProductPositive(Scales(c)[0], Extents(c)[0]);
  }

  /** Fusing a sum keeps its value on the iteration box exactly when the memo has no entry of
      another scale for its form, or the sum is 0. */
  lemma {:induction false} FuseValue(args: seq<Split>, memo: Memo, inputs: seq<Input>, env: Env)
    requires SplitsOk(args, inputs) && MemoOk(memo, inputs) && memo.positive && InBox(inputs, env)
    ensures FuseKey(args).Some? ==>
              (SplitValue(Fuse(args, memo).0.value, env) == SplitsValue(args, env) <==>
               Matches(FuseKey(args).value, memo) || SplitsValue(args, env) == 0)
  {
    if FuseKey(args).Some? {
      var k, r := FuseKey(args).value, Fuse(args, memo).0.value;
      FormValue(args, env);
      FuseOk(args, memo, inputs);
      assert r.source.FusedMark? && r.source.args == k.form;
      FullSplitValue(r, inputs, env);
      var x := MarkValue(r.source, env);
      ProductsDiffer(x, r.scale, k.base);
      ProductsDiffer(k.base, x, 0);
    }
  }

  /** The scale-free form times the base scale is the sum. */
  lemma {:induction false} FormValue(args: seq<Split>, env: Env)
    requires FuseKey(args).Some?
    ensures var k := FuseKey(args).value;
            k.base != 0 && SplitsValue(k.form, env) * k.base == SplitsValue(args, env)
  {
    FuseChoice(args);
    var baseIndex := SmallestScale(args, 0, 0);
    var base := args[baseIndex].scale;
    var p := PickChain(Scales(args), Extents(args), AllUnused(|args|), base, |args|, baseIndex).value;
    forall k | 0 <= k < |p.order| ensures args[p.order[k]].scale == TruncDiv(args[p.order[k]].scale, base) * base {
      ChainQuotient(args, p, base, k);
    }
    CanonicalValue(args, p.order, base, env);
  }

  lemma {:induction false} ProductsDiffer(x: int, a: int, b: int)
    ensures x * a == x * b <==> a == b || x == 0
  {
    Distribute(a, b, x);
    if x * (a - b) == 0 && x != 0 && a != b {
      if x > 0 { NonZeroProduct(x, a - b); } else { MulSigns(x, a - b); NonZeroProduct(-x, a - b); }
    }
  }

  lemma {:induction false} NonZeroProduct(x: int, d: int)
    requires x > 0 && d != 0
    ensures x * d != 0
  {
    if d > 0 { ProductPositive(x, d); } else { MulSigns(x, d); ProductPositive(x, -d); }
  }

  lemma {:induction false} FuseCoherent(args: seq<Split>, memo: Memo, inputs: seq<Input>, env: Env)
    requires SplitsOk(args, inputs) && MemoOk(memo, inputs) && memo.positive && InBox(inputs, env)
    ensures var (r, memo') := Fuse(args, memo);
            r.Some? && memo'.coherent ==> SplitValue(r.value, env) == SplitsValue(args, env)
  {
    if |args| == 1 {
      assert args[1..] == [];
    } else {
      FuseValue(args, memo, inputs, env);
    }
  }

  // ----- division and remainder of a split ---------------------------------------------------

  /** SplitFloorDivConst for a nonzero constant. */
  function SplitFloorDiv(s: Split, c: int): Option<IterExpr>
    requires c != 0
  {
    if c == 1 then Some(SplitExpr(s))
    else if s.scale != 1 && TruncMod(s.scale, c) == 0 then Some(SplitExpr(s.(scale := FloorDiv(s.scale, c))))
    else if s.scale == 0 || TruncMod(c, s.scale) != 0 then None
    else
      var k := FloorDiv(c, s.scale);
      if k == 0 || TruncMod(s.extent, k) != 0 then None
      else Some(SplitExpr(Split(s.source, s.lowerFactor * k, FloorDiv(s.extent, k), 1)))
  }

  /** SplitFloorModConst for a nonzero constant. */
  function SplitFloorMod(s: Split, c: int): Option<IterExpr>
    requires c != 0
  {
    if c == 1 then Some(Plain(IntImm(0)))
    else if s.scale != 1 && TruncMod(s.scale, c) == 0 then Some(Plain(IntImm(0)))
    else if s.scale == 0 || TruncMod(c, s.scale) != 0 then None
    else
      var k := FloorDiv(c, s.scale);
      if k == 0 || TruncMod(s.extent, k) != 0 then None else Some(SplitExpr(s.(extent := k)))
  }

  /** Neither of the first two branches is taken, so the factors get divided. */
  predicate DividesFactors(scale: int, c: int) { c != 0 && c != 1 && !(scale != 1 && TruncMod(scale, c) == 0) }

  /** Where the factors get divided, scale and divisor have the same sign. */
  predicate SameSide(scale: int, c: int) { DividesFactors(scale, c) ==> (scale > 0 <==> c > 0) }

  /** (x*s) / (k*s) == x / k and (x*s) mod (k*s) == (x mod k) * s, for all nonzero k and s. */
  lemma {:induction false} ScaledFloor(x: int, k: int, s: int)
    requires k != 0 && s != 0
    ensures k * s != 0 && FloorDiv(x * s, k * s) == FloorDiv(x, k) && FloorMod(x * s, k * s) == FloorMod(x, k) * s
  {
    var q, r := FloorDiv(x, k), FloorMod(x, k);
    FloorDivModUnique(x, k, q, r);
    assert x * s == q * (k * s) + r * s by { Distribute(q * k, r, s); MulAssoc(q, k, s); }
    if k > 0 {
      ScaledBetween(r, k, s);
    } else {
      MulSigns(r, s);
      MulSigns(k, s);
      ScaledBetween(-r, -k, s);
    }
    FloorDivModUnique(x * s, k * s, q, r * s);
  }

  lemma {:induction false} ScaledBetween(r: int, k: int, s: int)
    requires 0 <= r < k && s != 0
    ensures if s > 0 then 0 <= r * s < k * s else k * s < r * s <= 0
  {
    if s > 0 {
      MulLe(0, r, s);
      MulLe(r + 1, k, s);
      Distribute(r, 1, s);
    } else {
      MulSigns(k, s);
      MulSigns(r, s);
      MulLe(0, r, -s);
      MulLe(r + 1, k, -s);
      Distribute(r, 1, -s);
    }
  }

  /** Dividing a digit by a factor k of its extent e = k*f gives the digit k places up, and its
      remainder is the digit of extent k. */
  lemma {:induction false} DigitOfDigit(x: int, w: int, k: int, f: int)
    requires w > 0 && k > 0 && f > 0
    ensures k * f > 0 && w * k > 0
    ensures Digit(x, w, k * f) / k == Digit(x, w * k, f)
    ensures Digit(x, w, k * f) % k == Digit(x, w, k)
  {
    EuclidNested(x, w, k);
    EuclidNested(x / w, k, f);
    var h, u := ((x / w) / k) % f, (x / w) % k;
    DivModUnique(h * k + u, k, h, u);
  }

  lemma {:induction false} ExactFactor(e: int, k: int)
    requires e > 0 && k > 0 && TruncMod(e, k) == 0
    ensures e == k * FloorDiv(e, k) && FloorDiv(e, k) > 0
  {
    RemainderZero(e, k);
    if FloorDiv(e, k) <= 0 { MulLe(FloorDiv(e, k), 0, k); }
  }

  /** The divisor left after removing the scale is positive for equal signs, else negative. */
  lemma {:induction false} LeftOver(scale: int, c: int)
    requires scale != 0 && c != 0 && TruncMod(c, scale) == 0
    ensures c == FloorDiv(c, scale) * scale && FloorDiv(c, scale) != 0
    ensures FloorDiv(c, scale) > 0 <==> (scale > 0 <==> c > 0)
  {
    RemainderZero(c, scale);
    var k := FloorDiv(c, scale);
    assert k != 0;
    MulSigns(k, scale);
    ProductPositive(Abs(k), Abs(scale));
  }

  /** The quotient of a split by a constant is a well-formed split with the floor quotient as its
      value exactly when the factors are divided on one side. */
  lemma {:induction false} SplitFloorDivExact(s: Split, c: int, inputs: seq<Input>)
    requires c != 0 && SplitOk(s, inputs) && SplitFloorDiv(s, c).Some?
    ensures var r := SplitFloorDiv(s, c).value;
            (IterOk(r, inputs) && forall env: Env :: IterValue(r, env) == FloorDiv(SplitValue(s, env), c)) <==>
            SameSide(s.scale, c)
  {
    if DividesFactors(s.scale, c) {
      LeftOver(s.scale, c);
      var k := FloorDiv(c, s.scale);
      if k > 0 {
        forall env: Env ensures IterValue(SplitFloorDiv(s, c).value, env) == FloorDiv(SplitValue(s, env), c) {
          FactorsDivided(s, k, env);
        }
        ExactFactor(s.extent, k);
        ProductPositive(s.lowerFactor, k);
      } else {
        MulSigns(s.lowerFactor, k);
        ProductPositive(s.lowerFactor, -k);
        assert !IterOk(SplitFloorDiv(s, c).value, inputs);
      }
    } else {
      forall env: Env ensures IterValue(SplitFloorDiv(s, c).value, env) == FloorDiv(SplitValue(s, env), c) {
        ScaleDivided(s, c, env);
      }
    }
  }

  lemma {:induction false} ScaleDivided(s: Split, c: int, env: Env)
    requires c != 0 && !DividesFactors(s.scale, c)
    ensures IterValue(SplitFloorDiv(s, c).value, env) == FloorDiv(SplitValue(s, env), c)
    ensures FloorMod(SplitValue(s, env), c) == 0
  {
    if c == 1 {
      TruncDivExact(SplitValue(s, env), 1);
    } else {
      RemainderZero(s.scale, c);
      var d, u := SplitDigit(s, env), FloorDiv(s.scale, c);
      MulAssoc(d, u, c);
      TruncDivExact(d * u, c);
      assert SplitDigit(s.(scale := u), env) == d;
    }
  }

  lemma {:induction false} FactorsDivided(s: Split, k: int, env: Env)
    requires s.lowerFactor > 0 && s.extent > 0 && k > 0 && s.scale != 0 && TruncMod(s.extent, k) == 0
    ensures k * s.scale != 0
    ensures SplitValue(Split(s.source, s.lowerFactor * k, FloorDiv(s.extent, k), 1), env) ==
            FloorDiv(SplitValue(s, env), k * s.scale)
  {
    var x, f := MarkValue(s.source, env), FloorDiv(s.extent, k);
    ExactFactor(s.extent, k);
    ScaledFloor(SplitDigit(s, env), k, s.scale);
    FloorIsEuclid(SplitDigit(s, env), k);
    DigitOfDigit(x, s.lowerFactor, k, f);
  }

  /** The remainder of a split has the floor remainder as its value, whatever the signs, and is
      well-formed exactly when the extent is divided on one side. */
  lemma {:induction false} SplitFloorModExact(s: Split, c: int, inputs: seq<Input>)
    requires c != 0 && SplitOk(s, inputs) && SplitFloorMod(s, c).Some?
    ensures forall env: Env :: IterValue(SplitFloorMod(s, c).value, env) == FloorMod(SplitValue(s, env), c)
    ensures IterOk(SplitFloorMod(s, c).value, inputs) <==> SameSide(s.scale, c)
  {
    if DividesFactors(s.scale, c) {
      LeftOver(s.scale, c);
      forall env: Env ensures IterValue(SplitFloorMod(s, c).value, env) == FloorMod(SplitValue(s, env), c) {
        ExtentReplaced(s, FloorDiv(c, s.scale), env);
      }
    } else {
      forall env: Env ensures IterValue(SplitFloorMod(s, c).value, env) == FloorMod(SplitValue(s, env), c) {
        ScaleDivided(s, c, env);
      }
    }
  }

  lemma {:induction false} ExtentReplaced(s: Split, k: int, env: Env)
    requires s.lowerFactor > 0 && s.extent > 0 && k != 0 && s.scale != 0 && TruncMod(s.extent, k) == 0
    ensures k * s.scale != 0 && SplitValue(s.(extent := k), env) == FloorMod(SplitValue(s, env), k * s.scale)
  {
    var y := MarkValue(s.source, env) / s.lowerFactor;
    FloorIsEuclid(MarkValue(s.source, env), s.lowerFactor);
    DigitIsFloor(s.(extent := k), env);
    RemainderZero(s.extent, k);
    var f := FloorDiv(s.extent, k);
    assert y == y % s.extent + (y / s.extent) * f * k by { MulAssoc(y / s.extent, f, k); }
    FloorModPeriodic(y % s.extent, k, (y / s.extent) * f);
    ScaledFloor(SplitDigit(s, env), k, s.scale);
  }

  lemma {:induction false} FloorModPeriodic(x: int, k: int, t: int)
    requires k != 0
    ensures FloorMod(x + t * k, k) == FloorMod(x, k)
  {
    FloorDivModUnique(x, k, FloorDiv(x, k), FloorMod(x, k));
    Distribute(FloorDiv(x, k), t, k);
    FloorDivModUnique(x + t * k, k, FloorDiv(x, k) + t, FloorMod(x, k));
  }

  // ----- sums --------------------------------------------------------------------------------

  function FoldMul(a: Expr, b: Expr): Expr {
    if a.IntImm? && b.IntImm? then IntImm(a.value * b.value)
    else if a == IntImm(1) then b
    else if a == IntImm(0) then a
    else if b == IntImm(1) then a
    else if b == IntImm(0) then b
    else Bin(Mul, a, b)
  }

  predicate SameSplit(s: Split, t: Split) {
    s.source == t.source && s.lowerFactor == t.lowerFactor && s.extent == t.extent
  }

  /** AddToLhs for one split: merges with the first split of the same digit, else appends. */
  function AddSplit(args: seq<Split>, s: Split, sign: int, i: nat): seq<Split>
    requires i <= |args|
    decreases |args| - i
  {
    if i == |args| then args + [if sign > 0 then s else s.(scale := 0 - s.scale)]
    else if SameSplit(args[i], s) then
      args[i := s.(scale := if sign > 0 then args[i].scale + s.scale else args[i].scale - s.scale)]
    else AddSplit(args, s, sign, i + 1)
  }

  lemma {:induction false} AddSplitSound(args: seq<Split>, s: Split, sign: int, i: nat, inputs: seq<Input>)
    requires i <= |args| && (sign == 1 || sign == -1) && SplitsOk(args, inputs) && SplitOk(s, inputs)
    ensures SplitsOk(AddSplit(args, s, sign, i), inputs)
    ensures forall env: Env ::
              SplitsValue(AddSplit(args, s, sign, i), env) == SplitsValue(args, env) + sign * SplitValue(s, env)
    decreases |args| - i
  {
    if i < |args| && !SameSplit(args[i], s) {
      AddSplitSound(args, s, sign, i + 1, inputs);
    } else {
      forall env: Env
        ensures SplitsValue(AddSplit(args, s, sign, i), env) == SplitsValue(args, env) + sign * SplitValue(s, env)
      {
        AddSplitValue(args, s, sign, i, env);
      }
    }
  }

  lemma {:induction false} AddSplitValue(args: seq<Split>, s: Split, sign: int, i: nat, env: Env)
    requires i <= |args| && (sign == 1 || sign == -1) && (i < |args| ==> SameSplit(args[i], s))
    ensures SplitsValue(AddSplit(args, s, sign, i), env) == SplitsValue(args, env) + sign * SplitValue(s, env)
  {
    var d := SplitDigit(s, env);
    MulSigns(d, s.scale);
    if i == |args| {
      var t := if sign > 0 then s else s.(scale := 0 - s.scale);
      assert SplitDigit(t, env) == d;
      SplitsValueAppend(args, t, env);
    } else {
      var t := s.(scale := if sign > 0 then args[i].scale + s.scale else args[i].scale - s.scale);
      assert SplitDigit(t, env) == d && SplitDigit(args[i], env) == d;
      Distribute(args[i].scale, s.scale, d);
      SplitsValueUpdate(args, i, t, env);
    }
  }

  function AddSplits(args: seq<Split>, more: seq<Split>, sign: int): seq<Split>
    decreases |more|
  {
    if |more| == 0 then args else AddSplits(AddSplit(args, more[0], sign, 0), more[1..], sign)
  }

  lemma {:induction false} AddSplitsSound(args: seq<Split>, more: seq<Split>, sign: int, inputs: seq<Input>)
    requires (sign == 1 || sign == -1) && SplitsOk(args, inputs) && SplitsOk(more, inputs)
    ensures SplitsOk(AddSplits(args, more, sign), inputs)
    ensures forall env: Env ::
              SplitsValue(AddSplits(args, more, sign), env) == SplitsValue(args, env) + sign * SplitsValue(more, env)
    decreases |more|
  {
    if |more| > 0 {
      AddSplitSound(args, more[0], sign, 0, inputs);
      var args' := AddSplit(args, more[0], sign, 0);
      AddSplitsSound(args', more[1..], sign, inputs);
      forall env: Env
        ensures SplitsValue(AddSplits(args, more, sign), env) == SplitsValue(args, env) + sign * SplitsValue(more, env)
      {
        assert SplitsValue(AddSplits(args', more[1..], sign), env) ==
               SplitsValue(args', env) + sign * SplitsValue(more[1..], env);
        assert SplitsValue(args', env) == SplitsValue(args, env) + sign * SplitValue(more[0], env);
        Distribute(SplitValue(more[0], env), SplitsValue(more[1..], env), sign);
      }
    }
  }

  function ScaleAll(args: seq<Split>, c: int): (r: seq<Split>)
    ensures |r| == |args| && forall i :: 0 <= i < |args| ==> r[i] == args[i].(scale := args[i].scale * c)
  {
    seq(|args|, i requires 0 <= i < |args| => args[i].(scale := args[i].scale * c))
  }

  lemma {:induction false} ScaleAllValue(args: seq<Split>, c: int, env: Env)
    ensures SplitsValue(ScaleAll(args, c), env) == SplitsValue(args, env) * c
  {
    if |args| > 0 {
      ScaleAllValue(args[1..], c, env);
      assert ScaleAll(args, c)[1..] == ScaleAll(args[1..], c);
      assert SplitDigit(ScaleAll(args, c)[0], env) == SplitDigit(args[0], env);
      MulAssoc(SplitDigit(args[0], env), args[0].scale, c);
      Distribute(SplitValue(args[0], env), SplitsValue(args[1..], env), c);
    }
  }

  // ----- the rewriter ------------------------------------------------------------------------

  /** ToIterSumExpr. */
  function AsSum(r: IterExpr): IterSum {
    match r
    case Plain(e) => IterSum([], e)
    case SplitExpr(s) => IterSum([s], IntImm(0))
    case SumExpr(args, base) => IterSum(args, base)
  }

  predicate IsConst(r: IterExpr, n: int) { r == Plain(IntImm(n)) }

  predicate IsLiteral(r: IterExpr) { r.Plain? && r.e.IntImm? }

  /** Sum or difference once constant folding has failed. */
  function AddIters(a: IterExpr, b: IterExpr, sign: int): IterExpr {
    var lhs := AsSum(a);
    match b
    case Plain(e) => SumExpr(lhs.args, if sign > 0 then Plus(lhs.base, e) else Minus(lhs.base, e))
    case SplitExpr(s) => SumExpr(AddSplit(lhs.args, s, sign, 0), lhs.base)
    case SumExpr(args, base) =>
      SumExpr(AddSplits(lhs.args, args, sign), if sign > 0 then Plus(lhs.base, base) else Minus(lhs.base, base))
  }

  function VisitAdd(a: IterExpr, b: IterExpr): IterExpr {
    if IsLiteral(a) && IsLiteral(b) then Plain(IntImm(a.e.value + b.e.value))
    else if IsConst(a, 0) then b
    else if IsConst(b, 0) then a
    else if a.Plain? && b.Plain? then Plain(Bin(Add, a.e, b.e))
    else AddIters(a, b, 1)
  }

  function VisitSub(a: IterExpr, b: IterExpr): IterExpr {
    if IsLiteral(a) && IsLiteral(b) then Plain(IntImm(a.e.value - b.e.value))
    else if IsConst(b, 0) then a
    else if a.Plain? && b.Plain? then Plain(Bin(Sub, a.e, b.e))
    else AddIters(a, b, -1)
  }

  /** None for a product of two iterators and for a symbolic factor. */
  function VisitMul(a: IterExpr, b: IterExpr): Option<IterExpr> {
    if IsLiteral(a) && IsLiteral(b) then Some(Plain(IntImm(a.e.value * b.e.value)))
    else if IsConst(a, 1) then Some(b)
    else if IsConst(a, 0) then Some(a)
    else if IsConst(b, 1) then Some(a)
    else if IsConst(b, 0) then Some(b)
    else if a.Plain? && b.Plain? then Some(Plain(Bin(Mul, a.e, b.e)))
    else if IsLiteral(b) then Some(MulIter(a, b.e.value))
    else if IsLiteral(a) then Some(MulIter(b, a.e.value))
    else None
  }

  /** What FloorDiv and FloorMod do before dividing an iterator: an answer, or a constant divisor.
      None for an iterator divisor, a fatal zero divisor and a symbolic divisor of an iterator. */
  datatype DivCase = Settled(r: Option<IterExpr>) | DivideIter(c: int)

  function DivCases(a: IterExpr, b: IterExpr, isDiv: bool): (r: DivCase)
    ensures r.DivideIter? ==> r.c != 0 && b == Plain(IntImm(r.c))
  {
    if IsConst(b, 0) then Settled(None)
    else if IsLiteral(a) && IsLiteral(b) then
      Settled(Some(Plain(IntImm(if isDiv then FloorDiv(a.e.value, b.e.value) else FloorMod(a.e.value, b.e.value)))))
    else if IsConst(a, 0) then Settled(Some(a))
    else if IsConst(b, 1) then Settled(Some(if isDiv then a else Plain(IntImm(0))))
    else if a.Plain? && b.Plain? then Settled(Some(Plain(Bin(if isDiv then FloorDivOp else FloorModOp, a.e, b.e))))
    else if !IsLiteral(b) then Settled(None)
    else DivideIter(b.e.value)
  }

  function VisitDiv(a: IterExpr, b: IterExpr, memo: Memo, isDiv: bool): (Option<IterExpr>, Memo) {
    match DivCases(a, b, isDiv)
    case Settled(r) => (r, memo)
    case DivideIter(c) => DivIter(a, c, memo, isDiv)
  }

  predicate IsDivision(op: BinOp) { op == FloorDivOp || op == FloorModOp }

  /** The other visitors. */
  function Direct(op: BinOp, a: IterExpr, b: IterExpr): Option<IterExpr> {
    match op
    case Add => Some(VisitAdd(a, b))
    case Sub => Some(VisitSub(a, b))
    case Mul => VisitMul(a, b)
    case _ => if a.Plain? && b.Plain? then Some(Plain(Bin(op, a.e, b.e))) else None
  }

  /** The visitor of a binary operator on rewritten operands. None stands for an unresolved
      expression, for a fatal division by zero, and for a symbolic factor. */
  function Combined(op: BinOp, a: IterExpr, b: IterExpr, memo: Memo): (Option<IterExpr>, Memo) {
    if IsDivision(op) then VisitDiv(a, b, memo, op == FloorDivOp) else (Direct(op, a, b), memo)
  }

  function MulIter(a: IterExpr, c: int): IterExpr {
    match a
    case Plain(e) => Plain(FoldMul(e, IntImm(c)))
    case SplitExpr(s) => SplitExpr(s.(scale := s.scale * c))
    case SumExpr(args, base) => SumExpr(ScaleAll(args, c), FoldMul(base, IntImm(c)))
  }

  function Quotient(s: Split, c: int, isDiv: bool): Option<IterExpr>
    requires c != 0
  {
    if isDiv then SplitFloorDiv(s, c) else SplitFloorMod(s, c)
  }

  function Observe(memo: Memo, scale: int, c: int): Memo {
    memo.(positive := memo.positive && SameSide(scale, c))
  }

  /** Division (or remainder) of an iterator expression by a nonzero constant; a sum is fused
      first. */
  function DivIter(a: IterExpr, c: int, memo: Memo, isDiv: bool): (Option<IterExpr>, Memo)
    requires c != 0
  {
    match a
    case Plain(_) => (None, memo)
    case SplitExpr(s) => (Quotient(s, c, isDiv), Observe(memo, s.scale, c))
    case SumExpr(args, base) =>
      if base != IntImm(0) then (None, memo)
      else
        var (fused, memo') := Fuse(args, memo);
        if fused.None? then (None, memo')
        else (Quotient(fused.value, c, isDiv), Observe(memo', fused.value.scale, c))
  }

  function FullSplit(m: Mark, scale: int): Split { Split(m, 1, m.extent, scale) }

  /** var_map_: each input iterator as the full split of its mark, shifted by its minimum. */
  function VarMap(inputs: seq<Input>): map<nat, IterExpr> {
    if |inputs| == 0 then map[]
    else
      var x := inputs[|inputs| - 1];
      VarMap(inputs[..|inputs| - 1])[x.v := InputIter(x)]
  }

  /** DirectMutate. */
  function Mutate(e: Expr, vars: map<nat, IterExpr>, memo: Memo): (Option<IterExpr>, Memo) {
    match e
    case Var(v) => (Some(if v in vars then vars[v] else Plain(e)), memo)
    case IntImm(_) => (Some(Plain(e)), memo)
    case Bin(op, a, b) =>
      var (ra, m1) := Mutate(a, vars, memo);
      if ra.None? then (None, m1)
      else
        var (rb, m2) := Mutate(b, vars, m1);
        if rb.None? then (None, m2) else Combined(op, ra.value, rb.value, m2)
    case Not(a) =>
      var (ra, m1) := Mutate(a, vars, memo);
      if ra.None? || !ra.value.Plain? then (None, m1) else (Some(Plain(Not(ra.value.e))), m1)
    case Select(c, t, f) =>
      var (rc, m1) := Mutate(c, vars, memo);
      if rc.None? || !rc.value.Plain? then (None, m1)
      else
        var (rt, m2) := Mutate(t, vars, m1);
        if rt.None? || !rt.value.Plain? then (None, m2)
        else
          var (rf, m3) := Mutate(f, vars, m2);
          if rf.None? || !rf.value.Plain? then (None, m3)
          else (Some(Plain(Select(rc.value.e, rt.value.e, rf.value.e))), m3)
  }

  /** NormalizeToIterWithOffset. */
  function Normalized(sum: IterSum, memo: Memo): (Option<IterSum>, Memo) {
    if |sum.args| <= 1 then (Some(sum), memo)
    else
      var (fused, memo') := Fuse(sum.args, memo);
      if fused.None? then (None, memo') else (Some(IterSum([fused.value], sum.base)), memo')
  }

  /** Rewrite: one iterator plus an offset. */
  function Rewrite(e: Expr, vars: map<nat, IterExpr>, memo: Memo): (Option<IterSum>, Memo) {
    var (r, m1) := Mutate(e, vars, memo);
    if r.None? then (None, m1) else Normalized(AsSum(r.value), m1)
  }

  // ----- value preservation ------------------------------------------------------------------

  lemma {:induction false} FoldMulEval(a: Expr, b: Expr, env: Env)
    ensures Eval(FoldMul(a, b), env) == Eval(a, env) * Eval(b, env)
  {}

  lemma {:induction false} AsSumValue(r: IterExpr, env: Env)
    ensures IterValue(r, env) == SplitsValue(AsSum(r).args, env) + Eval(AsSum(r).base, env)
  {
    if r.SplitExpr? { SingleSplit(r.s, env); }
  }

  lemma {:induction false} AddItersSound(a: IterExpr, b: IterExpr, sign: int, inputs: seq<Input>, env: Env)
    requires (sign == 1 || sign == -1) && IterOk(a, inputs) && IterOk(b, inputs)
    ensures IterOk(AddIters(a, b, sign), inputs)
    ensures IterValue(AddIters(a, b, sign), env) == IterValue(a, env) + sign * IterValue(b, env)
  {
    var lhs := AsSum(a);
    AsSumValue(a, env);
    assert SplitsOk(lhs.args, inputs);
    match b
    case Plain(e) =>
      FoldedEval(lhs.base, e, env);
    case SplitExpr(s) =>
      AddSplitSound(lhs.args, s, sign, 0, inputs);
      assert SplitsValue(AddSplit(lhs.args, s, sign, 0), env) == SplitsValue(lhs.args, env) + sign * SplitValue(s, env);
    case SumExpr(args, base) =>
      AddSplitsSound(lhs.args, args, sign, inputs);
      assert SplitsValue(AddSplits(lhs.args, args, sign), env) ==
             SplitsValue(lhs.args, env) + sign * SplitsValue(args, env);
      FoldedEval(lhs.base, base, env);
      Distribute(SplitsValue(args, env), Eval(base, env), sign);
  }

  lemma {:induction false} MulIterSound(a: IterExpr, c: int, inputs: seq<Input>, env: Env)
    requires IterOk(a, inputs)
    ensures IterOk(MulIter(a, c), inputs) && IterValue(MulIter(a, c), env) == IterValue(a, env) * c
  {
    match a
    case Plain(e) =>
      FoldMulEval(e, IntImm(c), env);
    case SplitExpr(s) =>
      assert SplitDigit(s.(scale := s.scale * c), env) == SplitDigit(s, env);
      MulAssoc(SplitDigit(s, env), s.scale, c);
    case SumExpr(args, base) =>
      ScaleAllValue(args, c, env);
      FoldMulEval(base, IntImm(c), env);
      Distribute(SplitsValue(args, env), Eval(base, env), c);
      forall i | 0 <= i < |args| ensures SplitOk(ScaleAll(args, c)[i], inputs) { assert SplitOk(args[i], inputs); }
  }

  /** The flags only ever go down, and the memo stays well-formed. */
  ghost predicate Later(memo: Memo, memo': Memo, inputs: seq<Input>) {
    MemoOk(memo', inputs) && (memo'.positive ==> memo.positive) && (memo'.coherent ==> memo.coherent)
  }

  /** r stands for the value x on this valuation, as long as the run is positive and coherent. */
  ghost predicate Means(r: IterExpr, memo: Memo, inputs: seq<Input>, env: Env, x: int) {
    memo.positive ==> IterOk(r, inputs) && (memo.coherent && InBox(inputs, env) ==> IterValue(r, env) == x)
  }

  lemma {:induction false} MeansLater(r: IterExpr, memo: Memo, memo': Memo, inputs: seq<Input>, env: Env, x: int)
    requires Means(r, memo, inputs, env, x) && Later(memo, memo', inputs)
    ensures Means(r, memo', inputs, env, x)
  {}

  lemma {:induction false} QuotientSound(s: Split, c: int, isDiv: bool, inputs: seq<Input>, env: Env)
    requires c != 0 && SplitOk(s, inputs)
    ensures SameSide(s.scale, c) && Quotient(s, c, isDiv).Some? ==>
              var r, x := Quotient(s, c, isDiv).value, SplitValue(s, env);
              IterOk(r, inputs) && IterValue(r, env) == if isDiv then FloorDiv(x, c) else FloorMod(x, c)
  {
    if SameSide(s.scale, c) && Quotient(s, c, isDiv).Some? {
      if isDiv { SplitFloorDivExact(s, c, inputs); } else { SplitFloorModExact(s, c, inputs); }
    }
  }

  lemma {:induction false} DivIterSound(a: IterExpr, c: int, memo: Memo, isDiv: bool, inputs: seq<Input>, env: Env,
      x: int)
    requires c != 0 && MemoOk(memo, inputs) && Means(a, memo, inputs, env, x)
    ensures var (r, memo') := DivIter(a, c, memo, isDiv);
            Later(memo, memo', inputs) &&
            (r.Some? ==> Means(r.value, memo', inputs, env, if isDiv then FloorDiv(x, c) else FloorMod(x, c)))
  {
    match a
    case Plain(_) =>
    case SplitExpr(s) =>
      if memo.positive { QuotientSound(s, c, isDiv, inputs, env); }
    case SumExpr(args, base) =>
      if base == IntImm(0) {
        FuseOk(args, memo, inputs);
        var (fused, memo') := Fuse(args, memo);
        if fused.Some? && memo.positive {
          QuotientSound(fused.value, c, isDiv, inputs, env);
          if InBox(inputs, env) { FuseCoherent(args, memo, inputs, env); }
        }
      }
  }

  lemma {:induction false} VisitAddSound(a: IterExpr, b: IterExpr, inputs: seq<Input>, env: Env)
    requires IterOk(a, inputs) && IterOk(b, inputs)
    ensures IterOk(VisitAdd(a, b), inputs) && IterValue(VisitAdd(a, b), env) == IterValue(a, env) + IterValue(b, env)
    ensures IterOk(VisitSub(a, b), inputs) && IterValue(VisitSub(a, b), env) == IterValue(a, env) - IterValue(b, env)
  {
    AddItersSound(a, b, 1, inputs, env);
    AddItersSound(a, b, -1, inputs, env);
  }

  lemma {:induction false} VisitMulSound(a: IterExpr, b: IterExpr, inputs: seq<Input>, env: Env)
    requires IterOk(a, inputs) && IterOk(b, inputs) && VisitMul(a, b).Some?
    ensures IterOk(VisitMul(a, b).value, inputs)
    ensures IterValue(VisitMul(a, b).value, env) == IterValue(a, env) * IterValue(b, env)
  {
    if IsLiteral(a) && IsLiteral(b) {
    } else if IsConst(a, 1) || IsConst(a, 0) || IsConst(b, 1) || IsConst(b, 0) {
    } else if a.Plain? && b.Plain? {
    } else if IsLiteral(b) {
      MulIterSound(a, b.e.value, inputs, env);
    } else {
      MulIterSound(b, a.e.value, inputs, env);
    }
  }

  lemma {:induction false} SettledSound(a: IterExpr, b: IterExpr, memo: Memo, isDiv: bool, inputs: seq<Input>, env: Env,
      x: int, y: int)
    requires DivCases(a, b, isDiv).Settled? && DivCases(a, b, isDiv).r.Some?
    requires MemoOk(memo, inputs) && Means(a, memo, inputs, env, x) && Means(b, memo, inputs, env, y)
    ensures Means(DivCases(a, b, isDiv).r.value, memo, inputs, env,
                  EvalBin(if isDiv then FloorDivOp else FloorModOp, x, y))
  {
    if IsConst(a, 0) {
      if y != 0 { TruncDivExact(0, y); }
    } else if IsConst(b, 1) {
      TruncDivExact(x, 1);
    }
  }

  lemma {:induction false} VisitDivSound(a: IterExpr, b: IterExpr, memo: Memo, isDiv: bool, inputs: seq<Input>,
      env: Env, x: int, y: int)
    requires MemoOk(memo, inputs) && Means(a, memo, inputs, env, x) && Means(b, memo, inputs, env, y)
    ensures var (r, memo') := VisitDiv(a, b, memo, isDiv);
            Later(memo, memo', inputs) &&
            (r.Some? ==> Means(r.value, memo', inputs, env, EvalBin(if isDiv then FloorDivOp else FloorModOp, x, y)))
  {
    match DivCases(a, b, isDiv)
    case DivideIter(c) =>
      DivIterSound(a, c, memo, isDiv, inputs, env, x);
    case Settled(r) =>
      if r.Some? { SettledSound(a, b, memo, isDiv, inputs, env, x, y); }
  }

  /** Each visitor computes its operator on the values of its operands. */
  lemma {:induction false} CombinedObserved(op: BinOp, a: IterExpr, b: IterExpr, memo: Memo, inputs: seq<Input>,
      env: Env, x: int, y: int)
    requires MemoOk(memo, inputs) && Means(a, memo, inputs, env, x) && Means(b, memo, inputs, env, y)
    ensures var (r, memo') := Combined(op, a, b, memo);
            Later(memo, memo', inputs) && (r.Some? ==> Means(r.value, memo', inputs, env, EvalBin(op, x, y)))
  {
    match op
    case Add => if memo.positive { VisitAddSound(a, b, inputs, env); }
    case Sub => if memo.positive { VisitAddSound(a, b, inputs, env); }
    case Mul => if memo.positive && VisitMul(a, b).Some? { VisitMulSound(a, b, inputs, env); }
    case FloorDivOp => VisitDivSound(a, b, memo, true, inputs, env, x, y);
    case FloorModOp => VisitDivSound(a, b, memo, false, inputs, env, x, y);
    case _ =>
  }

  ghost predicate InputsOk(inputs: seq<Input>) {
    forall i :: 0 <= i < |inputs| ==> inputs[i].extent > 0
  }

  lemma {:induction false} VarMapSound(all: seq<Input>, inputs: seq<Input>, v: nat)
    requires InputsOk(inputs) && v in VarMap(inputs)
    requires forall i :: 0 <= i < |inputs| ==> inputs[i] in all
    ensures IterOk(VarMap(inputs)[v], all)
    ensures forall env: Env :: InBox(all, env) ==> IterValue(VarMap(inputs)[v], env) == Get(env, v)
  {
    var n := |inputs| - 1;
    if inputs[n].v == v {
      assert inputs[n] in all;
      InputOk(inputs[n], all);
      forall env: Env | InBox(all, env) ensures IterValue(VarMap(inputs)[v], env) == Get(env, v) {
        InputValue(inputs[n], all, env);
      }
    } else {
      VarMapSound(all, inputs[..n], v);
    }
  }

  function InputIter(x: Input): IterExpr {
    var s := FullSplit(InputMark(x.v, x.min, x.extent), 1);
    if x.min == 0 then SplitExpr(s) else SumExpr([s], IntImm(x.min))
  }

  lemma {:induction false} InputOk(x: Input, all: seq<Input>)
    requires x in all && x.extent > 0
    ensures IterOk(InputIter(x), all)
  {
    var s := FullSplit(InputMark(x.v, x.min, x.extent), 1);
    assert SplitOk(s, all);
    assert [s][0] == s;
  }

  lemma {:induction false} InputValue(x: Input, all: seq<Input>, env: Env)
    requires x in all && x.extent > 0 && InBox(all, env)
    ensures IterValue(InputIter(x), env) == Get(env, x.v)
  {
    var s := FullSplit(InputMark(x.v, x.min, x.extent), 1);
    assert SplitOk(s, all);
    FullSplitValue(s, all, env);
    SingleSplit(s, env);
  }

  lemma {:induction false} SingleSplit(s: Split, env: Env)
    ensures SplitsValue([s], env) == SplitValue(s, env)
  {
    assert [s][0] == s && [s][1..] == [];
  }

  lemma {:induction false} OperandsObserved(op: BinOp, a: IterExpr, b: IterExpr, m0: Memo, m1: Memo, m2: Memo,
      inputs: seq<Input>, env: Env, x: int, y: int)
    requires Later(m0, m1, inputs) && Later(m1, m2, inputs)
    requires Means(a, m1, inputs, env, x) && Means(b, m2, inputs, env, y)
    ensures var (r, memo') := Combined(op, a, b, m2);
            Later(m0, memo', inputs) && (r.Some? ==> Means(r.value, memo', inputs, env, EvalBin(op, x, y)))
  {
    MeansLater(a, m1, m2, inputs, env, x);
    CombinedObserved(op, a, b, m2, inputs, env, x, y);
  }

  /** Rewriting keeps the value of every expression on the iteration box, as long as no memo hit
      brought a different scale and no division changed the side. */
  lemma {:induction false} MutateObserved(e: Expr, inputs: seq<Input>, memo: Memo, env: Env)
    requires InputsOk(inputs) && MemoOk(memo, inputs)
    ensures var (r, memo') := Mutate(e, VarMap(inputs), memo);
            Later(memo, memo', inputs) && (r.Some? ==> Means(r.value, memo', inputs, env, Eval(e, env)))
    decreases e, 1
  {
    match e
    case Var(v) =>
      if v in VarMap(inputs) { VarMapSound(inputs, inputs, v); }
    case IntImm(_) =>
    case Bin(op, a, b) =>
      MutateBinObserved(e, inputs, memo, env);
    case Not(a) =>
      MutateObserved(a, inputs, memo, env);
    case Select(c, t, f) =>
      MutateSelectObserved(e, inputs, memo, env);
  }

  lemma {:induction false} MutateBinObserved(e: Expr, inputs: seq<Input>, memo: Memo, env: Env)
    requires InputsOk(inputs) && MemoOk(memo, inputs) && e.Bin?
    ensures var (r, memo') := Mutate(e, VarMap(inputs), memo);
            Later(memo, memo', inputs) && (r.Some? ==> Means(r.value, memo', inputs, env, Eval(e, env)))
    decreases e, 0
  {
    MutateObserved(e.a, inputs, memo, env);
    var (ra, m1) := Mutate(e.a, VarMap(inputs), memo);
    if ra.Some? {
      MutateObserved(e.b, inputs, m1, env);
      var (rb, m2) := Mutate(e.b, VarMap(inputs), m1);
      if rb.Some? {
        OperandsObserved(e.op, ra.value, rb.value, memo, m1, m2, inputs, env, Eval(e.a, env), Eval(e.b, env));
      }
    }
  }

  lemma {:induction false} MutateSelectObserved(e: Expr, inputs: seq<Input>, memo: Memo, env: Env)
    requires InputsOk(inputs) && MemoOk(memo, inputs) && e.Select?
    ensures var (r, memo') := Mutate(e, VarMap(inputs), memo);
            Later(memo, memo', inputs) && (r.Some? ==> Means(r.value, memo', inputs, env, Eval(e, env)))
    decreases e, 0
  {
    MutateObserved(e.cond, inputs, memo, env);
    var (rc, m1) := Mutate(e.cond, VarMap(inputs), memo);
    MutateObserved(e.onTrue, inputs, m1, env);
    var (rt, m2) := Mutate(e.onTrue, VarMap(inputs), m1);
    MutateObserved(e.onFalse, inputs, m2, env);
  }

  function SumValue(s: IterSum, env: Env): int { SplitsValue(s.args, env) + Eval(s.base, env) }

  /** Rewrite yields at most one split, with the value of the expression. */
  lemma {:induction false} RewriteObserved(e: Expr, inputs: seq<Input>, memo: Memo, env: Env)
    requires InputsOk(inputs) && MemoOk(memo, inputs)
    ensures var (r, memo') := Rewrite(e, VarMap(inputs), memo);
            Later(memo, memo', inputs) &&
            (r.Some? ==> |r.value.args| <= 1) &&
            (r.Some? && memo'.positive ==>
              SplitsOk(r.value.args, inputs) &&
              (memo'.coherent && InBox(inputs, env) ==> SumValue(r.value, env) == Eval(e, env)))
  {
    MutateObserved(e, inputs, memo, env);
    var (r, m1) := Mutate(e, VarMap(inputs), memo);
    if r.Some? { NormalizedObserved(r.value, inputs, m1, env, Eval(e, env)); }
  }

  lemma {:induction false} NormalizedObserved(r: IterExpr, inputs: seq<Input>, memo: Memo, env: Env, x: int)
    requires MemoOk(memo, inputs) && Means(r, memo, inputs, env, x)
    ensures var (s, memo') := Normalized(AsSum(r), memo);
            Later(memo, memo', inputs) &&
            (s.Some? ==> |s.value.args| <= 1) &&
            (s.Some? && memo'.positive ==>
              SplitsOk(s.value.args, inputs) &&
              (memo'.coherent && InBox(inputs, env) ==> SumValue(s.value, env) == x))
  {
    var sum := AsSum(r);
    AsSumValue(r, env);
    if |sum.args| > 1 {
      FuseOk(sum.args, memo, inputs);
      var (fused, m2) := Fuse(sum.args, memo);
      if fused.Some? && m2.positive {
        SingleSplit(fused.value, env);
        if InBox(inputs, env) { FuseCoherent(sum.args, memo, inputs, env); }
      }
    }
  }
}
