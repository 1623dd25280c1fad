/** Detection accepts a flattened index and its digits (DetectIterMap in src/arith/iter_affine_map.cc):
    the iterators as a mixed-radix number, on its own or taken apart again in any way. */
module IterMapFlat {
  import opened IntOperator
  import opened PrimExprs
  import opened Wrappers
  import opened MixedRadix
  import opened IterMap
  import opened IterMapBijection
  import opened IterMapDetect
  import opened IterMapAccept
  import opened IterMapCheck
  import opened IterMapDigits

  /** Iterator i times its scale. */
  function Term(inputs: seq<Input>, scales: seq<int>, i: nat): Expr
    requires i < |inputs| == |scales|
  {
    Bin(Mul, FromZero(inputs[i]), IntImm(scales[i]))
  }

  /** The sum of the first n terms. */
  function Flat(inputs: seq<Input>, scales: seq<int>, n: nat): Expr
    requires 0 < n <= |inputs| == |scales|
  {
    if n == 1 then Term(inputs, scales, 0) else Bin(Add, Flat(inputs, scales, n - 1), Term(inputs, scales, n - 1))
  }

  function ExtentsOf(inputs: seq<Input>): (r: seq<int>)
    ensures |r| == |inputs| && forall i :: 0 <= i < |inputs| ==> r[i] == inputs[i].extent
  {
    seq(|inputs|, i requires 0 <= i < |inputs| => inputs[i].extent)
  }

  /** Two or more iterators of two or more values each, outermost first. */
  ghost predicate Flattens(inputs: seq<Input>, scales: seq<int>, total: int) {
    && |inputs| > 1 && DistinctInputs(inputs) && (forall i :: 0 <= i < |inputs| ==> inputs[i].extent > 1)
    && Radix(scales, ExtentsOf(inputs), total)
  }

  function ArgsOf(inputs: seq<Input>, scales: seq<int>, n: nat): (r: seq<Split>)
    requires n <= |inputs| == |scales|
    ensures |r| == n && forall i :: 0 <= i < n ==> r[i] == FullSplit(MarkOf(inputs[i]), scales[i])
  {
    seq(n, i requires 0 <= i < n => FullSplit(MarkOf(inputs[i]), scales[i]))
  }

  // ----- rewriting the sum ----------------------------------------------------------------------

  lemma {:induction false} TermRewrites(inputs: seq<Input>, scales: seq<int>, i: nat, memo: Memo)
    requires i < |inputs| == |scales| && DistinctInputs(inputs) && scales[i] != 0
    ensures var (r, memo') := Mutate(Term(inputs, scales, i), VarMap(inputs), memo);
            memo' == memo && r.Some? && IsOne(r.value, FullSplit(MarkOf(inputs[i]), scales[i]))
  {
    var vars, c := VarMap(inputs), scales[i];
    FromZeroRewrites(inputs, i, memo);
    var a := Mutate(FromZero(inputs[i]), vars, memo).0.value;
    assert Mutate(IntImm(c), vars, memo) == (Some(Plain(IntImm(c))), memo);
    assert Mutate(Term(inputs, scales, i), vars, memo) == (VisitMul(a, Plain(IntImm(c))), memo);
    if c != 1 { assert a.SumExpr? ==> ScaleAll(a.args, c) == [FullSplit(MarkOf(inputs[i]), c)]; }
  }

  /** Adding a split of another mark appends it. */
  lemma {:induction false} Appended(args: seq<Split>, s: Split, i: nat)
    requires i <= |args| && forall k :: 0 <= k < |args| ==> args[k].source != s.source
    ensures AddSplit(args, s, 1, i) == args + [s]
    decreases |args| - i
  {
    if i < |args| { Appended(args, s, i + 1); }
  }

  lemma {:induction false} OneAdded(a: IterExpr, args: seq<Split>, t: IterExpr, s: Split)
    requires |args| > 0 && (a == SumExpr(args, IntImm(0)) || (a.SplitExpr? && args == [a.s])) && IsOne(t, s)
    requires forall k :: 0 <= k < |args| ==> args[k].source != s.source
    ensures VisitAdd(a, t) == SumExpr(args + [s], IntImm(0))
  {
    Appended(args, s, 0);
    if t.SumExpr? {
      var more := [s];
      assert more[1..] == [];
      assert AddSplits(args, more, 1) == AddSplits(args + [s], more[1..], 1) == args + [s];
    }
  }

  lemma {:induction false} FlatRewrites(inputs: seq<Input>, scales: seq<int>, n: nat, memo: Memo)
    requires 0 < n <= |inputs| == |scales| && DistinctInputs(inputs) && forall i :: 0 <= i < |scales| ==> scales[i] != 0
    ensures var (r, memo') := Mutate(Flat(inputs, scales, n), VarMap(inputs), memo);
            && memo' == memo && r.Some?
            && (n == 1 ==> IsOne(r.value, ArgsOf(inputs, scales, 1)[0]))
            && (n > 1 ==> r.value == SumExpr(ArgsOf(inputs, scales, n), IntImm(0)))
  {
    TermRewrites(inputs, scales, n - 1, memo);
    if n > 1 {
      FlatRewrites(inputs, scales, n - 1, memo);
      var vars := VarMap(inputs);
      var a := Mutate(Flat(inputs, scales, n - 1), vars, memo).0.value;
      var t := Mutate(Term(inputs, scales, n - 1), vars, memo).0.value;
      FlatAdded(inputs, scales, n, a, t);
      assert Mutate(Flat(inputs, scales, n), vars, memo) == (Some(VisitAdd(a, t)), memo);
    }
  }

  lemma {:induction false} FlatAdded(inputs: seq<Input>, scales: seq<int>, n: nat, a: IterExpr, t: IterExpr)
    requires 1 < n <= |inputs| == |scales| && DistinctInputs(inputs)
    requires if n == 2 then IsOne(a, ArgsOf(inputs, scales, 1)[0])
             else a == SumExpr(ArgsOf(inputs, scales, n - 1), IntImm(0))
    requires IsOne(t, FullSplit(MarkOf(inputs[n - 1]), scales[n - 1]))
    ensures VisitAdd(a, t) == SumExpr(ArgsOf(inputs, scales, n), IntImm(0))
  {
    var args, s := ArgsOf(inputs, scales, n - 1), FullSplit(MarkOf(inputs[n - 1]), scales[n - 1]);
    if n == 2 { assert args == [ArgsOf(inputs, scales, 1)[0]]; }
    OneAdded(a, args, t, s);
    assert ArgsOf(inputs, scales, n) == args + [s];
  }

  // ----- fusing it --------------------------------------------------------------------------------

  function Downward(n: nat): (r: seq<nat>)
    ensures |r| == n && forall i :: 0 <= i < n ==> r[i] == n - 1 - i
  {
    seq(n, i requires 0 <= i < n => n - 1 - i)
  }

  lemma {:induction false} DownwardEnumerates(n: nat)
    ensures Enumerates(Downward(n), AllUnused(n))
  {
    forall j | 0 <= j < n ensures j in Downward(n) { assert Downward(n)[n - 1 - j] == j; }
  }

  ghost predicate SameSplits(form: seq<Split>, args: seq<Split>) {
    |form| == |args| && (forall i :: 0 <= i < |form| ==> form[i] in args) &&
    forall j :: 0 <= j < |args| ==> args[j] in form
  }

  lemma {:induction false} FlatChain(inputs: seq<Input>, scales: seq<int>, total: int)
    requires Flattens(inputs, scales, total)
    ensures var args := ArgsOf(inputs, scales, |inputs|);
            var keys, exts, used := Scales(args), Extents(args), AllUnused(|args|);
            && keys == scales && exts == ExtentsOf(inputs) && AllPositive(exts) && UnitsFirst(keys, exts, used)
            && Enumerates(Downward(|args|), used)
            && IsChain(keys, exts, Downward(|args|), 1) && ChainTotal(exts, Downward(|args|), 1) == total
  {
    var args, n := ArgsOf(inputs, scales, |inputs|), |inputs|;
    var keys, exts := Scales(args), Extents(args);
    assert keys == scales && exts == ExtentsOf(inputs);
    DownwardEnumerates(n);
    RadixChain(keys, exts, Downward(n), scales, exts, total, 0);
    assert Downward(n)[0..] == Downward(n);
  }

  /** The base scale of a mixed-radix sum is 1. */
  lemma {:induction false} FlatBase(inputs: seq<Input>, scales: seq<int>, total: int)
    requires Flattens(inputs, scales, total)
    ensures var args := ArgsOf(inputs, scales, |inputs|);
            var i := SmallestScale(args, 0, 0);
            args[i].scale == 1 && forall k :: 0 <= k < i ==> args[k].scale != 1
  {
    var args, n := ArgsOf(inputs, scales, |inputs|), |inputs|;
    SmallestFirst(args, 0, 0);
    var i := SmallestScale(args, 0, 0);
    WeightsPositive(scales, ExtentsOf(inputs), total, i);
    assert args[n - 1].scale == 1 && args[i].scale == scales[i];
  }

  /** The sum fuses into a mark whose splits are its terms. */
  lemma {:induction false} FlatFuses(inputs: seq<Input>, scales: seq<int>, total: int)
    requires Flattens(inputs, scales, total)
    ensures var args := ArgsOf(inputs, scales, |inputs|);
            var k := FuseKey(args);
            k.Some? && k.value.base == 1 && k.value.extent == total && SameSplits(k.value.form, args)
  {
    var args := ArgsOf(inputs, scales, |inputs|);
    var keys, exts, used := Scales(args), Extents(args), AllUnused(|args|);
    var i := SmallestScale(args, 0, 0);
    FlatChain(inputs, scales, total);
    FlatBase(inputs, scales, total);
    PickFinds(keys, exts, used, 1, Downward(|args|));
    SearchFromBase(keys, exts, used, 1, |args|, i);
    AllUnusedCount(|args|);
    PickFound(keys, exts, used, 1, |args|);
    var p := PickChain(keys, exts, used, 1, |args|, 0).value;
    EnumeratesCount(p.order, used);
    TruncDivExact(total, 1);
    UnscaledForm(args, p.order);
  }

  lemma {:induction false} UnscaledForm(args: seq<Split>, order: seq<nat>)
    requires Enumerates(order, AllUnused(|args|)) && |order| == |args|
    ensures SameSplits(Canonical(args, order, 1), args)
  {
    var form, n := Canonical(args, order, 1), |args|;
    forall i | 0 <= i < n ensures form[i] == args[order[n - 1 - i]] {
      CanonicalAt(args, order, 1, i);
      TruncDivExact(args[order[n - 1 - i]].scale, 1);
    }
    forall j | 0 <= j < n ensures args[j] in form {
      assert !AllUnused(n)[j];
      var k :| 0 <= k < n && order[k] == j;
      assert form[n - 1 - k] == args[j];
    }
  }

  /** The fused mark of the sum. */
  function FlatMark(inputs: seq<Input>, scales: seq<int>, total: int): Mark
    requires |inputs| == |scales|
  {
    var k := FuseKey(ArgsOf(inputs, scales, |inputs|));
    FusedMark(if k.Some? then k.value.form else [], total)
  }

  function FlatMemo(inputs: seq<Input>, scales: seq<int>, total: int): Memo
    requires |inputs| == |scales|
  {
    var m := FlatMark(inputs, scales, total);
    NoMemo.(fused := map[m.args := FullSplit(m, 1)])
  }

  /** The memo is empty or has the fused sum. */
  predicate FlatMemos(inputs: seq<Input>, scales: seq<int>, total: int, memo: Memo)
    requires |inputs| == |scales|
  {
    memo == NoMemo || memo == FlatMemo(inputs, scales, total)
  }

  lemma {:induction false} FlatFused(inputs: seq<Input>, scales: seq<int>, total: int, memo: Memo)
    requires Flattens(inputs, scales, total) && FlatMemos(inputs, scales, total, memo)
    ensures Fuse(ArgsOf(inputs, scales, |inputs|), memo) ==
            (Some(FullSplit(FlatMark(inputs, scales, total), 1)), FlatMemo(inputs, scales, total))
  {
    FlatFuses(inputs, scales, total);
    var k := FuseKey(ArgsOf(inputs, scales, |inputs|)).value;
    var m := FlatMark(inputs, scales, total);
    assert m == FusedMark(k.form, k.extent) && FusedSplit(k) == FullSplit(m, 1);
    if memo == NoMemo {
      assert memo.fused[k.form := FusedSplit(k)] == FlatMemo(inputs, scales, total).fused;
    }
  }

  // ----- the flattened index, and its digits -------------------------------------------------------

  lemma {:induction false} ScalesNonZero(inputs: seq<Input>, scales: seq<int>, total: int)
    requires Flattens(inputs, scales, total)
    ensures forall i :: 0 <= i < |scales| ==> scales[i] != 0
  {
    forall i | 0 <= i < |scales| ensures scales[i] != 0 { WeightsPositive(scales, ExtentsOf(inputs), total, i); }
  }

  /** On its own the sum is rewritten to the fused mark. */
  lemma {:induction false} FlatRewritten(inputs: seq<Input>, scales: seq<int>, total: int, memo: Memo)
    requires Flattens(inputs, scales, total) && FlatMemos(inputs, scales, total, memo)
    ensures Rewrite(Flat(inputs, scales, |inputs|), VarMap(inputs), memo) ==
            (Some(IterSum([FullSplit(FlatMark(inputs, scales, total), 1)], IntImm(0))), FlatMemo(inputs, scales, total))
  {
    ScalesNonZero(inputs, scales, total);
    FlatRewrites(inputs, scales, |inputs|, memo);
    FlatFused(inputs, scales, total, memo);
  }

  /** Divided, it is fused first. */
  lemma {:induction false} FlatDivided(inputs: seq<Input>, scales: seq<int>, total: int, c: int, memo: Memo,
      isDiv: bool)
    requires Flattens(inputs, scales, total) && FlatMemos(inputs, scales, total, memo) && c > 1 && Divides(c, total)
    ensures VisitDiv(SumExpr(ArgsOf(inputs, scales, |inputs|), IntImm(0)), Plain(IntImm(c)), memo, isDiv) ==
            (Quotient(FullSplit(FlatMark(inputs, scales, total), 1), c, isDiv), FlatMemo(inputs, scales, total))
  {
    FlatFused(inputs, scales, total, memo);
    var memo' := FlatMemo(inputs, scales, total);
    assert Observe(memo', 1, c) == memo';
  }

  /** A digit of the sum is a split of the fused mark. */
  lemma {:induction false} FlatDigit(inputs: seq<Input>, scales: seq<int>, total: int, w: int, e: int, memo: Memo)
    requires Flattens(inputs, scales, total) && FlatMemos(inputs, scales, total, memo)
    requires w > 0 && e > 1 && Divides(w * e, total)
    ensures Mutate(DigitIndex(Flat(inputs, scales, |inputs|), w, e), VarMap(inputs), memo) ==
            (Some(SplitExpr(Split(FlatMark(inputs, scales, total), w, e, 1))), FlatMemo(inputs, scales, total))
  {
    var m, memo' := FlatMark(inputs, scales, total), FlatMemo(inputs, scales, total);
    ExtentFactors(w, e, total);
    if w == 1 {
      FlatLowest(inputs, scales, total, e, memo);
    } else {
      FlatQuotient(inputs, scales, total, w, memo);
      var s' := Split(m, w, FloorDiv(total, w), 1);
      OneDivided(SplitExpr(s'), s', e, memo', false);
      UnitQuotients(s', e);
    }
  }

  lemma {:induction false} FlatLowest(inputs: seq<Input>, scales: seq<int>, total: int, e: int, memo: Memo)
    requires Flattens(inputs, scales, total) && FlatMemos(inputs, scales, total, memo)
    requires e > 1 && Divides(e, total)
    ensures Mutate(DigitIndex(Flat(inputs, scales, |inputs|), 1, e), VarMap(inputs), memo) ==
            (Some(SplitExpr(Split(FlatMark(inputs, scales, total), 1, e, 1))), FlatMemo(inputs, scales, total))
  {
    var r := SumExpr(ArgsOf(inputs, scales, |inputs|), IntImm(0));
    ScalesNonZero(inputs, scales, total);
    FlatRewrites(inputs, scales, |inputs|, memo);
    RemainderZero(total, 1);
    assert Mutate(Bin(FloorDivOp, Flat(inputs, scales, |inputs|), IntImm(1)), VarMap(inputs), memo) == (Some(r), memo);
    FlatDivided(inputs, scales, total, e, memo, false);
    UnitQuotients(FullSplit(FlatMark(inputs, scales, total), 1), e);
  }

  lemma {:induction false} FlatQuotient(inputs: seq<Input>, scales: seq<int>, total: int, w: int, memo: Memo)
    requires Flattens(inputs, scales, total) && FlatMemos(inputs, scales, total, memo)
    requires w > 1 && Divides(w, total)
    ensures Mutate(Bin(FloorDivOp, Flat(inputs, scales, |inputs|), IntImm(w)), VarMap(inputs), memo) ==
            (Some(SplitExpr(Split(FlatMark(inputs, scales, total), w, FloorDiv(total, w), 1))),
             FlatMemo(inputs, scales, total))
  {
    var m := FlatMark(inputs, scales, total);
    ScalesNonZero(inputs, scales, total);
    FlatRewrites(inputs, scales, |inputs|, memo);
    FlatDivided(inputs, scales, total, w, memo, true);
    UnitQuotients(FullSplit(m, 1), w);
  }

  // ----- the check ----------------------------------------------------------------------------------

  /** The tuple of digits of the sum. */
  ghost predicate FlatTuple(inputs: seq<Input>, scales: seq<int>, total: int, ds: seq<DigitOf>, cover: seq<nat>) {
    Flattens(inputs, scales, total) && DigitTuple(ds, [FlatMark(inputs, scales, total)], [cover])
  }

  /** The splits of the fused mark are the iterators, each once and whole. */
  lemma {:induction false} FlatArg(inputs: seq<Input>, scales: seq<int>, total: int, i: nat) returns (j: nat)
    requires Flattens(inputs, scales, total) && i < |FlatMark(inputs, scales, total).args|
    ensures j < |inputs| && FlatMark(inputs, scales, total).args[i] == FullSplit(MarkOf(inputs[j]), scales[j])
  {
    FlatFuses(inputs, scales, total);
    var args := ArgsOf(inputs, scales, |inputs|);
    assert FlatMark(inputs, scales, total).args[i] in args;
    j :| 0 <= j < |args| && args[j] == FlatMark(inputs, scales, total).args[i];
  }

  lemma {:induction false} FlatPlace(inputs: seq<Input>, scales: seq<int>, total: int, j: nat) returns (i: nat)
    requires Flattens(inputs, scales, total) && j < |inputs|
    ensures var m := FlatMark(inputs, scales, total);
            i < |m.args| && m.args[i] == FullSplit(MarkOf(inputs[j]), scales[j])
    ensures var args := FlatMark(inputs, scales, total).args;
            forall k :: 0 <= k < |args| && args[k].source == MarkOf(inputs[j]) ==> k == i
  {
    FlatFuses(inputs, scales, total);
    var m, args := FlatMark(inputs, scales, total), ArgsOf(inputs, scales, |inputs|);
    assert args[j] in m.args;
    i :| 0 <= i < |m.args| && m.args[i] == args[j];
    forall k | 0 <= k < |m.args| && m.args[k].source == MarkOf(inputs[j]) ensures k == i {
      SourceOnce(m.args, args, inputs, i, k);
    }
  }

  /** As many splits as there are marks, and every mark has one: no mark has two. */
  lemma {:induction false} SourceOnce(form: seq<Split>, args: seq<Split>, inputs: seq<Input>, i: nat, k: nat)
    requires SameSplits(form, args) && |args| == |inputs| && DistinctInputs(inputs)
    requires forall j :: 0 <= j < |args| ==> args[j].source == MarkOf(inputs[j])
    requires i < |form| && k < |form| && form[i].source == form[k].source
    ensures i == k
  {
    if i != k {
      var rest := form[..k] + form[k + 1..];
      var wanted, have := set j | 0 <= j < |args| :: args[j].source, set j | 0 <= j < |rest| :: rest[j].source;
      forall m | m in wanted ensures m in have {
        var j :| 0 <= j < |args| && args[j].source == m;
        var t :| 0 <= t < |form| && form[t] == args[j];
        var t' := if t == k then i else t;
        assert rest[if t' < k then t' else t' - 1].source == m;
      }
      AtMost(rest, |rest|);
      AsMany(args, inputs, |args|);
      FewerOrSame(wanted, have);
      assert false;
    }
  }

  lemma {:induction false} FewerOrSame<T>(a: set<T>, b: set<T>)
    requires a <= b
    ensures |a| <= |b|
  {
    assert b == a + (b - a);
  }

  lemma {:induction false} AtMost(args: seq<Split>, n: nat)
    requires n <= |args|
    ensures |set j | 0 <= j < n :: args[j].source| <= n
  {
    var all := set j | 0 <= j < n :: args[j].source;
    if n > 0 {
      AtMost(args, n - 1);
      var fewer := set j | 0 <= j < n - 1 :: args[j].source;
      assert all == fewer + {args[n - 1].source};
    }
  }

  lemma {:induction false} AsMany(args: seq<Split>, inputs: seq<Input>, n: nat)
    requires n <= |args| == |inputs| && DistinctInputs(inputs)
    requires forall j :: 0 <= j < |args| ==> args[j].source == MarkOf(inputs[j])
    ensures |set j | 0 <= j < n :: args[j].source| == n
  {
    var all := set j | 0 <= j < n :: args[j].source;
    if n > 0 {
      AsMany(args, inputs, n - 1);
      var fewer := set j | 0 <= j < n - 1 :: args[j].source;
      assert all == fewer + {args[n - 1].source};
      assert args[n - 1].source !in fewer;
    }
  }

  /** The uses: the digits of the sum for the fused mark, and one argument of it for each iterator. */
  ghost predicate FlatUses(inputs: seq<Input>, scales: seq<int>, total: int, cover: seq<nat>,
      uses: map<Mark, seq<Slot>>)
    requires |inputs| == |scales|
  {
    var m := FlatMark(inputs, scales, total);
    && m in uses && uses[m] == TopSlots(cover)
    && forall j :: 0 <= j < |inputs| ==>
         MarkOf(inputs[j]) in uses && OneArg(m, MarkOf(inputs[j]), uses[MarkOf(inputs[j])])
  }

  /** The one argument of the fused mark with this source. */
  predicate OneArg(m: Mark, source: Mark, slots: seq<Slot>) {
    && m.FusedMark? && |slots| == 1 && slots[0].Arg? && slots[0].m == m && slots[0].i < |m.args|
    && m.args[slots[0].i].source == source
  }

  lemma {:induction false} MakeUses(inputs: seq<Input>, scales: seq<int>, total: int, cover: seq<nat>, n: nat)
    returns (uses: map<Mark, seq<Slot>>)
    requires Flattens(inputs, scales, total) && n <= |inputs|
    ensures var m := FlatMark(inputs, scales, total);
            && m in uses && uses[m] == TopSlots(cover)
            && forall j :: 0 <= j < n ==>
                 MarkOf(inputs[j]) in uses && OneArg(m, MarkOf(inputs[j]), uses[MarkOf(inputs[j])])
  {
    var m := FlatMark(inputs, scales, total);
    if n == 0 {
      uses := map[m := TopSlots(cover)];
    } else {
      var rest := MakeUses(inputs, scales, total, cover, n - 1);
      var i := FlatPlace(inputs, scales, total, n - 1);
      uses := rest[MarkOf(inputs[n - 1]) := [Arg(m, i)]];
    }
  }

  ghost function FlatVis(inputs: seq<Input>, scales: seq<int>, total: int): set<Mark>
    requires |inputs| == |scales|
  {
    {FlatMark(inputs, scales, total)} + MarkSet(MarksOf(inputs))
  }

  lemma {:induction false} FlatMarkOk(inputs: seq<Input>, scales: seq<int>, total: int)
    requires Flattens(inputs, scales, total)
    ensures MarkOk(FlatMark(inputs, scales, total), inputs) && FlatMark(inputs, scales, total).extent == total > 1
  {
    var args := ArgsOf(inputs, scales, |inputs|);
    forall i | 0 <= i < |args| ensures SplitOk(args[i], inputs) { assert inputs[i] in inputs; }
    FlatFused(inputs, scales, total, NoMemo);
    FuseOk(args, NoMemo, inputs);
    WeightsPositive(scales, ExtentsOf(inputs), total, 0);
    MulLe(1, scales[0], inputs[0].extent);
  }

  lemma {:induction false} IteratorCovered(inputs: seq<Input>, scales: seq<int>, total: int, cover: seq<nat>,
      uses: map<Mark, seq<Slot>>, j: nat, sums: seq<IterSum>, vis: set<Mark>)
    requires Flattens(inputs, scales, total) && FlatUses(inputs, scales, total, cover, uses) && j < |inputs|
    requires FlatMark(inputs, scales, total) in vis
    ensures var x := MarkOf(inputs[j]); MarkOk(x, inputs) && Covers(uses[x], x, sums, vis)
  {
    var x := MarkOf(inputs[j]);
    InputMarkOk(inputs, MarksOf(inputs)[j]);
    var slots := uses[x];
    var i := FlatPlace(inputs, scales, total, j);
    assert slots[0].i == i;
    var ss := ResolveAll(slots, sums);
    assert ss == [FullSplit(x, scales[j])];
    assert LowerFactors(ss) == [1] && Extents(ss) == [x.extent];
  }

  lemma {:induction false} FlatSlotUsed(inputs: seq<Input>, scales: seq<int>, total: int, ds: seq<DigitOf>,
      cover: seq<nat>, uses: map<Mark, seq<Slot>>, slot: Slot)
    requires FlatTuple(inputs, scales, total, ds, cover) && FlatUses(inputs, scales, total, cover, uses)
    requires SlotIn(slot, SumsOf(ds, [FlatMark(inputs, scales, total)]), FlatVis(inputs, scales, total))
    ensures var s := Resolve(slot, SumsOf(ds, [FlatMark(inputs, scales, total)]));
            && s.source in FlatVis(inputs, scales, total) && s.lowerFactor > 0 && s.extent > 1
            && s.source in uses && slot in uses[s.source]
  {
    var m := FlatMark(inputs, scales, total);
    match slot
    case Top(k) =>
      DigitDivides(ds, [m], [cover], k);
      TopCovers(ds, [m], [cover], 0, {});
    case Arg(x, i) =>
      if x != m { InputMarkOk(inputs, x); }
      var j := FlatArg(inputs, scales, total, i);
      assert MarksOf(inputs)[j] in MarksOf(inputs);
      var place := FlatPlace(inputs, scales, total, j);
      assert uses[MarkOf(inputs[j])][0] == slot;
  }

  lemma {:induction false} FlatMarkCovered(inputs: seq<Input>, scales: seq<int>, total: int, ds: seq<DigitOf>,
      cover: seq<nat>, uses: map<Mark, seq<Slot>>, x: Mark)
    requires FlatTuple(inputs, scales, total, ds, cover) && FlatUses(inputs, scales, total, cover, uses)
    requires x in FlatVis(inputs, scales, total)
    ensures MarkOk(x, inputs) && x in uses
    ensures Covers(uses[x], x, SumsOf(ds, [FlatMark(inputs, scales, total)]), FlatVis(inputs, scales, total))
  {
    var m, vis := FlatMark(inputs, scales, total), FlatVis(inputs, scales, total);
    if x == m {
      FlatMarkOk(inputs, scales, total);
      TopCovers(ds, [m], [cover], 0, vis);
    } else {
      var j :| 0 <= j < |inputs| && x == MarksOf(inputs)[j];
      IteratorCovered(inputs, scales, total, cover, uses, j, SumsOf(ds, [m]), vis);
    }
  }

  lemma {:induction false} FlatCertified(inputs: seq<Input>, scales: seq<int>, total: int, ds: seq<DigitOf>,
      cover: seq<nat>, uses: map<Mark, seq<Slot>>)
    requires FlatTuple(inputs, scales, total, ds, cover) && FlatUses(inputs, scales, total, cover, uses)
    ensures Certificate(SumsOf(ds, [FlatMark(inputs, scales, total)]), inputs, FlatVis(inputs, scales, total), uses)
  {
    var vis, sums := FlatVis(inputs, scales, total), SumsOf(ds, [FlatMark(inputs, scales, total)]);
    forall x | x in vis ensures MarkOk(x, inputs) && x in uses && Covers(uses[x], x, sums, vis) {
      FlatMarkCovered(inputs, scales, total, ds, cover, uses, x);
    }
    forall slot | SlotIn(slot, sums, vis)
      ensures var s := Resolve(slot, sums);
              s.source in vis && s.lowerFactor > 0 && s.extent > 0 && slot in uses[s.source]
    {
      FlatSlotUsed(inputs, scales, total, ds, cover, uses, slot);
    }
    forall i | 0 <= i < |inputs| ensures InputMark(inputs[i].v, inputs[i].min, inputs[i].extent) in vis {
      assert MarksOf(inputs)[i] in MarksOf(inputs);
    }
  }

  lemma {:induction false} FlatSumsOk(inputs: seq<Input>, scales: seq<int>, total: int, ds: seq<DigitOf>,
      cover: seq<nat>)
    requires FlatTuple(inputs, scales, total, ds, cover)
    ensures IndicesOk(SumsOf(ds, [FlatMark(inputs, scales, total)]), inputs)
  {
    var m := FlatMark(inputs, scales, total);
    FlatMarkOk(inputs, scales, total);
    forall k | 0 <= k < |ds| ensures SplitsOk(SumsOf(ds, [m])[k].args, inputs) {
      DigitDivides(ds, [m], [cover], k);
    }
  }

  lemma {:induction false} FlatNoUnits(inputs: seq<Input>, scales: seq<int>, total: int, ds: seq<DigitOf>,
      cover: seq<nat>, uses: map<Mark, seq<Slot>>, slots: seq<Slot>)
    requires FlatTuple(inputs, scales, total, ds, cover) && FlatUses(inputs, scales, total, cover, uses)
    requires SlotsIn(slots, SumsOf(ds, [FlatMark(inputs, scales, total)]), FlatVis(inputs, scales, total))
    ensures UnitUsesFirst(slots, SumsOf(ds, [FlatMark(inputs, scales, total)]))
  {
    var ss := ResolveAll(slots, SumsOf(ds, [FlatMark(inputs, scales, total)]));
    forall p | 0 <= p < |ss| ensures Extents(ss)[p] > 1 {
      FlatSlotUsed(inputs, scales, total, ds, cover, uses, slots[p]);
    }
  }

  lemma {:induction false} FlatUnitsFirst(inputs: seq<Input>, scales: seq<int>, total: int, ds: seq<DigitOf>,
      cover: seq<nat>, uses: map<Mark, seq<Slot>>, st: Collected)
    requires FlatTuple(inputs, scales, total, ds, cover) && FlatUses(inputs, scales, total, cover, uses)
    requires UsesOk(st, SumsOf(ds, [FlatMark(inputs, scales, total)])) && st.visited == FlatVis(inputs, scales, total)
    ensures forall m :: m in st.visited ==>
              UnitUsesFirst(UsesOf(st, m), SumsOf(ds, [FlatMark(inputs, scales, total)]))
  {
    forall m | m in st.visited ensures UnitUsesFirst(UsesOf(st, m), SumsOf(ds, [FlatMark(inputs, scales, total)])) {
      FlatNoUnits(inputs, scales, total, ds, cover, uses, UsesOf(st, m));
    }
  }

  lemma {:induction false} FlatChecked(inputs: seq<Input>, scales: seq<int>, total: int, ds: seq<DigitOf>,
      cover: seq<nat>)
    requires FlatTuple(inputs, scales, total, ds, cover)
    ensures CheckBijective(SumsOf(ds, [FlatMark(inputs, scales, total)]), inputs)
  {
    var sums, vis := SumsOf(ds, [FlatMark(inputs, scales, total)]), FlatVis(inputs, scales, total);
    var uses := MakeUses(inputs, scales, total, cover, |inputs|);
    FlatSumsOk(inputs, scales, total, ds, cover);
    FlatCertified(inputs, scales, total, ds, cover, uses);
    CertifiedExactly(sums, inputs, vis, uses);
    FoundOk(sums, inputs);
    FlatUnitsFirst(inputs, scales, total, ds, cover, uses, Found(sums));
    CertificateChecked(sums, inputs, vis, uses);
  }

  /** Rewriting one index after another that each leave the fused sum in the memo. */
  lemma {:induction false} RewriteOnwards(es: seq<Expr>, sums: seq<IterSum>, vars: map<nat, IterExpr>, memo: Memo,
      memo': Memo)
    requires |es| == |sums| > 0 && forall k :: 0 <= k < |es| ==> Rewrite(es[k], vars, memo') == (Some(sums[k]), memo')
    requires Rewrite(es[0], vars, memo) == (Some(sums[0]), memo')
    ensures RewriteAll(es, vars, memo) == (Some(sums), memo')
  {
    forall k | 0 <= k < |es[1..]| ensures Rewrite(es[1..][k], vars, memo') == (Some(sums[1..][k]), memo') {
      assert Rewrite(es[k + 1], vars, memo') == (Some(sums[k + 1]), memo');
    }
    RewriteEach(es[1..], sums[1..], vars, memo');
    assert sums == [sums[0]] + sums[1..];
  }

  lemma {:induction false} FlatDigitsRewritten(inputs: seq<Input>, scales: seq<int>, total: int, ds: seq<DigitOf>,
      cover: seq<nat>, memo: Memo, k: nat)
    requires FlatTuple(inputs, scales, total, ds, cover) && FlatMemos(inputs, scales, total, memo) && k < |ds|
    ensures Rewrite(DigitIndex(Flat(inputs, scales, |inputs|), ds[k].w, ds[k].e), VarMap(inputs), memo) ==
            (Some(SumsOf(ds, [FlatMark(inputs, scales, total)])[k]), FlatMemo(inputs, scales, total))
  {
    DigitDivides(ds, [FlatMark(inputs, scales, total)], [cover], k);
    FlatDigit(inputs, scales, total, ds[k].w, ds[k].e, memo);
  }

  lemma {:induction false} TupleHasDigits(ds: seq<DigitOf>, m: Mark, cover: seq<nat>)
    requires DigitTuple(ds, [m], [cover])
    ensures |ds| > 0 && forall k :: 0 <= k < |ds| ==> ds[k].i == 0
  {
    var covers, marks := [cover], [m];
    assert DigitsCover(ds, covers[0], 0, marks[0].extent);
    assert covers[0][0] < |ds|;
  }

  /** Indices that are all the digits of the flattened sum, in any order, are accepted as these digits
      of one fused iterator. */
  lemma {:induction false} FlatDigitsAccepted(inputs: seq<Input>, scales: seq<int>, total: int, ds: seq<DigitOf>,
      cover: seq<nat>)
    requires FlatTuple(inputs, scales, total, ds, cover)
    ensures Detect(IndicesOf(ds, [Flat(inputs, scales, |inputs|)]), inputs) ==
            (SumsOf(ds, [FlatMark(inputs, scales, total)]), FlatMemo(inputs, scales, total))
  {
    var memo := FlatMemo(inputs, scales, total);
    var es, sums := IndicesOf(ds, [Flat(inputs, scales, |inputs|)]), SumsOf(ds, [FlatMark(inputs, scales, total)]);
    TupleHasDigits(ds, FlatMark(inputs, scales, total), cover);
    forall k | 0 <= k < |ds| ensures Rewrite(es[k], VarMap(inputs), memo) == (Some(sums[k]), memo) {
      FlatDigitsRewritten(inputs, scales, total, ds, cover, memo, k);
    }
    FlatDigitsRewritten(inputs, scales, total, ds, cover, NoMemo, 0);
    RewriteOnwards(es, sums, VarMap(inputs), NoMemo, memo);
    FlatChecked(inputs, scales, total, ds, cover);
  }

  /** And so is the sum itself. */
  lemma {:induction false} FlatAccepted(inputs: seq<Input>, scales: seq<int>, total: int)
    requires Flattens(inputs, scales, total)
    ensures Detect([Flat(inputs, scales, |inputs|)], inputs) ==
            ([IterSum([FullSplit(FlatMark(inputs, scales, total), 1)], IntImm(0))], FlatMemo(inputs, scales, total))
  {
    var m, memo := FlatMark(inputs, scales, total), FlatMemo(inputs, scales, total);
    var ds := [DigitOf(0, 1, total)];
    FlatMarkOk(inputs, scales, total);
    assert Weights(ds, [0]) == [1] && Sizes(ds, [0]) == [total];
    assert DigitsCover(ds, [0], 0, total);
    FlatChecked(inputs, scales, total, ds, [0]);
    assert SumsOf(ds, [m]) == [IterSum([FullSplit(m, 1)], IntImm(0))];
    FlatRewritten(inputs, scales, total, NoMemo);
    FlatRewritten(inputs, scales, total, memo);
    RewriteOnwards([Flat(inputs, scales, |inputs|)], SumsOf(ds, [m]), VarMap(inputs), NoMemo, memo);
  }
}
