/** DetectIterMap (src/arith/iter_affine_map.cc): rewriting all indices and checking that they
    use every iterator completely. */
module IterMapDetect {
  import opened PrimExprs
  import opened Wrappers
  import opened MixedRadix
  import opened IterMap
  import opened IterMapBijection

  // ----- collecting the uses of every mark ---------------------------------------------------

  /** The visited marks and, per mark, the places that use it in order of discovery. */
  datatype Collected = Collected(visited: set<Mark>, uses: map<Mark, seq<Slot>>)

  function UsesOf(st: Collected, m: Mark): seq<Slot> { if m in st.uses then st.uses[m] else [] }

  function AddUse(st: Collected, m: Mark, slot: Slot): Collected {
    st.(uses := st.uses[m := UsesOf(st, m) + [slot]])
  }

  /** CollectInternal. */
  function CollectMark(m: Mark, st: Collected): Collected
    decreases m, 1
  {
    if m in st.visited then st
    else
      var st' := st.(visited := st.visited + {m});
      if m.FusedMark? then CollectArgs(m, m.args, 0, st') else st'
  }

  /** The loop over the arguments of a fused mark, from position i on. */
  function CollectArgs(m: Mark, args: seq<Split>, i: nat, st: Collected): Collected
    decreases args, 0
  {
    if |args| == 0 then st
    else
      var st1 := CollectSplit(args[0], st);
      CollectArgs(m, args[1..], i + 1, AddUse(st1, args[0].source, Arg(m, i)))
  }

  function CollectSplit(s: Split, st: Collected): Collected
    decreases s, 0
  {
    CollectMark(s.source, st)
  }

  /** Collect, from index k on. */
  function CollectIndices(indices: seq<IterSum>, k: nat, st: Collected): Collected
    requires k <= |indices|
    decreases |indices| - k
  {
    if k == |indices| then st
    else if |indices[k].args| == 1 then
      var s := indices[k].args[0];
      CollectIndices(indices, k + 1, AddUse(CollectMark(s.source, st), s.source, Top(k)))
    else CollectIndices(indices, k + 1, st)
  }

  /** Every recorded use is a place that exists and uses that mark. */
  ghost predicate UsesOk(st: Collected, indices: seq<IterSum>) {
    forall m, p :: m in st.uses && 0 <= p < |st.uses[m]| ==>
      SlotIn(st.uses[m][p], indices, st.visited) && Resolve(st.uses[m][p], indices).source == m
  }

  /** All arguments of a fused mark are recorded. */
  ghost predicate Complete(m: Mark, st: Collected) {
    m.FusedMark? ==> forall i :: 0 <= i < |m.args| ==> Recorded(m.args[i].source, Arg(m, i), st)
  }

  predicate Recorded(m: Mark, slot: Slot, st: Collected) {
    m in st.visited && m in st.uses && slot in st.uses[m]
  }

  /** Collecting only adds; what it newly visits is complete and well-formed. */
  ghost predicate Grown(st: Collected, st': Collected, inputs: seq<Input>) {
    && st.visited <= st'.visited
    && (forall m, slot :: Recorded(m, slot, st) ==> Recorded(m, slot, st'))
    && (forall m :: m in st'.visited && m !in st.visited ==> Complete(m, st') && MarkOk(m, inputs))
  }

  lemma {:induction false} GrownTrans(s0: Collected, s1: Collected, s2: Collected, inputs: seq<Input>)
    requires Grown(s0, s1, inputs) && Grown(s1, s2, inputs)
    ensures Grown(s0, s2, inputs)
  {
    forall m | m in s2.visited && m !in s0.visited ensures Complete(m, s2) && MarkOk(m, inputs) {
      if m in s1.visited {
        assert Complete(m, s1);
        if m.FusedMark? {
          forall i | 0 <= i < |m.args| ensures Recorded(m.args[i].source, Arg(m, i), s2) {
            assert Recorded(m.args[i].source, Arg(m, i), s1);
          }
        }
      }
    }
  }

  lemma {:induction false} AddUseOk(st: Collected, m: Mark, slot: Slot, indices: seq<IterSum>, inputs: seq<Input>)
    requires UsesOk(st, indices) && m in st.visited
    requires SlotIn(slot, indices, st.visited) && Resolve(slot, indices).source == m
    ensures UsesOk(AddUse(st, m, slot), indices) && Grown(st, AddUse(st, m, slot), inputs)
    ensures Recorded(m, slot, AddUse(st, m, slot))
  {
    var st' := AddUse(st, m, slot);
    assert st'.uses[m][|st'.uses[m]| - 1] == slot;
    forall x, y | Recorded(x, y, st) ensures Recorded(x, y, st') {
      var p :| 0 <= p < |st.uses[x]| && st.uses[x][p] == y;
      assert st'.uses[x][p] == y;
    }
    forall x, p | x in st'.uses && 0 <= p < |st'.uses[x]|
      ensures SlotIn(st'.uses[x][p], indices, st'.visited) && Resolve(st'.uses[x][p], indices).source == x
    {
      if x == m && p == |st'.uses[m]| - 1 {
      } else {
        assert x in st.uses && p < |st.uses[x]| && st'.uses[x][p] == st.uses[x][p];
      }
    }
  }

  lemma {:induction false} VisitOk(st: Collected, m: Mark, indices: seq<IterSum>)
    requires UsesOk(st, indices)
    ensures UsesOk(st.(visited := st.visited + {m}), indices)
  {}

  lemma {:induction false} CollectMarkOk(m: Mark, st: Collected, indices: seq<IterSum>, inputs: seq<Input>)
    requires UsesOk(st, indices) && MarkOk(m, inputs)
    ensures var st' := CollectMark(m, st);
            UsesOk(st', indices) && Grown(st, st', inputs) && m in st'.visited
    decreases m, 1
  {
    if m !in st.visited {
      var st1 := st.(visited := st.visited + {m});
      VisitOk(st, m, indices);
      if m.FusedMark? {
        CollectArgsOk(m, m.args, 0, st1, indices, inputs);
        var st' := CollectArgs(m, m.args, 0, st1);
        assert Complete(m, st');
        forall x, y | Recorded(x, y, st) ensures Recorded(x, y, st') { assert Recorded(x, y, st1); }
      }
    }
  }

  lemma {:induction false} CollectArgsOk(m: Mark, args: seq<Split>, i: nat, st: Collected, indices: seq<IterSum>,
      inputs: seq<Input>)
    requires UsesOk(st, indices) && SplitsOk(args, inputs)
    requires m in st.visited && m.FusedMark? && i + |args| == |m.args| && args == m.args[i..]
    ensures var st' := CollectArgs(m, args, i, st);
            UsesOk(st', indices) && Grown(st, st', inputs) &&
            forall j :: i <= j < |m.args| ==> Recorded(m.args[j].source, Arg(m, j), st')
    decreases args, 0
  {
    if |args| > 0 {
      var s := args[0];
      assert s == m.args[i] && SplitOk(s, inputs);
      CollectSplitOk(s, st, indices, inputs);
      var st1 := CollectSplit(s, st);
      AddUseOk(st1, s.source, Arg(m, i), indices, inputs);
      var st2 := AddUse(st1, s.source, Arg(m, i));
      assert args[1..] == m.args[i + 1..];
      forall k | 0 <= k < |args[1..]| ensures SplitOk(args[1..][k], inputs) { assert SplitOk(args[k + 1], inputs); }
      CollectArgsOk(m, args[1..], i + 1, st2, indices, inputs);
      GrownTrans(st, st1, st2, inputs);
      GrownTrans(st, st2, CollectArgs(m, args, i, st), inputs);
    }
  }

  lemma {:induction false} CollectSplitOk(s: Split, st: Collected, indices: seq<IterSum>, inputs: seq<Input>)
    requires UsesOk(st, indices) && SplitOk(s, inputs)
    ensures var st' := CollectSplit(s, st);
            UsesOk(st', indices) && Grown(st, st', inputs) && s.source in st'.visited
    decreases s, 0
  {
    CollectMarkOk(s.source, st, indices, inputs);
  }

  ghost predicate IndicesOk(indices: seq<IterSum>, inputs: seq<Input>) {
    forall k :: 0 <= k < |indices| ==> |indices[k].args| <= 1 && SplitsOk(indices[k].args, inputs)
  }

  lemma {:induction false} CollectIndicesOk(indices: seq<IterSum>, k: nat, st: Collected, inputs: seq<Input>)
    requires k <= |indices| && UsesOk(st, indices) && IndicesOk(indices, inputs)
    ensures var st' := CollectIndices(indices, k, st);
            UsesOk(st', indices) && Grown(st, st', inputs) &&
            forall j :: k <= j < |indices| && |indices[j].args| == 1 ==>
              Recorded(indices[j].args[0].source, Top(j), st')
    decreases |indices| - k
  {
    if k < |indices| {
      if |indices[k].args| == 1 {
        var s := indices[k].args[0];
        assert SplitOk(s, inputs);
        CollectMarkOk(s.source, st, indices, inputs);
        var st1 := CollectMark(s.source, st);
        AddUseOk(st1, s.source, Top(k), indices, inputs);
        var st2 := AddUse(st1, s.source, Top(k));
        CollectIndicesOk(indices, k + 1, st2, inputs);
        GrownTrans(st, st1, st2, inputs);
        GrownTrans(st, st2, CollectIndices(indices, k, st), inputs);
      } else {
        CollectIndicesOk(indices, k + 1, st, inputs);
      }
    }
  }

  // ----- covering a mark by its uses ---------------------------------------------------------

  /** TryNormalizeSplits: the splits from outermost to innermost, or empty. */
  function NormalizeSplits(extent: int, splits: seq<Split>): seq<Split> {
    var picked := PickChain(LowerFactors(splits), Extents(splits), AllUnused(|splits|), 1, |splits|, 0);
    if picked.None? || picked.value.total != extent then []
    else
      PickChainKeys(LowerFactors(splits), Extents(splits), AllUnused(|splits|), 1, |splits|, 0);
      Reordered(splits, picked.value.order)
  }

  /** The chosen elements, last choice first. */
  function Reordered<T>(slots: seq<T>, order: seq<nat>): (r: seq<T>)
    requires forall k :: 0 <= k < |order| ==> order[k] < |slots|
    ensures |r| == |order| && forall i :: 0 <= i < |order| ==> r[i] == slots[order[|order| - 1 - i]]
  {
    seq(|order|, i requires 0 <= i < |order| => slots[order[|order| - 1 - i]])
  }

  /** A nonempty normalisation reorders all the uses into a cover of the mark. */
  lemma {:induction false} NormalizedCovers(m: Mark, slots: seq<Slot>, indices: seq<IterSum>, vis: set<Mark>)
    returns (cover: seq<Slot>)
    requires SlotsIn(slots, indices, vis)
    requires forall p :: 0 <= p < |slots| ==>
               Resolve(slots[p], indices).source == m && Resolve(slots[p], indices).extent > 0
    requires NormalizeSplits(m.extent, ResolveAll(slots, indices)) != []
    ensures Covers(cover, m, indices, vis)
    ensures forall p :: 0 <= p < |slots| ==> slots[p] in cover
  {
    var ss := ResolveAll(slots, indices);
    var order := NormalizedOrder(m.extent, ss);
    cover := Reordered(slots, order);
    assert ResolveAll(cover, indices) == Reordered(ss, order);
    ReorderedAll(slots, order);
  }

  /** The order a successful normalisation puts the splits in. */
  lemma {:induction false} NormalizedOrder(extent: int, ss: seq<Split>) returns (order: seq<nat>)
    requires NormalizeSplits(extent, ss) != [] && forall k :: 0 <= k < |ss| ==> ss[k].extent > 0
    ensures forall k :: 0 <= k < |order| ==> order[k] < |ss|
    ensures forall q :: 0 <= q < |ss| ==> q in order
    ensures Radix(LowerFactors(Reordered(ss, order)), Extents(Reordered(ss, order)), extent)
  {
    var p := NormalizedChoice(extent, ss);
    ChoiceRadix(p, ss);
    ChoiceCovers(p, ss);
    order := p.order;
  }

  lemma {:induction false} ReorderedAll<T>(s: seq<T>, order: seq<nat>)
    requires forall k :: 0 <= k < |order| ==> order[k] < |s|
    requires forall q :: 0 <= q < |s| ==> q in order
    ensures forall q :: 0 <= q < |s| ==> s[q] in Reordered(s, order)
  {
    forall q | 0 <= q < |s| ensures s[q] in Reordered(s, order) {
      assert q in order;
      var k :| 0 <= k < |order| && order[k] == q;
      assert Reordered(s, order)[|order| - 1 - k] == s[q];
    }
  }

  /** What a successful normalisation has chosen. */
  lemma {:induction false} NormalizedChoice(extent: int, ss: seq<Split>) returns (p: Picked)
    requires NormalizeSplits(extent, ss) != []
    ensures |p.order| == |ss| > 0 && p.total == extent
    ensures PickChain(LowerFactors(ss), Extents(ss), AllUnused(|ss|), 1, |ss|, 0) == Some(p)
  {
    PickChainKeys(LowerFactors(ss), Extents(ss), AllUnused(|ss|), 1, |ss|, 0);
    p := PickChain(LowerFactors(ss), Extents(ss), AllUnused(|ss|), 1, |ss|, 0).value;
  }

  lemma {:induction false} ChoiceRadix(p: Picked, ss: seq<Split>)
    requires PickChain(LowerFactors(ss), Extents(ss), AllUnused(|ss|), 1, |ss|, 0) == Some(p) && |ss| > 0
    requires forall k :: 0 <= k < |ss| ==> ss[k].extent > 0
    ensures forall k :: 0 <= k < |p.order| ==> p.order[k] < |ss|
    ensures Radix(LowerFactors(Reordered(ss, p.order)), Extents(Reordered(ss, p.order)), p.total)
  {
    PickChainKeys(LowerFactors(ss), Extents(ss), AllUnused(|ss|), 1, |ss|, 0);
    CoverRadix(ss, Reordered(ss, p.order), p);
  }

  lemma {:induction false} ChoiceCovers(p: Picked, ss: seq<Split>)
    requires PickChain(LowerFactors(ss), Extents(ss), AllUnused(|ss|), 1, |ss|, 0) == Some(p)
    ensures forall q :: 0 <= q < |ss| ==> q in p.order
  {
    AllUnusedCount(|ss|);
    PickChainCovers(LowerFactors(ss), Extents(ss), AllUnused(|ss|), 1, |ss|, 0);
  }

  /** A chain of lower factors starting at 1, reversed, is a mixed-radix system. */
  lemma {:induction false} CoverRadix(ss: seq<Split>, cs: seq<Split>, p: Picked)
    requires |ss| == |cs| == |p.order| && |ss| > 0
    requires forall k :: 0 <= k < |ss| ==> ss[k].extent > 0 && p.order[k] < |ss|
    requires forall k :: 0 <= k < |cs| ==> cs[k] == ss[p.order[|ss| - 1 - k]]
    requires ss[p.order[0]].lowerFactor == 1
    requires forall k :: 0 <= k < |ss| - 1 ==> GrowsAt(LowerFactors(ss), Extents(ss), p.order, k)
    requires p.total == ss[p.order[|ss| - 1]].lowerFactor * ss[p.order[|ss| - 1]].extent
    ensures Radix(LowerFactors(cs), Extents(cs), p.total)
  {
    var n := |ss|;
    forall k | 0 <= k < n - 1 ensures StepAt(LowerFactors(cs), Extents(cs), k) {
      var j := n - 2 - k;
      assert GrowsAt(LowerFactors(ss), Extents(ss), p.order, j);
    }
  }

  /** A full split covers its mark alone. */
  lemma {:induction false} OneUse(s: Split)
    requires s.lowerFactor == 1
    ensures NormalizeSplits(s.extent, [s]) != []
  {
    var ss := [s];
    assert LowerFactors(ss) == [1] && Extents(ss) == [s.extent] && AllUnused(1) == [false];
    assert FindKey([1], [false], 1, 0) == 0;
    assert [false][0 := true] == [true];
    assert PickChain([1], [s.extent], [true], 1 * s.extent, 0, 0) == Some(Picked([], s.extent));
    assert PickChain([1], [s.extent], [false], 1, 1, 0) == Some(Picked([0] + [], s.extent));
  }

  /** CheckBijective. */
  predicate CheckBijective(indices: seq<IterSum>, inputs: seq<Input>) {
    var st := CollectIndices(indices, 0, Collected({}, map[]));
    (forall m :: m in st.visited ==> NormalizeSplits(m.extent, ResolveAll(UsesOf(st, m), indices)) != []) &&
    (forall i :: 0 <= i < |inputs| ==> InputMark(inputs[i].v, inputs[i].min, inputs[i].extent) in st.visited)
  }

  /** A successful check yields a certificate. */
  lemma {:induction false} CheckedCertificate(indices: seq<IterSum>, inputs: seq<Input>)
    returns (vis: set<Mark>, uses: map<Mark, seq<Slot>>)
    requires IndicesOk(indices, inputs) && CheckBijective(indices, inputs)
    ensures Certificate(indices, inputs, vis, uses)
  {
    var st0 := Collected({}, map[]);
    CollectIndicesOk(indices, 0, st0, inputs);
    var st := CollectIndices(indices, 0, st0);
    vis := st.visited;
    uses := CoverAll(vis, st, indices, inputs);
    forall slot | SlotIn(slot, indices, vis)
      ensures var s := Resolve(slot, indices);
              s.source in vis && s.lowerFactor > 0 && s.extent > 0 && slot in uses[s.source]
    {
      SlotCovered(slot, st, indices, inputs);
      var s := Resolve(slot, indices);
      var p :| 0 <= p < |UsesOf(st, s.source)| && UsesOf(st, s.source)[p] == slot;
    }
  }

  lemma {:induction false} SlotCovered(slot: Slot, st: Collected, indices: seq<IterSum>, inputs: seq<Input>)
    requires IndicesOk(indices, inputs) && SlotIn(slot, indices, st.visited)
    requires forall m :: m in st.visited ==> Complete(m, st) && MarkOk(m, inputs)
    requires forall j :: 0 <= j < |indices| && |indices[j].args| == 1 ==>
               Recorded(indices[j].args[0].source, Top(j), st)
    ensures var s := Resolve(slot, indices);
            SplitOk(s, inputs) && Recorded(s.source, slot, st)
  {
    match slot
    case Top(k) =>
      assert SplitOk(indices[k].args[0], inputs);
    case Arg(m, i) =>
      assert Complete(m, st);
      FusedArgOk(m, i, inputs);
  }

  lemma {:induction false} FusedArgOk(m: Mark, i: nat, inputs: seq<Input>)
    requires m.FusedMark? && MarkOk(m, inputs) && i < |m.args|
    ensures SplitOk(m.args[i], inputs)
  {
    assert SplitsOk(m.args, inputs);
  }

  /** Covers for a set of visited marks. */
  lemma {:induction false} CoverAll(todo: set<Mark>, st: Collected, indices: seq<IterSum>, inputs: seq<Input>)
    returns (uses: map<Mark, seq<Slot>>)
    requires UsesOk(st, indices) && todo <= st.visited && IndicesOk(indices, inputs)
    requires forall m :: m in st.visited ==> MarkOk(m, inputs)
    requires forall m :: m in todo ==> NormalizeSplits(m.extent, ResolveAll(UsesOf(st, m), indices)) != []
    ensures forall m :: m in todo ==>
              m in uses && Covers(uses[m], m, indices, st.visited) &&
              forall p :: 0 <= p < |UsesOf(st, m)| ==> UsesOf(st, m)[p] in uses[m]
    decreases todo
  {
    uses := map[];
    if todo != {} {
      var m :| m in todo;
      var rest := CoverAll(todo - {m}, st, indices, inputs);
      forall p | 0 <= p < |UsesOf(st, m)|
        ensures SlotIn(UsesOf(st, m)[p], indices, st.visited)
        ensures Resolve(UsesOf(st, m)[p], indices).source == m && Resolve(UsesOf(st, m)[p], indices).extent > 0
      {
        UseExtent(m, p, st, indices, inputs);
      }
      var cover := NormalizedCovers(m, UsesOf(st, m), indices, st.visited);
      uses := rest[m := cover];
    }
  }

  lemma {:induction false} UseExtent(m: Mark, p: nat, st: Collected, indices: seq<IterSum>, inputs: seq<Input>)
    requires UsesOk(st, indices) && IndicesOk(indices, inputs) && p < |UsesOf(st, m)|
    requires forall x :: x in st.visited ==> MarkOk(x, inputs)
    ensures SlotIn(UsesOf(st, m)[p], indices, st.visited)
    ensures Resolve(UsesOf(st, m)[p], indices).source == m && Resolve(UsesOf(st, m)[p], indices).extent > 0
  {
    var slot := UsesOf(st, m)[p];
    match slot
    case Top(k) => assert SplitOk(indices[k].args[0], inputs);
    case Arg(x, i) => FusedArgOk(x, i, inputs);
  }

  // ----- detection ---------------------------------------------------------------------------

  function RewriteAll(es: seq<Expr>, vars: map<nat, IterExpr>, memo: Memo): (Option<seq<IterSum>>, Memo) {
    if |es| == 0 then (Some([]), memo)
    else
      var (r, m1) := Rewrite(es[0], vars, memo);
      if r.None? then (None, m1)
      else
        var (rest, m2) := RewriteAll(es[1..], vars, m1);
        if rest.None? then (None, m2) else (Some([r.value] + rest.value), m2)
  }

  const NoMemo: Memo := Memo(map[], true, true)

  /** DetectIterMap: one sum per index, or empty; and what was observed of the run. */
  function Detect(indices: seq<Expr>, inputs: seq<Input>): (seq<IterSum>, Memo) {
    var (r, memo) := RewriteAll(indices, VarMap(inputs), NoMemo);
    if r.None? || !CheckBijective(r.value, inputs) then ([], memo) else (r.value, memo)
  }

  /** r is a rewriting of es, with the same values if the run stayed coherent. */
  ghost predicate RewritesTo(es: seq<Expr>, r: seq<IterSum>, memo: Memo, inputs: seq<Input>) {
    && |r| == |es|
    && (forall k :: 0 <= k < |r| ==> |r[k].args| <= 1)
    && (memo.positive ==> IndicesOk(r, inputs))
    && (memo.positive && memo.coherent ==>
          forall k, env: Env :: 0 <= k < |r| && InBox(inputs, env) ==> SumValue(r[k], env) == Eval(es[k], env))
  }

  lemma {:induction false} RewriteAllObserved(es: seq<Expr>, inputs: seq<Input>, memo: Memo)
    requires InputsOk(inputs) && MemoOk(memo, inputs)
    ensures var (r, memo') := RewriteAll(es, VarMap(inputs), memo);
            Later(memo, memo', inputs) && (r.Some? ==> RewritesTo(es, r.value, memo', inputs))
    decreases |es|
  {
    if |es| > 0 {
      RewriteObserved(es[0], inputs, memo, map[]);
      var (r, m1) := Rewrite(es[0], VarMap(inputs), memo);
      if r.Some? {
        RewriteAllObserved(es[1..], inputs, m1);
        var (rest, m2) := RewriteAll(es[1..], VarMap(inputs), m1);
        if rest.Some? {
          forall env: Env | m2.positive && m2.coherent && InBox(inputs, env)
            ensures SumValue(r.value, env) == Eval(es[0], env)
          {
            RewriteObserved(es[0], inputs, memo, env);
          }
          RewritesToCons(es, r.value, rest.value, m2, inputs);
        }
      }
    }
  }

  lemma {:induction false} RewritesToCons(es: seq<Expr>, r: IterSum, rest: seq<IterSum>, memo: Memo, inputs: seq<Input>)
    requires |es| > 0 && RewritesTo(es[1..], rest, memo, inputs)
    requires |r.args| <= 1 && (memo.positive ==> SplitsOk(r.args, inputs))
    requires memo.positive && memo.coherent ==>
               forall env: Env :: InBox(inputs, env) ==> SumValue(r, env) == Eval(es[0], env)
    ensures RewritesTo(es, [r] + rest, memo, inputs)
  {
    var all := [r] + rest;
    forall k | 0 <= k < |all|
      ensures |all[k].args| <= 1 && (memo.positive ==> SplitsOk(all[k].args, inputs))
    {
      if k > 0 { assert all[k] == rest[k - 1]; }
    }
    if memo.positive && memo.coherent {
      forall k, env: Env | 0 <= k < |all| && InBox(inputs, env) ensures SumValue(all[k], env) == Eval(es[k], env) {
        if k > 0 {
          assert all[k] == rest[k - 1] && es[k] == es[1..][k - 1];
          assert SumValue(rest[k - 1], env) == Eval(es[1..][k - 1], env);
        }
      }
    }
  }

  /** On the iteration box, the tuple of index digits stays within the index extents, different
      points have different digits, and every tuple within the extents is reached. */
  ghost predicate DigitBijection(r: seq<IterSum>, inputs: seq<Input>) {
    && (forall env: Env, k :: InBox(inputs, env) && 0 <= k < |r| ==> 0 <= IndexDigit(r, k, env) < IndexExtent(r, k))
    && (forall env: Env, env': Env :: InBox(inputs, env) && InBox(inputs, env') && SameDigits(r, env, env') ==>
          SameInputs(inputs, env, env'))
    && (forall d :: IndexDigitsIn(r, d) ==> exists env: Env :: InBox(inputs, env) && HasDigits(r, env, d))
  }

  ghost predicate SameDigits(r: seq<IterSum>, env: Env, env': Env) {
    forall k :: 0 <= k < |r| ==> IndexDigit(r, k, env) == IndexDigit(r, k, env')
  }

  ghost predicate HasDigits(r: seq<IterSum>, env: Env, d: seq<int>) {
    |d| == |r| && forall k :: 0 <= k < |r| ==> IndexDigit(r, k, env) == d[k]
  }

  ghost predicate SameInputs(inputs: seq<Input>, env: Env, env': Env) {
    forall i :: 0 <= i < |inputs| ==> Get(env, inputs[i].v) == Get(env', inputs[i].v)
  }

  lemma {:induction false} CheckedBijection(r: seq<IterSum>, inputs: seq<Input>)
    requires IndicesOk(r, inputs) && CheckBijective(r, inputs) && DistinctInputs(inputs)
    ensures DigitBijection(r, inputs)
  {
    var vis, uses := CheckedCertificate(r, inputs);
    forall env: Env, k | InBox(inputs, env) && 0 <= k < |r|
      ensures 0 <= IndexDigit(r, k, env) < IndexExtent(r, k)
    {
      if |r[k].args| == 1 { assert SplitOk(r[k].args[0], inputs); }
    }
    forall env: Env, env': Env | InBox(inputs, env) && InBox(inputs, env') && SameDigits(r, env, env')
      ensures SameInputs(inputs, env, env')
    {
      DigitsInjective(r, inputs, vis, uses, env, env');
    }
    forall d | IndexDigitsIn(r, d) ensures exists env: Env :: InBox(inputs, env) && HasDigits(r, env, d) {
      var env := DigitsSurjective(r, inputs, vis, uses, d);
      assert HasDigits(r, env, d);
    }
  }

  /** A nonempty result, by what was observed of the run. */
  lemma {:induction false} DetectObserved(indices: seq<Expr>, inputs: seq<Input>)
    requires InputsOk(inputs) && DistinctInputs(inputs)
    ensures var (r, memo) := Detect(indices, inputs);
            r != [] ==> RewritesTo(indices, r, memo, inputs) && (memo.positive ==> DigitBijection(r, inputs))
  {
    RewriteAllObserved(indices, inputs, NoMemo);
    var (r, memo) := RewriteAll(indices, VarMap(inputs), NoMemo);
    if r.Some? && CheckBijective(r.value, inputs) && memo.positive {
      CheckedBijection(r.value, inputs);
    }
  }
}
