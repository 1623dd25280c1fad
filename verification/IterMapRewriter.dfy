/** The loops and the state of the iterator-map rewriter (src/arith/iter_affine_map.cc), proved
    against the functions of IterMap and IterMapDetect. */
module IterMapRewriting {
  import opened IntOperator
  import opened PrimExprs
  import opened Wrappers
  import opened IterMap
  import opened IterMapBijection
  import opened IterMapDetect
  import opened IterMapReference
  import opened IterMapPositive
  import opened IterMapSound

  function Prepended(order: seq<nat>, rest: Option<Picked>): Option<Picked> {
    if rest.None? then None else Some(Picked(order + rest.value.order, rest.value.total))
  }

  /** The nested search of TryFuseIters and TryNormalizeSplits: each round takes the first unused
      entry with the expected key. */
  method ChooseInOrder(keys: seq<int>, exts: seq<int>, first: int, from: nat) returns (r: Option<Picked>)
    requires |exts| == |keys| && from <= |keys|
    ensures r == PickChain(keys, exts, AllUnused(|keys|), first, |keys|, from)
  {
    var n := |keys|;
    var used := AllUnused(n);
    var order: seq<nat> := [];
    var expected := first;
    PrependNothing(PickChain(keys, exts, used, first, n, from));
    for i := 0 to n
      invariant |used| == n
      invariant PickChain(keys, exts, AllUnused(n), first, n, from) ==
                Prepended(order, PickChain(keys, exts, used, expected, n - i, if i == 0 then from else 0))
    {
      var j := if i == 0 then from else 0;
      while j < n && (used[j] || keys[j] != expected)
        invariant 0 <= j <= n
        invariant FindKey(keys, used, expected, if i == 0 then from else 0) == FindKey(keys, used, expected, j)
      {
        j := j + 1;
      }
      if j == n {
        return None;
      }
      PrependStep(order, j, PickChain(keys, exts, used[j := true], expected * exts[j], n - i - 1, 0));
      used := used[j := true];
      order := order + [j];
      expected := expected * exts[j];
    }
    assert order + [] == order;
    return Some(Picked(order, expected));
  }

  lemma {:induction false} PrependNothing(rest: Option<Picked>)
    ensures Prepended([], rest) == rest
  {
    if rest.Some? { assert [] + rest.value.order == rest.value.order; }
  }

  lemma {:induction false} PrependStep(order: seq<nat>, j: nat, rest: Option<Picked>)
    ensures Prepended(order, if rest.None? then None else Some(Picked([j] + rest.value.order, rest.value.total))) ==
            Prepended(order + [j], rest)
  {
    if rest.Some? { assert order + ([j] + rest.value.order) == (order + [j]) + rest.value.order; }
  }

  /** TryNormalizeSplits. */
  method TryNormalizeSplits(mark: Mark, splits: seq<Split>) returns (r: seq<Split>)
    ensures r == NormalizeSplits(mark.extent, splits)
  {
    var picked := ChooseInOrder(LowerFactors(splits), Extents(splits), 1, 0);
    if picked.None? || picked.value.total != mark.extent {
      return [];
    }
    PickChainKeys(LowerFactors(splits), Extents(splits), AllUnused(|splits|), 1, |splits|, 0);
    return Reordered(splits, picked.value.order);
  }

  /** AddToLhs for one split: the loop looking for a split of the same digit. */
  method AddToLhs(args: seq<Split>, s: Split, sign: int) returns (r: seq<Split>)
    ensures r == AddSplit(args, s, sign, 0)
  {
    for i := 0 to |args|
      invariant AddSplit(args, s, sign, 0) == AddSplit(args, s, sign, i)
    {
      if SameSplit(args[i], s) {
        return args[i := s.(scale := if sign > 0 then args[i].scale + s.scale else args[i].scale - s.scale)];
      }
    }
    return args + [if sign > 0 then s else s.(scale := 0 - s.scale)];
  }

  /** AddToLhs for a sum. */
  method AddSumToLhs(args: seq<Split>, more: seq<Split>, sign: int) returns (r: seq<Split>)
    ensures r == AddSplits(args, more, sign)
  {
    r := args;
    for i := 0 to |more|
      invariant AddSplits(args, more, sign) == AddSplits(r, more[i..], sign)
    {
      assert more[i..][1..] == more[i + 1..];
      r := AddToLhs(r, more[i], sign);
    }
  }

  class IterMapRewriter {
    const vars: map<nat, IterExpr>
    var sumFuse: map<seq<Split>, Split>
    ghost var coherent: bool
    ghost var positive: bool

    ghost function Memory(): Memo
      reads this
    {
      Memo(sumFuse, coherent, positive)
    }

    constructor (inputs: seq<Input>)
      ensures vars == VarMap(inputs) && Memory() == NoMemo
    {
      vars := VarMap(inputs);
      sumFuse, coherent, positive := map[], true, true;
    }

    /** TryFuseIters on a sum with base 0. */
    method TryFuseIters(args: seq<Split>) returns (r: Option<Split>)
      modifies this
      ensures (r, Memory()) == Fuse(args, old(Memory()))
    {
      if |args| == 1 { return Some(args[0]); }
      if |args| == 0 { return None; }
      var baseIndex := 0;
      for i := 0 to |args|
        invariant 0 <= baseIndex < |args|
        invariant SmallestScale(args, 0, 0) == SmallestScale(args, baseIndex, i)
        invariant Memory() == old(Memory())
      {
        if args[i].scale < args[baseIndex].scale { baseIndex := i; }
      }
      var base := args[baseIndex].scale;
      if base == 0 { return None; }
      var picked := ChooseInOrder(Scales(args), Extents(args), base, baseIndex);
      if picked.None? { return None; }
      PickChainKeys(Scales(args), Extents(args), AllUnused(|args|), base, |args|, baseIndex);
      var canonical := Canonical(args, picked.value.order, base);
      if canonical in sumFuse {
        coherent := coherent && sumFuse[canonical].scale == base;
        return Some(sumFuse[canonical]);
      }
      var extent := TruncDiv(picked.value.total, base);
      var split := Split(FusedMark(canonical, extent), 1, extent, base);
      sumFuse := sumFuse[canonical := split];
      return Some(split);
    }

    /** Division or remainder of an iterator expression by a nonzero constant. */
    method DivideIterBy(a: IterExpr, c: int, isDiv: bool) returns (r: Option<IterExpr>)
      requires c != 0
      modifies this
      ensures (r, Memory()) == DivIter(a, c, old(Memory()), isDiv)
    {
      var split: Split;
      match a {
        case Plain(_) => return None;
        case SplitExpr(s) => split := s;
        case SumExpr(args, base) =>
          if base != IntImm(0) { return None; }
          var fused := TryFuseIters(args);
          if fused.None? { return None; }
          split := fused.value;
      }
      positive := positive && SameSide(split.scale, c);
      return Quotient(split, c, isDiv);
    }

    method Combine(op: BinOp, a: IterExpr, b: IterExpr) returns (r: Option<IterExpr>)
      modifies this
      ensures (r, Memory()) == Combined(op, a, b, old(Memory()))
    {
      if IsDivision(op) {
        match DivCases(a, b, op == FloorDivOp)
        case Settled(q) => return q;
        case DivideIter(c) => r := DivideIterBy(a, c, op == FloorDivOp);
      } else {
        return Direct(op, a, b);
      }
    }

    /** The visitor, sharing fused sums between all the expressions it sees. */
    method DirectMutate(e: Expr) returns (r: Option<IterExpr>)
      modifies this
      ensures (r, Memory()) == Mutate(e, vars, old(Memory()))
      decreases e
    {
      match e
      case Var(v) => return Some(if v in vars then vars[v] else Plain(e));
      case IntImm(_) => return Some(Plain(e));
      case Bin(op, a, b) =>
        var ra := DirectMutate(a);
        if ra.None? { return None; }
        var rb := DirectMutate(b);
        if rb.None? { return None; }
        r := Combine(op, ra.value, rb.value);
      case Not(a) =>
        var ra := DirectMutate(a);
        return if ra.None? || !ra.value.Plain? then None else Some(Plain(Not(ra.value.e)));
      case Select(c, t, f) =>
        var rc := DirectMutate(c);
        if rc.None? || !rc.value.Plain? { return None; }
        var rt := DirectMutate(t);
        if rt.None? || !rt.value.Plain? { return None; }
        var rf := DirectMutate(f);
        if rf.None? || !rf.value.Plain? { return None; }
        return Some(Plain(Select(rc.value.e, rt.value.e, rf.value.e)));
    }

    method RewriteIndex(e: Expr) returns (r: Option<IterSum>)
      modifies this
      ensures (r, Memory()) == Rewrite(e, vars, old(Memory()))
    {
      var m := DirectMutate(e);
      if m.None? { return None; }
      var sum := AsSum(m.value);
      if |sum.args| <= 1 { return Some(sum); }
      var fused := TryFuseIters(sum.args);
      return if fused.None? then None else Some(IterSum([fused.value], sum.base));
    }
  }

  class IterMarkSplitCollector {
    var visited: set<Mark>
    var mark2splits: map<Mark, seq<Split>>
    ghost var uses: map<Mark, seq<Slot>>

    ghost function State(): Collected
      reads this
    {
      Collected(visited, uses)
    }

    /** The recorded splits are those at the recorded places. */
    ghost predicate Valid(indices: seq<IterSum>)
      reads this
    {
      mark2splits.Keys == uses.Keys && forall m :: m in uses ==> mark2splits[m] == ResolveAll(uses[m], indices)
    }

    constructor (indices: seq<IterSum>)
      ensures State() == Collected({}, map[]) && Valid(indices)
    {
      visited, mark2splits, uses := {}, map[], map[];
    }

    method Push(s: Split, ghost slot: Slot, ghost indices: seq<IterSum>)
      requires Valid(indices) && Resolve(slot, indices) == s
      modifies this
      ensures Valid(indices) && State() == AddUse(old(State()), s.source, slot)
    {
      mark2splits := mark2splits[s.source := (if s.source in mark2splits then mark2splits[s.source] else []) + [s]];
      uses := uses[s.source := UsesOf(State(), s.source) + [slot]];
    }

    method SplitsOf(m: Mark, ghost indices: seq<IterSum>) returns (splits: seq<Split>)
      requires Valid(indices)
      ensures splits == ResolveAll(UsesOf(State(), m), indices)
    {
      return if m in mark2splits then mark2splits[m] else [];
    }

    /** CollectInternal. */
    method CollectInternal(m: Mark, ghost indices: seq<IterSum>)
      requires Valid(indices)
      modifies this
      ensures Valid(indices) && State() == CollectMark(m, old(State()))
      decreases m, 1
    {
      if m in visited { return; }
      visited := visited + {m};
      if m.FusedMark? { CollectFrom(m, m.args, 0, indices); }
    }

    method CollectFrom(m: Mark, args: seq<Split>, i: nat, ghost indices: seq<IterSum>)
      requires Valid(indices) && m.FusedMark? && i + |args| == |m.args| && args == m.args[i..]
      modifies this
      ensures Valid(indices) && State() == CollectArgs(m, args, i, old(State()))
      decreases args, 0
    {
      if |args| > 0 {
        CollectSource(args[0], indices);
        assert args[0] == m.args[i] && args[1..] == m.args[i + 1..];
        Push(args[0], Arg(m, i), indices);
        CollectFrom(m, args[1..], i + 1, indices);
      }
    }

    method CollectSource(s: Split, ghost indices: seq<IterSum>)
      requires Valid(indices)
      modifies this
      ensures Valid(indices) && State() == CollectSplit(s, old(State()))
      decreases s, 0
    {
      CollectInternal(s.source, indices);
    }

    /** Collect. */
    method Collect(indices: seq<IterSum>)
      requires Valid(indices) && State() == Collected({}, map[])
      requires forall k :: 0 <= k < |indices| ==> |indices[k].args| <= 1
      modifies this
      ensures Valid(indices) && State() == CollectIndices(indices, 0, Collected({}, map[]))
    {
      for k := 0 to |indices|
        invariant Valid(indices)
        invariant CollectIndices(indices, 0, Collected({}, map[])) == CollectIndices(indices, k, State())
      {
        if |indices[k].args| == 1 {
          CollectInternal(indices[k].args[0].source, indices);
          Push(indices[k].args[0], Top(k), indices);
        }
      }
    }
  }

  /** CheckBijective, visiting the marks in any order. */
  method RunCheckBijective(indices: seq<IterSum>, inputs: seq<Input>) returns (ok: bool)
    requires forall k :: 0 <= k < |indices| ==> |indices[k].args| <= 1
    ensures ok == CheckBijective(indices, inputs)
  {
    var collector := new IterMarkSplitCollector(indices);
    collector.Collect(indices);
    ghost var st := collector.State();
    var todo := collector.visited;
    while todo != {}
      invariant todo <= st.visited && collector.State() == st && collector.Valid(indices)
      invariant forall m :: m in st.visited && m !in todo ==>
                  NormalizeSplits(m.extent, ResolveAll(UsesOf(st, m), indices)) != []
      decreases todo
    {
      var m :| m in todo;
      var splits := collector.SplitsOf(m, indices);
      var normalized := TryNormalizeSplits(m, splits);
      if normalized == [] { return false; }
      todo := todo - {m};
    }
    for i := 0 to |inputs|
      invariant collector.visited == st.visited
      invariant forall k :: 0 <= k < i ==> InputMark(inputs[k].v, inputs[k].min, inputs[k].extent) in st.visited
    {
      if InputMark(inputs[i].v, inputs[i].min, inputs[i].extent) !in collector.visited { return false; }
    }
    return true;
  }

  function WithFirst(done: seq<IterSum>, rest: (Option<seq<IterSum>>, Memo)): (Option<seq<IterSum>>, Memo) {
    (if rest.0.None? then None else Some(done + rest.0.value), rest.1)
  }

  /** The loop of DetectIterMap over the indices. */
  method RewriteIndices(rewriter: IterMapRewriter, indices: seq<Expr>) returns (r: Option<seq<IterSum>>)
    modifies rewriter
    ensures (r, rewriter.Memory()) == RewriteAll(indices, rewriter.vars, old(rewriter.Memory()))
  {
    var results: seq<IterSum> := [];
    ghost var all := RewriteAll(indices, rewriter.vars, rewriter.Memory());
    StartResult(all);
    assert indices[0..] == indices;
    for k := 0 to |indices|
      invariant all == WithFirst(results, RewriteAll(indices[k..], rewriter.vars, rewriter.Memory()))
    {
      var value := rewriter.RewriteIndex(indices[k]);
      assert indices[k..][0] == indices[k] && indices[k..][1..] == indices[k + 1..];
      if value.None? { return None; }
      AppendResult(results, value.value, RewriteAll(indices[k + 1..], rewriter.vars, rewriter.Memory()));
      results := results + [value.value];
    }
    assert results + [] == results;
    return Some(results);
  }

  /** DetectIterMap. */
  method DetectIterMap(indices: seq<Expr>, inputs: seq<Input>) returns (r: seq<IterSum>)
    requires InputsOk(inputs) && DistinctInputs(inputs)
    ensures r == Detect(indices, inputs).0
    ensures r != [] && (AllPositive(indices, inputs) || Regular(indices, inputs)) ==> DigitBijection(r, inputs)
    ensures r != [] && Regular(indices, inputs) ==> SameValues(indices, r, inputs)
  {
    var rewriter := new IterMapRewriter(inputs);
    var results := RewriteIndices(rewriter, indices);
    DetectSound(indices, inputs);
    if results.None? { return []; }
    RewriteAllObserved(indices, inputs, NoMemo);
    var ok := RunCheckBijective(results.value, inputs);
    return if ok then results.value else [];
  }

  lemma {:induction false} StartResult(rest: (Option<seq<IterSum>>, Memo))
    ensures WithFirst([], rest) == rest
  {
    if rest.0.Some? { assert [] + rest.0.value == rest.0.value; }
  }

  lemma {:induction false} AppendResult(done: seq<IterSum>, r: IterSum, rest: (Option<seq<IterSum>>, Memo))
    ensures WithFirst(done, (if rest.0.None? then None else Some([r] + rest.0.value), rest.1)) ==
            WithFirst(done + [r], rest)
  {
    if rest.0.Some? { assert done + ([r] + rest.0.value) == (done + [r]) + rest.0.value; }
  }
}
