/** The iterator-map rewriter without its memo, as a reference, with a log of the steps that
    depend on a memo or on signs. The rewriter of src/arith/iter_affine_map.cc does the same as
    long as no two fused sums of one scale-free form have different base scales. */
module IterMapReference {
  import opened PrimExprs
  import opened Wrappers
  import opened IterMap
  import opened IterMapDetect

  /** Fusing a sum, or dividing a split of this scale by c. */
  datatype Step = Fused(key: Fusion) | Divided(scale: int, c: int)

  function FuseAnew(args: seq<Split>): (Option<Split>, seq<Step>) {
    if |args| == 1 then (Some(args[0]), [])
    else
      var key := FuseKey(args);
      if key.None? then (None, []) else (Some(FusedSplit(key.value)), [Fused(key.value)])
  }

  function DivideAnew(a: IterExpr, c: int, isDiv: bool): (Option<IterExpr>, seq<Step>)
    requires c != 0
  {
    match a
    case Plain(_) => (None, [])
    case SplitExpr(s) => (Quotient(s, c, isDiv), [Divided(s.scale, c)])
    case SumExpr(args, base) =>
      if base != IntImm(0) then (None, [])
      else
        var (fused, log) := FuseAnew(args);
        if fused.None? then (None, log)
        else (Quotient(fused.value, c, isDiv), log + [Divided(fused.value.scale, c)])
  }

  function CombinedAnew(op: BinOp, a: IterExpr, b: IterExpr): (Option<IterExpr>, seq<Step>) {
    if IsDivision(op) then
      match DivCases(a, b, op == FloorDivOp)
      case Settled(r) => (r, [])
      case DivideIter(c) => DivideAnew(a, c, op == FloorDivOp)
    else (Direct(op, a, b), [])
  }

  function MutateAnew(e: Expr, vars: map<nat, IterExpr>): (Option<IterExpr>, seq<Step>) {
    match e
    case Var(v) => (Some(if v in vars then vars[v] else Plain(e)), [])
    case IntImm(_) => (Some(Plain(e)), [])
    case Bin(op, a, b) =>
      var (ra, l1) := MutateAnew(a, vars);
      if ra.None? then (None, l1)
      else
        var (rb, l2) := MutateAnew(b, vars);
        if rb.None? then (None, l1 + l2)
        else
          var (r, l3) := CombinedAnew(op, ra.value, rb.value);
          (r, l1 + l2 + l3)
    case Not(a) =>
      var (ra, l1) := MutateAnew(a, vars);
      if ra.None? || !ra.value.Plain? then (None, l1) else (Some(Plain(Not(ra.value.e))), l1)
    case Select(c, t, f) => SelectedAnew(MutateAnew(c, vars), MutateAnew(t, vars), MutateAnew(f, vars))
  }

  /** A selection is resolved when its parts are plain. */
  function SelectedAnew(c: (Option<IterExpr>, seq<Step>), t: (Option<IterExpr>, seq<Step>),
      f: (Option<IterExpr>, seq<Step>)): (Option<IterExpr>, seq<Step>)
  {
    if c.0.None? || !c.0.value.Plain? then (None, c.1)
    else if t.0.None? || !t.0.value.Plain? then (None, c.1 + t.1)
    else if f.0.None? || !f.0.value.Plain? then (None, c.1 + t.1 + f.1)
    else (Some(Plain(Select(c.0.value.e, t.0.value.e, f.0.value.e))), c.1 + t.1 + f.1)
  }

  function NormalizedAnew(sum: IterSum): (Option<IterSum>, seq<Step>) {
    if |sum.args| <= 1 then (Some(sum), [])
    else
      var (fused, log) := FuseAnew(sum.args);
      if fused.None? then (None, log) else (Some(IterSum([fused.value], sum.base)), log)
  }

  function RewriteAnew(e: Expr, vars: map<nat, IterExpr>): (Option<IterSum>, seq<Step>) {
    var (r, l1) := MutateAnew(e, vars);
    if r.None? then (None, l1)
    else
      var (s, l2) := NormalizedAnew(AsSum(r.value));
      (s, l1 + l2)
  }

  function RewriteAllAnew(es: seq<Expr>, vars: map<nat, IterExpr>): (Option<seq<IterSum>>, seq<Step>) {
    if |es| == 0 then (Some([]), [])
    else
      var (r, l1) := RewriteAnew(es[0], vars);
      if r.None? then (None, l1)
      else
        var (rest, l2) := RewriteAllAnew(es[1..], vars);
        (if rest.None? then None else Some([r.value] + rest.value), l1 + l2)
  }

  // ----- what a log does to a memo -----------------------------------------------------------

  function Effect(step: Step, memo: Memo): Memo {
    match step
    case Fused(key) => Remember(key, memo)
    case Divided(scale, c) => Observe(memo, scale, c)
  }

  function Run(log: seq<Step>, memo: Memo): Memo {
    if |log| == 0 then memo else Run(log[1..], Effect(log[0], memo))
  }

  lemma {:induction false} RunAppend(l1: seq<Step>, l2: seq<Step>, memo: Memo)
    ensures Run(l1 + l2, memo) == Run(l2, Run(l1, memo))
  {
    if |l1| == 0 {
      assert l1 + l2 == l2;
    } else {
      assert (l1 + l2)[1..] == l1[1..] + l2;
      RunAppend(l1[1..], l2, Effect(l1[0], memo));
    }
  }

  lemma {:induction false} RunOne(step: Step, memo: Memo)
    ensures Run([step], memo) == Effect(step, memo)
  {
    assert [step][1..] == [];
  }

  lemma {:induction false} RunDown(log: seq<Step>, memo: Memo)
    ensures Run(log, memo).coherent ==> memo.coherent
  {
    if |log| > 0 { RunDown(log[1..], Effect(log[0], memo)); }
  }

  /** No two sums of the log have one scale-free form but different base scales. */
  ghost predicate Consistent(log: seq<Step>) {
    forall i, j :: 0 <= i < j < |log| && log[i].Fused? && log[j].Fused? && log[i].key.form == log[j].key.form ==>
      log[i].key.base == log[j].key.base
  }

  ghost predicate AllMatch(log: seq<Step>, memo: Memo) {
    forall i :: 0 <= i < |log| && log[i].Fused? ==> Matches(log[i].key, memo)
  }

  /** Every division of the log has scale and divisor on one side. */
  ghost predicate SameSided(log: seq<Step>) {
    forall i :: 0 <= i < |log| && log[i].Divided? ==> SameSide(log[i].scale, log[i].c)
  }

  /** A run over the log stays coherent exactly when its sums agree with the memo and each other. */
  lemma {:induction false} RunCoherent(log: seq<Step>, memo: Memo)
    ensures Run(log, memo).coherent <==> memo.coherent && Consistent(log) && AllMatch(log, memo)
  {
    if |log| > 0 {
      var rest, memo' := log[1..], Effect(log[0], memo);
      RunCoherent(rest, memo');
      assert log == [log[0]] + rest;
      ConsistentCons(log[0], rest);
      if log[0].Fused? {
        FirstMatches(log[0].key, rest, memo);
      } else {
        assert AllMatch(log, memo) <==> AllMatch(rest, memo);
      }
    }
  }

  lemma {:induction false} ConsistentCons(step: Step, rest: seq<Step>)
    ensures Consistent([step] + rest) <==>
            Consistent(rest) && (step.Fused? ==> AllAgree(step.key, rest))
  {
    var log := [step] + rest;
    if Consistent(log) {
      forall i, j | 0 <= i < j < |rest| && rest[i].Fused? && rest[j].Fused? && rest[i].key.form == rest[j].key.form
        ensures rest[i].key.base == rest[j].key.base
      {
        assert log[i + 1] == rest[i] && log[j + 1] == rest[j];
      }
      if step.Fused? {
        forall j | 0 <= j < |rest| && rest[j].Fused? && rest[j].key.form == step.key.form
          ensures rest[j].key.base == step.key.base
        {
          assert log[0] == step && log[j + 1] == rest[j];
        }
      }
    }
  }

  /** Sums of the same form have the base scale of the key. */
  ghost predicate AllAgree(key: Fusion, log: seq<Step>) {
    forall j :: 0 <= j < |log| && log[j].Fused? && log[j].key.form == key.form ==> log[j].key.base == key.base
  }

  lemma {:induction false} FirstMatches(key: Fusion, rest: seq<Step>, memo: Memo)
    ensures var memo' := Remember(key, memo);
            memo'.coherent && AllMatch(rest, memo') && Consistent(rest) <==>
            memo.coherent && AllMatch([Fused(key)] + rest, memo) && AllAgree(key, rest) && Consistent(rest)
  {
    var memo', log := Remember(key, memo), [Fused(key)] + rest;
    assert AllMatch(log, memo) <==> Matches(key, memo) && AllMatch(rest, memo) by {
      assert log[0] == Fused(key);
      forall i | 0 <= i < |rest| ensures log[i + 1] == rest[i] {}
    }
    if key.form !in memo.fused {
      forall i | 0 <= i < |rest| && rest[i].Fused?
        ensures Matches(rest[i].key, memo') <==>
                Matches(rest[i].key, memo) && (rest[i].key.form == key.form ==> rest[i].key.base == key.base)
      {}
    }
  }

  lemma {:induction false} RunPositive(log: seq<Step>, memo: Memo)
    ensures Run(log, memo).positive <==> memo.positive && SameSided(log)
  {
    if |log| > 0 {
      var rest := log[1..];
      RunPositive(rest, Effect(log[0], memo));
      assert SameSided(log) <==> SameSided(rest) && (log[0].Divided? ==> SameSide(log[0].scale, log[0].c)) by {
        forall i | 0 <= i < |rest| ensures log[i + 1] == rest[i] {}
      }
    }
  }

  // ----- the memoised rewriter follows the reference -----------------------------------------

  function FormExtent(form: seq<Split>): int { if |form| == 0 then 0 else form[0].scale * form[0].extent }

  /** The extent of a fused mark is a matter of its form. */
  lemma {:induction false} KeyExtent(args: seq<Split>)
    requires FuseKey(args).Some?
    ensures FuseKey(args).value.extent == FormExtent(FuseKey(args).value.form)
  {
    FuseChoice(args);
    var baseIndex := SmallestScale(args, 0, 0);
    var base := args[baseIndex].scale;
    var p := PickChain(Scales(args), Extents(args), AllUnused(|args|), base, |args|, baseIndex).value;
    CanonicalAt(args, p.order, base, 0);
    ChainQuotient(args, p, base, |p.order| - 1);
  }

  /** Every entry is what fusing a sum of its form gives. */
  ghost predicate Genuine(memo: Memo) {
    forall form :: form in memo.fused ==>
      memo.fused[form] == FusedSplit(Fusion(form, memo.fused[form].scale, FormExtent(form)))
  }

  /** The memoised outcome is the reference's and the memo is that of its log, as long as this is
      coherent; and it is coherent exactly when that is. */
  ghost predicate Follows<T(!new)>(memo: Memo, out: (Option<T>, Memo), anew: (Option<T>, seq<Step>)) {
    && Genuine(out.1)
    && (out.1.coherent ==> memo.coherent)
    && (out.1.coherent <==> Run(anew.1, memo).coherent)
    && (out.1.coherent ==> out == (anew.0, Run(anew.1, memo)))
  }

  /** Two steps in sequence. */
  lemma {:induction false} InSequence<T(!new), U(!new)>(memo: Memo,
      first: (Option<T>, Memo), anew1: (Option<T>, seq<Step>), second: (Option<U>, Memo), anew2: (Option<U>, seq<Step>))
    requires Follows(memo, first, anew1) && Genuine(second.1) && (second.1.coherent ==> first.1.coherent)
    requires first.1.coherent ==> Follows(first.1, second, anew2)
    ensures Follows(memo, second, (anew2.0, anew1.1 + anew2.1))
  {
    RunAppend(anew1.1, anew2.1, memo);
    RunDown(anew2.1, Run(anew1.1, memo));
  }

  lemma {:induction false} FuseFollows(args: seq<Split>, memo: Memo)
    requires Genuine(memo)
    ensures Follows(memo, Fuse(args, memo), FuseAnew(args))
  {
    if FuseKey(args).Some? {
      var k := FuseKey(args).value;
      KeyExtent(args);
      RunOne(Fused(k), memo);
    }
  }

  lemma {:induction false} DivideFollows(a: IterExpr, c: int, memo: Memo, isDiv: bool)
    requires c != 0 && Genuine(memo)
    ensures Follows(memo, DivIter(a, c, memo, isDiv), DivideAnew(a, c, isDiv))
  {
    match a
    case Plain(_) =>
    case SplitExpr(s) =>
      RunOne(Divided(s.scale, c), memo);
    case SumExpr(args, base) =>
      if base == IntImm(0) {
        FuseFollows(args, memo);
        var (f, m1) := Fuse(args, memo);
        var (f0, log) := FuseAnew(args);
        if f.Some? && f0.Some? {
          RunOne(Divided(f0.value.scale, c), m1);
          var out := (Quotient(f.value, c, isDiv), Observe(m1, f.value.scale, c));
          InSequence(memo, (f, m1), (f0, log), out, (Quotient(f0.value, c, isDiv), [Divided(f0.value.scale, c)]));
        }
      }
  }

  lemma {:induction false} CombinedFollows(op: BinOp, a: IterExpr, b: IterExpr, memo: Memo)
    requires Genuine(memo)
    ensures Follows(memo, Combined(op, a, b, memo), CombinedAnew(op, a, b))
  {
    if IsDivision(op) && DivCases(a, b, op == FloorDivOp).DivideIter? {
      DivideFollows(a, DivCases(a, b, op == FloorDivOp).c, memo, op == FloorDivOp);
    }
  }

  /** Once the run is no longer coherent, it does not matter what follows. */
  lemma {:induction false} Lost<T(!new)>(memo: Memo, out: (Option<T>, Memo), anew: (Option<T>, seq<Step>),
      l1: seq<Step>)
    requires Genuine(out.1) && !out.1.coherent && !Run(l1, memo).coherent && l1 <= anew.1
    ensures Follows(memo, out, anew)
  {
    assert anew.1 == l1 + anew.1[|l1|..];
    RunAppend(l1, anew.1[|l1|..], memo);
    RunDown(anew.1[|l1|..], Run(l1, memo));
  }

  lemma {:induction false} MutateFollows(e: Expr, vars: map<nat, IterExpr>, memo: Memo)
    requires Genuine(memo)
    ensures Follows(memo, Mutate(e, vars, memo), MutateAnew(e, vars))
    decreases e, 1
  {
    match e
    case Var(v) =>
    case IntImm(_) =>
    case Bin(op, a, b) =>
      MutateBinFollows(e, vars, memo);
    case Not(a) =>
      MutateFollows(a, vars, memo);
    case Select(c, t, f) =>
      MutateSelectFollows(e, vars, memo);
  }

  lemma {:induction false} MutateBinFollows(e: Expr, vars: map<nat, IterExpr>, memo: Memo)
    requires Genuine(memo) && e.Bin?
    ensures Follows(memo, Mutate(e, vars, memo), MutateAnew(e, vars))
    decreases e, 0
  {
    MutateFollows(e.a, vars, memo);
    var (ra, m1) := Mutate(e.a, vars, memo);
    var (a0, l1) := MutateAnew(e.a, vars);
    MutateFollows(e.b, vars, m1);
    var (rb, m2) := Mutate(e.b, vars, m1);
    var (b0, l2) := MutateAnew(e.b, vars);
    InSequence(memo, (ra, m1), (a0, l1), (rb, m2), (b0, l2));
    if ra.Some? && rb.Some? { CombinedFollows(e.op, ra.value, rb.value, m2); }
    var out, anew := Mutate(e, vars, memo), MutateAnew(e, vars);
    if !m1.coherent {
      Lost(memo, out, anew, l1);
    } else if ra.Some? {
      if !m2.coherent {
        Lost(memo, out, anew, l1 + l2);
      } else if rb.Some? {
        InSequence(memo, (rb, m2), (b0, l1 + l2), out, CombinedAnew(e.op, ra.value, rb.value));
      }
    }
  }

  lemma {:induction false} MutateSelectFollows(e: Expr, vars: map<nat, IterExpr>, memo: Memo)
    requires Genuine(memo) && e.Select?
    ensures Follows(memo, Mutate(e, vars, memo), MutateAnew(e, vars))
    decreases e, 0
  {
    MutateFollows(e.cond, vars, memo);
    var (rc, m1) := Mutate(e.cond, vars, memo);
    var (c0, l1) := MutateAnew(e.cond, vars);
    MutateFollows(e.onTrue, vars, m1);
    var (rt, m2) := Mutate(e.onTrue, vars, m1);
    var (t0, l2) := MutateAnew(e.onTrue, vars);
    InSequence(memo, (rc, m1), (c0, l1), (rt, m2), (t0, l2));
    MutateFollows(e.onFalse, vars, m2);
    var (rf, m3) := Mutate(e.onFalse, vars, m2);
    var (f0, l3) := MutateAnew(e.onFalse, vars);
    InSequence(memo, (rt, m2), (t0, l1 + l2), (rf, m3), (f0, l3));
    assert Mutate(e, vars, memo) == Selected((rc, m1), (rt, m2), (rf, m3));
    SelectedFollows(memo, (rc, m1), (rt, m2), (rf, m3), (c0, l1), (t0, l2), (f0, l3));
  }

  /** The same with memos. */
  function Selected(c: (Option<IterExpr>, Memo), t: (Option<IterExpr>, Memo), f: (Option<IterExpr>, Memo)):
      (Option<IterExpr>, Memo)
  {
    if c.0.None? || !c.0.value.Plain? then (None, c.1)
    else if t.0.None? || !t.0.value.Plain? then (None, t.1)
    else if f.0.None? || !f.0.value.Plain? then (None, f.1)
    else (Some(Plain(Select(c.0.value.e, t.0.value.e, f.0.value.e))), f.1)
  }

  lemma {:induction false} SelectedFollows(memo: Memo, c: (Option<IterExpr>, Memo), t: (Option<IterExpr>, Memo),
      f: (Option<IterExpr>, Memo), c0: (Option<IterExpr>, seq<Step>), t0: (Option<IterExpr>, seq<Step>),
      f0: (Option<IterExpr>, seq<Step>))
    requires Follows(memo, c, c0) && Follows(memo, t, (t0.0, c0.1 + t0.1)) &&
             Follows(memo, f, (f0.0, c0.1 + t0.1 + f0.1))
    requires (f.1.coherent ==> t.1.coherent) && (t.1.coherent ==> c.1.coherent)
    ensures Follows(memo, Selected(c, t, f), SelectedAnew(c0, t0, f0))
  {
    if !c.1.coherent {
      Lost(memo, Selected(c, t, f), SelectedAnew(c0, t0, f0), c0.1);
    } else if c.0.Some? && c.0.value.Plain? && !t.1.coherent {
      Lost(memo, Selected(c, t, f), SelectedAnew(c0, t0, f0), c0.1 + t0.1);
    }
  }

  lemma {:induction false} NormalizedFollows(sum: IterSum, memo: Memo)
    requires Genuine(memo)
    ensures Follows(memo, Normalized(sum, memo), NormalizedAnew(sum))
  {
    FuseFollows(sum.args, memo);
  }

  lemma {:induction false} RewriteFollows(e: Expr, vars: map<nat, IterExpr>, memo: Memo)
    requires Genuine(memo)
    ensures Follows(memo, Rewrite(e, vars, memo), RewriteAnew(e, vars))
  {
    MutateFollows(e, vars, memo);
    var (r, m1) := Mutate(e, vars, memo);
    var (r0, l1) := MutateAnew(e, vars);
    if r.Some? { NormalizedFollows(AsSum(r.value), m1); }
    if !m1.coherent {
      Lost(memo, Rewrite(e, vars, memo), RewriteAnew(e, vars), l1);
    } else if r.Some? {
      InSequence(memo, (r, m1), (r0, l1), Normalized(AsSum(r.value), m1), NormalizedAnew(AsSum(r.value)));
    }
  }

  lemma {:induction false} RewriteAllFollows(es: seq<Expr>, vars: map<nat, IterExpr>, memo: Memo)
    requires Genuine(memo)
    ensures Follows(memo, RewriteAll(es, vars, memo), RewriteAllAnew(es, vars))
    decreases |es|
  {
    if |es| > 0 {
      RewriteFollows(es[0], vars, memo);
      var (r, m1) := Rewrite(es[0], vars, memo);
      var (r0, l1) := RewriteAnew(es[0], vars);
      RewriteAllFollows(es[1..], vars, m1);
      var (rest, m2) := RewriteAll(es[1..], vars, m1);
      var (rest0, l2) := RewriteAllAnew(es[1..], vars);
      InSequence(memo, (r, m1), (r0, l1), (rest, m2), (rest0, l2));
      if !m1.coherent {
        Lost(memo, RewriteAll(es, vars, memo), RewriteAllAnew(es, vars), l1);
      }
    }
  }

  /** The steps of rewriting the indices without a memo. */
  function Steps(indices: seq<Expr>, inputs: seq<Input>): seq<Step> { RewriteAllAnew(indices, VarMap(inputs)).1 }

  /** Sums of one scale-free form have one base scale. */
  ghost predicate ScalesAgree(indices: seq<Expr>, inputs: seq<Input>) { Consistent(Steps(indices, inputs)) }

  /** And no division changes the side. */
  ghost predicate Regular(indices: seq<Expr>, inputs: seq<Input>) {
    ScalesAgree(indices, inputs) && SameSided(Steps(indices, inputs))
  }

  /** The memo answers every sum of the indices with the scale it asked for exactly when sums of
      one scale-free form have one base scale. Then the result is that of the reference, and every
      division is on one side exactly when those of the reference are. */
  lemma {:induction false} MemoExact(indices: seq<Expr>, inputs: seq<Input>)
    ensures var (r, memo) := RewriteAll(indices, VarMap(inputs), NoMemo);
            && (memo.coherent <==> ScalesAgree(indices, inputs))
            && (memo.coherent && memo.positive <==> Regular(indices, inputs))
            && (ScalesAgree(indices, inputs) ==> r == RewriteAllAnew(indices, VarMap(inputs)).0)
  {
    RewriteAllFollows(indices, VarMap(inputs), NoMemo);
    RunCoherent(Steps(indices, inputs), NoMemo);
    RunPositive(Steps(indices, inputs), NoMemo);
  }
}
