/** What a successful DetectIterMap (src/arith/iter_affine_map.cc) means, in terms of its input:
    the indices, the iterators and the steps of the memo-free reference. */
module IterMapSound {
  import opened PrimExprs
  import opened Wrappers
  import opened IterMap
  import opened IterMapBijection
  import opened IterMapDetect
  import opened IterMapReference
  import opened IterMapPositive

  // ----- the parts that are not iterated -----------------------------------------------------

  /** The base of a rewritten expression mentions no iterator. */
  ghost predicate Based(r: IterExpr, iters: set<nat>) { FreeVars(AsSum(r).base) !! iters }

  lemma {:induction false} FoldedVars(a: Expr, b: Expr)
    ensures FreeVars(Plus(a, b)) <= FreeVars(a) + FreeVars(b) && FreeVars(Minus(a, b)) <= FreeVars(a) + FreeVars(b)
    ensures FreeVars(FoldMul(a, b)) <= FreeVars(a) + FreeVars(b)
  {}

  lemma {:induction false} AddBased(a: IterExpr, b: IterExpr, iters: set<nat>)
    requires Based(a, iters) && Based(b, iters)
    ensures Based(VisitAdd(a, b), iters) && Based(VisitSub(a, b), iters)
  {
    AddItersBased(a, b, 1, iters);
    AddItersBased(a, b, -1, iters);
  }

  lemma {:induction false} AddItersBased(a: IterExpr, b: IterExpr, sign: int, iters: set<nat>)
    requires Based(a, iters) && Based(b, iters)
    ensures Based(AddIters(a, b, sign), iters)
  {
    var x, y := AsSum(a).base, AsSum(b).base;
    FoldedVars(x, y);
    assert FreeVars(AsSum(AddIters(a, b, sign)).base) <= FreeVars(x) + FreeVars(y);
  }

  lemma {:induction false} MulIterBased(a: IterExpr, c: int, iters: set<nat>)
    requires Based(a, iters)
    ensures Based(MulIter(a, c), iters)
  {
    FoldedVars(AsSum(a).base, IntImm(c));
  }

  lemma {:induction false} MulBased(a: IterExpr, b: IterExpr, iters: set<nat>)
    requires Based(a, iters) && Based(b, iters) && VisitMul(a, b).Some?
    ensures Based(VisitMul(a, b).value, iters)
  {
    if IsLiteral(b) { MulIterBased(a, b.e.value, iters); }
    if IsLiteral(a) { MulIterBased(b, a.e.value, iters); }
  }

  lemma {:induction false} DirectBased(op: BinOp, a: IterExpr, b: IterExpr, iters: set<nat>)
    requires Based(a, iters) && Based(b, iters) && Direct(op, a, b).Some?
    ensures Based(Direct(op, a, b).value, iters)
  {
    if op == Add || op == Sub {
      AddBased(a, b, iters);
    } else if op == Mul {
      MulBased(a, b, iters);
    }
  }

  lemma {:induction false} CombinedBased(op: BinOp, a: IterExpr, b: IterExpr, memo: Memo, iters: set<nat>)
    requires Based(a, iters) && Based(b, iters) && Combined(op, a, b, memo).0.Some?
    ensures Based(Combined(op, a, b, memo).0.value, iters)
  {
    if !IsDivision(op) { DirectBased(op, a, b, iters); }
  }

  lemma {:induction false} MutateBased(e: Expr, vars: map<nat, IterExpr>, memo: Memo)
    requires forall v :: v in vars ==> Based(vars[v], vars.Keys)
    ensures var r := Mutate(e, vars, memo).0; r.Some? ==> Based(r.value, vars.Keys)
    decreases e, 1
  {
    match e
    case Var(v) =>
    case IntImm(_) =>
    case Bin(op, a, b) =>
      MutateBased(a, vars, memo);
      var (ra, m1) := Mutate(a, vars, memo);
      if ra.Some? {
        MutateBased(b, vars, m1);
        var (rb, m2) := Mutate(b, vars, m1);
        if rb.Some? && Combined(op, ra.value, rb.value, m2).0.Some? {
          CombinedBased(op, ra.value, rb.value, m2, vars.Keys);
        }
      }
    case Not(a) =>
      MutateBased(a, vars, memo);
    case Select(c, t, f) =>
      MutateSelectBased(e, vars, memo);
  }

  lemma {:induction false} MutateSelectBased(e: Expr, vars: map<nat, IterExpr>, memo: Memo)
    requires e.Select? && forall v :: v in vars ==> Based(vars[v], vars.Keys)
    ensures var r := Mutate(e, vars, memo).0; r.Some? ==> Based(r.value, vars.Keys)
    decreases e, 0
  {
    MutateBased(e.cond, vars, memo);
    var (rc, m1) := Mutate(e.cond, vars, memo);
    if rc.Some? && rc.value.Plain? {
      MutateBased(e.onTrue, vars, m1);
      var (rt, m2) := Mutate(e.onTrue, vars, m1);
      if rt.Some? && rt.value.Plain? {
        MutateBased(e.onFalse, vars, m2);
        var rf := Mutate(e.onFalse, vars, m2).0;
        assert rf.Some? && rf.value.Plain? ==>
                 Mutate(e, vars, memo).0 == Some(Plain(Select(rc.value.e, rt.value.e, rf.value.e)));
      }
    }
  }

  lemma {:induction false} RewriteAllBased(es: seq<Expr>, vars: map<nat, IterExpr>, memo: Memo)
    requires forall v :: v in vars ==> Based(vars[v], vars.Keys)
    ensures var r := RewriteAll(es, vars, memo).0;
            r.Some? ==> forall k :: 0 <= k < |r.value| ==> FreeVars(r.value[k].base) !! vars.Keys
    decreases |es|
  {
    if |es| > 0 {
      MutateBased(es[0], vars, memo);
      RewriteAllBased(es[1..], vars, Rewrite(es[0], vars, memo).1);
    }
  }

  lemma {:induction false} VarMapBased(inputs: seq<Input>, v: nat, iters: set<nat>)
    requires v in VarMap(inputs)
    ensures Based(VarMap(inputs)[v], iters)
  {
    if inputs[|inputs| - 1].v != v { VarMapBased(inputs[..|inputs| - 1], v, iters); }
  }

  /** The bases of a detection mention no iterator. */
  lemma {:induction false} DetectedBases(indices: seq<Expr>, inputs: seq<Input>)
    ensures var r := Detect(indices, inputs).0;
            forall k :: 0 <= k < |r| ==> FreeVars(r[k].base) !! Iterators(inputs)
  {
    var vars := VarMap(inputs);
    VarMapKeys(inputs);
    forall v | v in vars ensures Based(vars[v], vars.Keys) { VarMapBased(inputs, v, vars.Keys); }
    RewriteAllBased(indices, vars, NoMemo);
  }

  // ----- one expression ----------------------------------------------------------------------

  /** The steps agree with the memo and with each other, and no division changes the side. */
  ghost predicate RegularFrom(log: seq<Step>, fused: map<seq<Split>, Split>) {
    Consistent(log) && AllMatch(log, Memo(fused, true, true)) && SameSided(log)
  }

  /** A well-formed memo of fused sums. */
  ghost predicate MemoSound(fused: map<seq<Split>, Split>, inputs: seq<Input>) {
    MemoOk(Memo(fused, true, true), inputs) && Genuine(Memo(fused, true, true))
  }

  lemma {:induction false} RegularRun(log: seq<Step>, fused: map<seq<Split>, Split>)
    requires RegularFrom(log, fused)
    ensures Run(log, Memo(fused, true, true)).coherent && Run(log, Memo(fused, true, true)).positive
  {
    RunCoherent(log, Memo(fused, true, true));
    RunPositive(log, Memo(fused, true, true));
  }

  /** Each visitor computes its operator on the values of its operands, if its own steps are
      regular. */
  lemma {:induction false} CombinedSound(op: BinOp, a: IterExpr, b: IterExpr, fused: map<seq<Split>, Split>,
      inputs: seq<Input>, env: Env)
    requires MemoSound(fused, inputs) && IterOk(a, inputs) && IterOk(b, inputs) && InBox(inputs, env)
    requires RegularFrom(CombinedAnew(op, a, b).1, fused)
    ensures var r := Combined(op, a, b, Memo(fused, true, true)).0;
            r.Some? ==>
              IterOk(r.value, inputs) && IterValue(r.value, env) == EvalBin(op, IterValue(a, env), IterValue(b, env))
  {
    var memo := Memo(fused, true, true);
    RegularRun(CombinedAnew(op, a, b).1, fused);
    CombinedFollows(op, a, b, memo);
    CombinedObserved(op, a, b, memo, inputs, env, IterValue(a, env), IterValue(b, env));
  }

  /** Rewriting keeps the value of every expression on the iteration box, if its steps are regular. */
  lemma {:induction false} MutateSound(e: Expr, inputs: seq<Input>, fused: map<seq<Split>, Split>, env: Env)
    requires InputsOk(inputs) && MemoSound(fused, inputs) && InBox(inputs, env)
    requires RegularFrom(MutateAnew(e, VarMap(inputs)).1, fused)
    ensures var r := Mutate(e, VarMap(inputs), Memo(fused, true, true)).0;
            r.Some? ==> IterOk(r.value, inputs) && IterValue(r.value, env) == Eval(e, env)
  {
    var memo := Memo(fused, true, true);
    RegularRun(MutateAnew(e, VarMap(inputs)).1, fused);
    MutateFollows(e, VarMap(inputs), memo);
    MutateObserved(e, inputs, memo, env);
  }

  /** A rewritten index is at most one split and a base, with the value of the index. */
  lemma {:induction false} RewriteSound(e: Expr, inputs: seq<Input>, fused: map<seq<Split>, Split>, env: Env)
    requires InputsOk(inputs) && MemoSound(fused, inputs) && InBox(inputs, env)
    requires RegularFrom(RewriteAnew(e, VarMap(inputs)).1, fused)
    ensures var r := Rewrite(e, VarMap(inputs), Memo(fused, true, true)).0;
            r.Some? ==>
              |r.value.args| <= 1 && SplitsOk(r.value.args, inputs) && SumValue(r.value, env) == Eval(e, env)
  {
    var memo := Memo(fused, true, true);
    RegularRun(RewriteAnew(e, VarMap(inputs)).1, fused);
    RewriteFollows(e, VarMap(inputs), memo);
    RewriteObserved(e, inputs, memo, env);
  }

  // ----- detection ---------------------------------------------------------------------------

  /** On the iteration box the sums have the values of the indices. */
  ghost predicate SameValues(indices: seq<Expr>, r: seq<IterSum>, inputs: seq<Input>) {
    |r| == |indices| &&
    forall k, env: Env :: 0 <= k < |r| && InBox(inputs, env) ==> SumValue(r[k], env) == Eval(indices[k], env)
  }

  /** Positive factors and agreeing scales make the indices regular. */
  lemma {:induction false} PositiveRegular(indices: seq<Expr>, inputs: seq<Input>)
    requires AllPositive(indices, inputs) && ScalesAgree(indices, inputs)
    ensures Regular(indices, inputs)
  {
    PositiveRun(indices, inputs);
    MemoExact(indices, inputs);
  }

  /** DetectIterMap: an accepted result has at most one split per index. Its digits are a bijection
      from the iteration box if all factors are positive, or if the indices are regular; and for
      regular indices it has their values. */
  lemma {:induction false} DetectSound(indices: seq<Expr>, inputs: seq<Input>)
    requires InputsOk(inputs) && DistinctInputs(inputs)
    ensures var r := Detect(indices, inputs).0;
            r != [] ==>
              && |r| == |indices| && (forall k :: 0 <= k < |r| ==> |r[k].args| <= 1)
              && (AllPositive(indices, inputs) || Regular(indices, inputs) ==> DigitBijection(r, inputs))
              && (Regular(indices, inputs) ==> SameValues(indices, r, inputs))
  {
    DetectObserved(indices, inputs);
    MemoExact(indices, inputs);
    if AllPositive(indices, inputs) { PositiveRun(indices, inputs); }
  }

  // ----- do the indices tell the points apart? -----------------------------------------------

  /** The valuations differ at most at the iterators. */
  ghost predicate SameOutside(inputs: seq<Input>, env: Env, env': Env) {
    forall v: nat :: v !in Iterators(inputs) ==> Get(env, v) == Get(env', v)
  }

  ghost predicate SameIndices(indices: seq<Expr>, env: Env, env': Env) {
    forall k :: 0 <= k < |indices| ==> Eval(indices[k], env) == Eval(indices[k], env')
  }

  /** Different points of the box have different indices. */
  ghost predicate Injective(indices: seq<Expr>, inputs: seq<Input>) {
    forall env: Env, env': Env ::
      InBox(inputs, env) && InBox(inputs, env') && SameOutside(inputs, env, env') && SameIndices(indices, env, env') ==>
      SameInputs(inputs, env, env')
  }

  /** No index multiplies its iterator by 0, unless that has one value only. */
  ghost predicate NonzeroScales(r: seq<IterSum>) {
    forall k :: 0 <= k < |r| && |r[k].args| == 1 && r[k].args[0].extent > 1 ==> r[k].args[0].scale != 0
  }

  lemma {:induction false} SameBase(s: IterSum, inputs: seq<Input>, env: Env, env': Env)
    requires FreeVars(s.base) !! Iterators(inputs) && SameOutside(inputs, env, env')
    ensures Eval(s.base, env) == Eval(s.base, env')
  {
    EvalAgree(s.base, env, env');
  }

  lemma {:induction false} SumOfDigit(s: IterSum, env: Env)
    requires |s.args| <= 1
    ensures SumValue(s, env) == Eval(s.base, env) +
            if |s.args| == 1 then SplitDigit(s.args[0], env) * s.args[0].scale else 0
  {
    if |s.args| == 1 {
      assert s.args == [s.args[0]];
      SingleSplit(s.args[0], env);
    }
  }

  /** The indices agree on two points where digits times scales do, and where all scales are nonzero
      only there. */
  lemma {:induction false} IndexAgrees(indices: seq<Expr>, r: seq<IterSum>, inputs: seq<Input>, k: nat, env: Env,
      env': Env)
    requires SameValues(indices, r, inputs) && k < |r| && |r[k].args| <= 1 && FreeVars(r[k].base) !! Iterators(inputs)
    requires InBox(inputs, env) && InBox(inputs, env') && SameOutside(inputs, env, env')
    ensures Eval(indices[k], env) == Eval(indices[k], env') <==>
            IndexDigit(r, k, env) == IndexDigit(r, k, env') || (|r[k].args| == 1 && r[k].args[0].scale == 0)
  {
    SameBase(r[k], inputs, env, env');
    SumOfDigit(r[k], env);
    SumOfDigit(r[k], env');
    assert SumValue(r[k], env) == Eval(indices[k], env) && SumValue(r[k], env') == Eval(indices[k], env');
    if |r[k].args| == 1 {
      ScaledAgree(Eval(r[k].base, env), SplitDigit(r[k].args[0], env), SplitDigit(r[k].args[0], env'),
          r[k].args[0].scale);
    }
  }

  lemma {:induction false} ScaledAgree(base: int, d: int, d': int, scale: int)
    ensures base + d * scale == base + d' * scale <==> d == d' || scale == 0
  {
    ProductsDiffer(scale, d, d');
  }

  lemma {:induction false} NonzeroInjective(indices: seq<Expr>, r: seq<IterSum>, inputs: seq<Input>)
    requires SameValues(indices, r, inputs) && DigitBijection(r, inputs) && NonzeroScales(r)
    requires forall k :: 0 <= k < |r| ==> |r[k].args| <= 1 && FreeVars(r[k].base) !! Iterators(inputs)
    ensures Injective(indices, inputs)
  {
    forall env: Env, env': Env | InBox(inputs, env) && InBox(inputs, env') && SameOutside(inputs, env, env') &&
                                 SameIndices(indices, env, env')
      ensures SameInputs(inputs, env, env')
    {
      forall k | 0 <= k < |r| ensures IndexDigit(r, k, env) == IndexDigit(r, k, env') {
        IndexAgrees(indices, r, inputs, k, env, env');
        assert 0 <= IndexDigit(r, k, env) < IndexExtent(r, k) && 0 <= IndexDigit(r, k, env') < IndexExtent(r, k);
      }
      assert SameDigits(r, env, env');
    }
  }

  // ----- digits read only the iterators ------------------------------------------------------

  lemma {:induction false} MarkReads(m: Mark, inputs: seq<Input>, env: Env, env': Env)
    requires MarkOk(m, inputs) && SameInputs(inputs, env, env')
    ensures MarkValue(m, env) == MarkValue(m, env')
    decreases m, 0
  {
    match m
    case InputMark(v, min, extent) =>
      var i :| 0 <= i < |inputs| && inputs[i] == Input(v, min, extent);
    case FusedMark(args, _) =>
      SplitsRead(args, inputs, env, env');
  }

  lemma {:induction false} SplitReads(s: Split, inputs: seq<Input>, env: Env, env': Env)
    requires SplitOk(s, inputs) && SameInputs(inputs, env, env')
    ensures SplitDigit(s, env) == SplitDigit(s, env')
    decreases s, 0
  {
    MarkReads(s.source, inputs, env, env');
  }

  lemma {:induction false} SplitsRead(args: seq<Split>, inputs: seq<Input>, env: Env, env': Env)
    requires SplitsOk(args, inputs) && SameInputs(inputs, env, env')
    ensures SplitsValue(args, env) == SplitsValue(args, env')
    decreases args, 0
  {
    if |args| > 0 {
      assert SplitOk(args[0], inputs);
      SplitReads(args[0], inputs, env, env');
      forall i | 0 <= i < |args[1..]| ensures SplitOk(args[1..][i], inputs) { assert SplitOk(args[i + 1], inputs); }
      SplitsRead(args[1..], inputs, env, env');
    }
  }

  /** The valuation at the iterators only. */
  function AtIterators(inputs: seq<Input>, env: Env): (r: Env)
    ensures SameInputs(inputs, env, r) && forall v: nat :: v !in Iterators(inputs) ==> Get(r, v) == 0
  {
    map v | v in Iterators(inputs) :: Get(env, v)
  }

  /** Every tuple of digits is reached by a valuation that is 0 outside the iterators. */
  lemma {:induction false} Reached(r: seq<IterSum>, inputs: seq<Input>, d: seq<int>) returns (env: Env)
    requires IndicesOk(r, inputs) && DigitBijection(r, inputs) && IndexDigitsIn(r, d)
    ensures InBox(inputs, env) && HasDigits(r, env, d) && forall v: nat :: v !in Iterators(inputs) ==> Get(env, v) == 0
  {
    var env0: Env :| InBox(inputs, env0) && HasDigits(r, env0, d);
    env := AtIterators(inputs, env0);
    forall k | 0 <= k < |r| ensures IndexDigit(r, k, env) == d[k] {
      if |r[k].args| == 1 {
        assert SplitOk(r[k].args[0], inputs);
        SplitReads(r[k].args[0], inputs, env0, env);
      }
    }
  }

  /** A zero scale loses a digit: two points differ in that digit only. */
  lemma {:induction false} ZeroScaleLoses(indices: seq<Expr>, r: seq<IterSum>, inputs: seq<Input>, k: nat)
    requires IndicesOk(r, inputs) && SameValues(indices, r, inputs) && DigitBijection(r, inputs)
    requires forall j :: 0 <= j < |r| ==> FreeVars(r[j].base) !! Iterators(inputs)
    requires k < |r| && |r[k].args| == 1 && r[k].args[0].extent > 1 && r[k].args[0].scale == 0
    ensures !Injective(indices, inputs)
  {
    var zero := seq(|r|, _ => 0);
    var one := zero[k := 1];
    forall j | 0 <= j < |r| ensures IndexExtent(r, j) > 0 {
      if |r[j].args| == 1 { assert SplitOk(r[j].args[0], inputs); }
    }
    var env := Reached(r, inputs, zero);
    var env' := Reached(r, inputs, one);
    forall j | 0 <= j < |indices| ensures Eval(indices[j], env) == Eval(indices[j], env') {
      IndexAgrees(indices, r, inputs, j, env, env');
    }
    assert IndexDigit(r, k, env) == zero[k] && IndexDigit(r, k, env') == one[k];
    assert SplitOk(r[k].args[0], inputs);
    if SameInputs(inputs, env, env') { SplitReads(r[k].args[0], inputs, env, env'); }
    assert SameIndices(indices, env, env') && SameOutside(inputs, env, env');
  }

  /** For regular indices that are accepted, the indices tell the points of the box apart exactly
      when the reference multiplies no iterator by 0. */
  lemma {:induction false} InjectiveExact(indices: seq<Expr>, inputs: seq<Input>)
    requires InputsOk(inputs) && DistinctInputs(inputs) && Detect(indices, inputs).0 != [] && Regular(indices, inputs)
    ensures var anew := RewriteAllAnew(indices, VarMap(inputs)).0;
            anew.Some? && (Injective(indices, inputs) <==> NonzeroScales(anew.value))
  {
    DetectSound(indices, inputs);
    DetectObserved(indices, inputs);
    MemoExact(indices, inputs);
    DetectedBases(indices, inputs);
    var r := Detect(indices, inputs).0;
    if NonzeroScales(r) {
      NonzeroInjective(indices, r, inputs);
    } else {
      var k :| 0 <= k < |r| && |r[k].args| == 1 && r[k].args[0].extent > 1 && r[k].args[0].scale == 0;
      ZeroScaleLoses(indices, r, inputs, k);
    }
  }

  /** Accepted indices with positive factors and agreeing scales tell all points of the box apart. */
  lemma {:induction false} IndicesInjective(indices: seq<Expr>, inputs: seq<Input>)
    requires InputsOk(inputs) && DistinctInputs(inputs) && Detect(indices, inputs).0 != []
    requires AllPositive(indices, inputs) && ScalesAgree(indices, inputs)
    ensures Injective(indices, inputs)
  {
    PositiveRegular(indices, inputs);
    InjectiveExact(indices, inputs);
    PositiveRun(indices, inputs);
    MemoExact(indices, inputs);
    var r := RewriteAllAnew(indices, VarMap(inputs)).0.value;
    forall k | 0 <= k < |r| && |r[k].args| == 1 ensures r[k].args[0].scale != 0 { assert AllScaled(r[k].args); }
  }
}
