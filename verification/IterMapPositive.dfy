/** Index expressions with positive multipliers and divisors and without subtracted iterators:
    the rewriter of src/arith/iter_affine_map.cc then keeps all scales positive. */
module IterMapPositive {
  import opened IntOperator
  import opened PrimExprs
  import opened Wrappers
  import opened IterMap
  import opened IterMapDetect

  /** What an operator asks of its operands: no iterator is subtracted, and an iterator is only
      multiplied by something iterator-free that is not negative and divided by something
      iterator-free that is positive. A symbolic factor is refused by the rewriter anyway. */
  predicate OperandsPositive(op: BinOp, a: Expr, b: Expr, iters: set<nat>) {
    match op
    case Sub => FreeVars(b) !! iters
    case Mul =>
      || (FreeVars(a) !! iters && FreeVars(b) !! iters)
      || (FreeVars(a) !! iters && Eval(a, map[]) >= 0)
      || (FreeVars(b) !! iters && Eval(b, map[]) >= 0)
    case FloorDivOp => FreeVars(a) !! iters || (FreeVars(b) !! iters && Eval(b, map[]) > 0)
    case FloorModOp => FreeVars(a) !! iters || (FreeVars(b) !! iters && Eval(b, map[]) > 0)
    case _ => true
  }

  predicate PositiveFactors(e: Expr, iters: set<nat>) {
    match e
    case Var(_) => true
    case IntImm(_) => true
    case Bin(op, a, b) => PositiveFactors(a, iters) && PositiveFactors(b, iters) && OperandsPositive(op, a, b, iters)
    case Not(a) => PositiveFactors(a, iters)
    case Select(c, t, f) => PositiveFactors(c, iters) && PositiveFactors(t, iters) && PositiveFactors(f, iters)
  }

  function Iterators(inputs: seq<Input>): set<nat> { set i | 0 <= i < |inputs| :: inputs[i].v }

  predicate AllPositive(indices: seq<Expr>, inputs: seq<Input>) {
    forall k :: 0 <= k < |indices| ==> PositiveFactors(indices[k], Iterators(inputs))
  }

  lemma {:induction false} VarMapKeys(inputs: seq<Input>)
    ensures VarMap(inputs).Keys == Iterators(inputs)
  {
    if |inputs| > 0 {
      var n := |inputs| - 1;
      VarMapKeys(inputs[..n]);
      assert Iterators(inputs) == Iterators(inputs[..n]) + {inputs[n].v} by {
        forall v | v in Iterators(inputs) ensures v in Iterators(inputs[..n]) + {inputs[n].v} {
          var i :| 0 <= i < |inputs| && inputs[i].v == v;
          if i < n { assert inputs[..n][i].v == v; }
        }
        forall v | v in Iterators(inputs[..n]) ensures v in Iterators(inputs) {
          var i :| 0 <= i < n && inputs[..n][i].v == v;
          assert inputs[i].v == v;
        }
      }
    }
  }

  // ----- expressions without iterators -------------------------------------------------------

  ghost predicate SamePlain(r: IterExpr, e: Expr, env: Env) { r.Plain? && Eval(r.e, env) == Eval(e, env) }

  /** An expression without iterators stays plain and keeps its value. */
  lemma {:induction false} PlainMutate(e: Expr, vars: map<nat, IterExpr>, memo: Memo, env: Env)
    requires FreeVars(e) !! vars.Keys
    ensures var (r, memo') := Mutate(e, vars, memo);
            memo' == memo && (r.Some? ==> SamePlain(r.value, e, env))
    decreases e, 1
  {
    match e
    case Var(v) =>
      assert v in FreeVars(e);
    case IntImm(_) =>
    case Bin(op, a, b) =>
      PlainMutateBin(e, vars, memo, env);
    case Not(a) =>
      PlainMutate(a, vars, memo, env);
    case Select(c, t, f) =>
      PlainMutateSelect(e, vars, memo, env);
  }

  lemma {:induction false} PlainMutateSelect(e: Expr, vars: map<nat, IterExpr>, memo: Memo, env: Env)
    requires FreeVars(e) !! vars.Keys && e.Select?
    ensures var (r, memo') := Mutate(e, vars, memo);
            memo' == memo && (r.Some? ==> SamePlain(r.value, e, env))
    decreases e, 0
  {
    PlainMutate(e.cond, vars, memo, env);
    var (rc, m1) := Mutate(e.cond, vars, memo);
    if rc.Some? {
      PlainMutate(e.onTrue, vars, m1, env);
      var (rt, m2) := Mutate(e.onTrue, vars, m1);
      if rt.Some? {
        PlainMutate(e.onFalse, vars, m2, env);
        var (rf, m3) := Mutate(e.onFalse, vars, m2);
        assert rf.Some? ==>
                 Mutate(e, vars, memo) == (Some(Plain(Select(rc.value.e, rt.value.e, rf.value.e))), memo);
      }
    }
  }

  lemma {:induction false} PlainMutateBin(e: Expr, vars: map<nat, IterExpr>, memo: Memo, env: Env)
    requires FreeVars(e) !! vars.Keys && e.Bin?
    ensures var (r, memo') := Mutate(e, vars, memo);
            memo' == memo && (r.Some? ==> SamePlain(r.value, e, env))
    decreases e, 0
  {
    PlainMutate(e.a, vars, memo, env);
    PlainMutate(e.b, vars, memo, env);
    var ra, rb := Mutate(e.a, vars, memo).0, Mutate(e.b, vars, memo).0;
    if ra.Some? && rb.Some? { PlainCombined(e.op, ra.value.e, rb.value.e, memo, env); }
  }

  lemma {:induction false} PlainCombined(op: BinOp, a: Expr, b: Expr, memo: Memo, env: Env)
    ensures var (r, memo') := Combined(op, Plain(a), Plain(b), memo);
            memo' == memo && (r.Some? ==> SamePlain(r.value, Bin(op, a, b), env))
  {
    if IsDivision(op) {
      var y := Eval(b, env);
      if y != 0 { TruncDivExact(0, y); }
      TruncDivExact(Eval(a, env), 1);
    }
  }

  // ----- positive scales ---------------------------------------------------------------------

  ghost predicate AllScaled(args: seq<Split>) { forall i :: 0 <= i < |args| ==> args[i].scale > 0 }

  ghost predicate Scaled(r: IterExpr) { AllScaled(AsSum(r).args) }

  ghost predicate MemoScaled(memo: Memo) { forall form :: form in memo.fused ==> memo.fused[form].scale > 0 }

  /** The outcome has positive scales only, and no division changed the side. */
  ghost predicate StaysPositive(memo: Memo, out: (Option<IterExpr>, Memo)) {
    out.1.positive == memo.positive && MemoScaled(out.1) && (out.0.Some? ==> Scaled(out.0.value))
  }

  lemma {:induction false} FusePositive(args: seq<Split>, memo: Memo)
    requires AllScaled(args) && MemoScaled(memo)
    ensures var (r, memo') := Fuse(args, memo);
            memo'.positive == memo.positive && MemoScaled(memo') && (r.Some? ==> r.value.scale > 0)
  {}

  lemma {:induction false} QuotientPositive(s: Split, c: int, isDiv: bool)
    requires s.scale > 0 && c > 0
    ensures SameSide(s.scale, c) && (Quotient(s, c, isDiv).Some? ==> Scaled(Quotient(s, c, isDiv).value))
  {
    if c != 1 && TruncMod(s.scale, c) == 0 { ExactFactor(s.scale, c); }
  }

  lemma {:induction false} DivIterPositive(a: IterExpr, c: int, memo: Memo, isDiv: bool)
    requires Scaled(a) && c > 0 && MemoScaled(memo)
    ensures StaysPositive(memo, DivIter(a, c, memo, isDiv))
  {
    match a
    case Plain(_) =>
    case SplitExpr(s) =>
      assert AsSum(a).args[0] == s;
      QuotientPositive(s, c, isDiv);
    case SumExpr(args, base) =>
      if base == IntImm(0) {
        FusePositive(args, memo);
        var fused := Fuse(args, memo).0;
        if fused.Some? { QuotientPositive(fused.value, c, isDiv); }
      }
  }

  lemma {:induction false} AddSplitPositive(args: seq<Split>, s: Split, i: nat)
    requires i <= |args| && AllScaled(args) && s.scale > 0
    ensures AllScaled(AddSplit(args, s, 1, i))
    decreases |args| - i
  {
    if i < |args| && !SameSplit(args[i], s) { AddSplitPositive(args, s, i + 1); }
  }

  lemma {:induction false} AddSplitsPositive(args: seq<Split>, more: seq<Split>)
    requires AllScaled(args) && AllScaled(more)
    ensures AllScaled(AddSplits(args, more, 1))
    decreases |more|
  {
    if |more| > 0 {
      AddSplitPositive(args, more[0], 0);
      AddSplitsPositive(AddSplit(args, more[0], 1, 0), more[1..]);
    }
  }

  lemma {:induction false} VisitAddPositive(a: IterExpr, b: IterExpr)
    requires Scaled(a) && Scaled(b)
    ensures Scaled(VisitAdd(a, b)) && (b.Plain? ==> Scaled(VisitSub(a, b)))
  {
    var lhs := AsSum(a);
    match b
    case Plain(_) =>
    case SplitExpr(s) =>
      assert AsSum(b).args[0] == s;
      AddSplitPositive(lhs.args, s, 0);
    case SumExpr(args, _) =>
      AddSplitsPositive(lhs.args, args);
  }

  lemma {:induction false} MulIterPositive(a: IterExpr, c: int)
    requires Scaled(a) && c > 0
    ensures Scaled(MulIter(a, c))
  {
    match a
    case Plain(_) =>
    case SplitExpr(s) =>
      assert AsSum(a).args[0] == s;
      ProductPositive(s.scale, c);
    case SumExpr(args, _) =>
      forall i | 0 <= i < |args| ensures args[i].scale * c > 0 { ProductPositive(args[i].scale, c); }
  }

  lemma {:induction false} VisitMulPositive(a: IterExpr, b: IterExpr)
    requires Scaled(a) && Scaled(b) && VisitMul(a, b).Some?
    requires IsLiteral(a) && !b.Plain? ==> a.e.value >= 0
    requires IsLiteral(b) && !a.Plain? ==> b.e.value >= 0
    ensures Scaled(VisitMul(a, b).value)
  {
    if IsLiteral(b) && b.e.value > 0 {
      MulIterPositive(a, b.e.value);
    } else if IsLiteral(a) && a.e.value > 0 {
      MulIterPositive(b, a.e.value);
    }
  }

  /** The value of a rewritten operand that is a literal. */
  lemma {:induction false} OperandPositive(op: BinOp, ra: IterExpr, rb: IterExpr, a: Expr, b: Expr, iters: set<nat>,
      memo: Memo)
    requires Scaled(ra) && Scaled(rb) && MemoScaled(memo) && OperandsPositive(op, a, b, iters)
    requires FreeVars(a) !! iters ==> SamePlain(ra, a, map[])
    requires FreeVars(b) !! iters ==> SamePlain(rb, b, map[])
    ensures StaysPositive(memo, Combined(op, ra, rb, memo))
  {
    if IsDivision(op) {
      var d := DivCases(ra, rb, op == FloorDivOp);
      if d.DivideIter? { DivIterPositive(ra, d.c, memo, op == FloorDivOp); }
    } else if op == Add || op == Sub {
      VisitAddPositive(ra, rb);
    } else if op == Mul && VisitMul(ra, rb).Some? {
      VisitMulPositive(ra, rb);
    }
  }

  /** Positive factors keep every scale positive and every division on one side. */
  lemma {:induction false} MutatePositive(e: Expr, vars: map<nat, IterExpr>, memo: Memo)
    requires PositiveFactors(e, vars.Keys) && MemoScaled(memo) && forall v :: v in vars ==> Scaled(vars[v])
    ensures StaysPositive(memo, Mutate(e, vars, memo))
  {
    match e
    case Var(v) =>
    case IntImm(_) =>
    case Bin(op, a, b) =>
      MutatePositive(a, vars, memo);
      var (ra, m1) := Mutate(a, vars, memo);
      if ra.Some? {
        MutatePositive(b, vars, m1);
        var (rb, m2) := Mutate(b, vars, m1);
        if rb.Some? {
          if FreeVars(a) !! vars.Keys { PlainMutate(a, vars, memo, map[]); }
          if FreeVars(b) !! vars.Keys { PlainMutate(b, vars, m1, map[]); }
          OperandPositive(op, ra.value, rb.value, a, b, vars.Keys, m2);
        }
      }
    case Not(a) =>
      MutatePositive(a, vars, memo);
    case Select(c, t, f) =>
      MutatePositive(c, vars, memo);
      var m1 := Mutate(c, vars, memo).1;
      MutatePositive(t, vars, m1);
      MutatePositive(f, vars, Mutate(t, vars, m1).1);
  }

  lemma {:induction false} RewritePositive(e: Expr, vars: map<nat, IterExpr>, memo: Memo)
    requires PositiveFactors(e, vars.Keys) && MemoScaled(memo) && forall v :: v in vars ==> Scaled(vars[v])
    ensures var (r, memo') := Rewrite(e, vars, memo);
            memo'.positive == memo.positive && MemoScaled(memo') && (r.Some? ==> AllScaled(r.value.args))
  {
    MutatePositive(e, vars, memo);
    var (r, m1) := Mutate(e, vars, memo);
    if r.Some? { FusePositive(AsSum(r.value).args, m1); }
  }

  lemma {:induction false} RewriteAllPositive(es: seq<Expr>, vars: map<nat, IterExpr>, memo: Memo)
    requires (forall k :: 0 <= k < |es| ==> PositiveFactors(es[k], vars.Keys)) && MemoScaled(memo)
    requires forall v :: v in vars ==> Scaled(vars[v])
    ensures var (r, memo') := RewriteAll(es, vars, memo);
            memo'.positive == memo.positive &&
            (r.Some? ==> forall k :: 0 <= k < |r.value| ==> AllScaled(r.value[k].args))
    decreases |es|
  {
    if |es| > 0 {
      RewritePositive(es[0], vars, memo);
      RewriteAllPositive(es[1..], vars, Rewrite(es[0], vars, memo).1);
    }
  }

  lemma {:induction false} VarMapScaled(inputs: seq<Input>, v: nat)
    requires v in VarMap(inputs)
    ensures Scaled(VarMap(inputs)[v])
  {
    var n := |inputs| - 1;
    if inputs[n].v == v {
      assert AsSum(InputIter(inputs[n])).args == [FullSplit(InputMark(v, inputs[n].min, inputs[n].extent), 1)];
    } else {
      VarMapScaled(inputs[..n], v);
    }
  }

  /** With positive factors, rewriting the indices is all on one side and yields positive scales. */
  lemma {:induction false} PositiveRun(indices: seq<Expr>, inputs: seq<Input>)
    requires AllPositive(indices, inputs)
    ensures var (r, memo) := RewriteAll(indices, VarMap(inputs), NoMemo);
            memo.positive && (r.Some? ==> forall k :: 0 <= k < |r.value| ==> AllScaled(r.value[k].args))
  {
    VarMapKeys(inputs);
    forall v | v in VarMap(inputs) ensures Scaled(VarMap(inputs)[v]) { VarMapScaled(inputs, v); }
    RewriteAllPositive(indices, VarMap(inputs), NoMemo);
  }
}
