/** Index expressions whose sums each contain an iterator on its own: all fused sums then have base
    scale 1, so the memo of src/arith/iter_affine_map.cc cannot answer with another scale. */
module IterMapUnit {
  import opened PrimExprs
  import opened IterMap
  import opened IterMapBijection
  import opened IterMapDetect
  import opened IterMapReference
  import opened IterMapPositive
  import opened IterMapSound

  /** The expression has one iterator term at most, so there is nothing to fuse. */
  predicate Lone(e: Expr, iters: set<nat>) {
    match e
    case Bin(op, a, b) =>
      (match op
       case Add => (FreeVars(a) !! iters && Lone(b, iters)) || (FreeVars(b) !! iters && Lone(a, iters))
       case Sub => Lone(a, iters)
       case Mul => Lone(a, iters) && Lone(b, iters)
       case _ => Eval(b, map[]) != 1 || Lone(a, iters))
    case _ => true
  }

  /** v is a term of the sum on its own, and occurs nowhere else in it. */
  predicate OnItsOwn(e: Expr, v: nat) {
    match e
    case Var(u) => u == v
    case Bin(op, a, b) =>
      (match op
       case Add => (OnItsOwn(a, v) && v !in FreeVars(b)) || (OnItsOwn(b, v) && v !in FreeVars(a))
       case Sub => OnItsOwn(a, v)
       case _ => false)
    case _ => false
  }

  predicate Fusable(e: Expr, iters: set<nat>) { Lone(e, iters) || exists v :: v in iters && OnItsOwn(e, v) }

  /** What is divided has one term or an iterator on its own. */
  predicate UnitSums(e: Expr, iters: set<nat>) {
    match e
    case Var(_) => true
    case IntImm(_) => true
    case Bin(op, a, b) => UnitSums(a, iters) && UnitSums(b, iters) && (IsDivision(op) ==> Fusable(a, iters))
    case Not(a) => UnitSums(a, iters)
    case Select(c, t, f) => UnitSums(c, iters) && UnitSums(t, iters) && UnitSums(f, iters)
  }

  predicate AllUnit(indices: seq<Expr>, inputs: seq<Input>) {
    forall k :: 0 <= k < |indices| ==>
      UnitSums(indices[k], Iterators(inputs)) && Fusable(indices[k], Iterators(inputs))
  }

  // ----- fusing with base scale 1 ------------------------------------------------------------

  lemma {:induction false} SmallestIsLeast(args: seq<Split>, best: nat, i: nat, j: nat)
    requires best < |args| && i <= |args| && j < |args| && (i <= j || args[best].scale <= args[j].scale)
    ensures args[SmallestScale(args, best, i)].scale <= args[j].scale
    decreases |args| - i
  {
    if i < |args| { SmallestIsLeast(args, if args[i].scale < args[best].scale then i else best, i + 1, j); }
  }

  /** All entries have scale 1 and are fused. */
  ghost predicate MemoUnit(memo: Memo) {
    memo.coherent &&
    forall form :: form in memo.fused ==> memo.fused[form].scale == 1 && memo.fused[form].source.FusedMark?
  }

  /** Split i is the mark of v with scale 1, and no other split has that mark. */
  ghost predicate UnitAt(args: seq<Split>, v: nat, i: nat) {
    i < |args| && HasSource(args[i], v) && args[i].scale == 1 &&
    forall j :: 0 <= j < |args| && j != i ==> !HasSource(args[j], v)
  }

  predicate HasSource(s: Split, v: nat) { s.source.InputMark? && s.source.v == v }

  ghost predicate HasUnit(args: seq<Split>, v: nat) { exists i: nat :: UnitAt(args, v, i) }

  ghost predicate NoSource(args: seq<Split>, v: nat) { forall i :: 0 <= i < |args| ==> !HasSource(args[i], v) }

  lemma {:induction false} FuseUnit(args: seq<Split>, memo: Memo)
    requires MemoUnit(memo) && AllScaled(args) && (|args| <= 1 || exists v :: HasUnit(args, v))
    ensures var (r, memo') := Fuse(args, memo);
            MemoUnit(memo') && (r.Some? && |args| > 1 ==> r.value.source.FusedMark?)
  {
    if |args| > 1 {
      var v :| HasUnit(args, v);
      var i: nat :| UnitAt(args, v, i);
      SmallestIsLeast(args, 0, 0, i);
      assert args[SmallestScale(args, 0, 0)].scale == 1;
    }
  }

  // ----- adding keeps the unit ---------------------------------------------------------------

  lemma {:induction false} AddOther(args: seq<Split>, s: Split, v: nat, i: nat)
    requires i <= |args| && !HasSource(s, v)
    ensures NoSource(args, v) ==> NoSource(AddSplit(args, s, 1, i), v)
    ensures HasUnit(args, v) ==> HasUnit(AddSplit(args, s, 1, i), v)
    decreases |args| - i
  {
    if i < |args| && !SameSplit(args[i], s) {
      AddOther(args, s, v, i + 1);
    } else if HasUnit(args, v) {
      var j: nat :| UnitAt(args, v, j);
      assert UnitAt(AddSplit(args, s, 1, i), v, j);
    }
  }

  lemma {:induction false} AddUnit(args: seq<Split>, s: Split, v: nat, i: nat)
    requires i <= |args| && HasSource(s, v) && s.scale == 1 && NoSource(args, v)
    ensures HasUnit(AddSplit(args, s, 1, i), v)
    decreases |args| - i
  {
    if i < |args| {
      AddUnit(args, s, v, i + 1);
    } else {
      assert UnitAt(args + [s], v, |args|);
    }
  }

  lemma {:induction false} AddOthers(args: seq<Split>, more: seq<Split>, v: nat)
    requires NoSource(more, v)
    ensures NoSource(args, v) ==> NoSource(AddSplits(args, more, 1), v)
    ensures HasUnit(args, v) ==> HasUnit(AddSplits(args, more, 1), v)
    decreases |more|
  {
    if |more| > 0 {
      AddOther(args, more[0], v, 0);
      AddOthers(AddSplit(args, more[0], 1, 0), more[1..], v);
    }
  }

  lemma {:induction false} AddWithUnit(args: seq<Split>, more: seq<Split>, v: nat)
    requires NoSource(args, v) && HasUnit(more, v)
    ensures HasUnit(AddSplits(args, more, 1), v)
    decreases |more|
  {
    var i: nat :| UnitAt(more, v, i);
    var args' := AddSplit(args, more[0], 1, 0);
    if i == 0 {
      AddUnit(args, more[0], v, 0);
      assert forall j :: 0 <= j < |more[1..]| ==> more[1..][j] == more[j + 1];
      AddOthers(args', more[1..], v);
    } else {
      AddOther(args, more[0], v, 0);
      assert UnitAt(more[1..], v, i - 1);
      AddWithUnit(args', more[1..], v);
    }
  }

  // ----- rewriting ---------------------------------------------------------------------------

  /** The input marks of the splits are among vs. */
  ghost predicate SourcesIn(r: IterExpr, vs: set<nat>) {
    forall v: nat :: v !in vs ==> NoSource(AsSum(r).args, v)
  }

  /** What the rewriting of e looks like. */
  ghost predicate Shaped(e: Expr, r: IterExpr, iters: set<nat>) {
    && Scaled(r)
    && SourcesIn(r, FreeVars(e))
    && (FreeVars(e) !! iters ==> SamePlain(r, e, map[]))
    && (Lone(e, iters) ==> |AsSum(r).args| <= 1)
    && (forall v :: v in iters && OnItsOwn(e, v) ==> HasUnit(AsSum(r).args, v))
  }

  lemma {:induction false} AddSources(a: IterExpr, b: IterExpr, v: nat)
    requires NoSource(AsSum(a).args, v) && NoSource(AsSum(b).args, v)
    ensures NoSource(AsSum(VisitAdd(a, b)).args, v)
  {
    var lhs := AsSum(a).args;
    match b
    case Plain(_) =>
    case SplitExpr(s) =>
      assert AsSum(b).args[0] == s;
      AddOther(lhs, s, v, 0);
    case SumExpr(args, _) =>
      AddOthers(lhs, args, v);
  }

  lemma {:induction false} AddHasUnit(a: IterExpr, b: IterExpr, v: nat)
    requires HasUnit(AsSum(a).args, v) && NoSource(AsSum(b).args, v)
    ensures HasUnit(AsSum(VisitAdd(a, b)).args, v)
  {
    var lhs := AsSum(a).args;
    match b
    case Plain(_) =>
    case SplitExpr(s) =>
      assert AsSum(b).args[0] == s;
      AddOther(lhs, s, v, 0);
    case SumExpr(args, _) =>
      AddOthers(lhs, args, v);
  }

  lemma {:induction false} AddToUnit(a: IterExpr, b: IterExpr, v: nat)
    requires NoSource(AsSum(a).args, v) && HasUnit(AsSum(b).args, v)
    ensures HasUnit(AsSum(VisitAdd(a, b)).args, v)
  {
    var lhs := AsSum(a).args;
    match b
    case Plain(_) =>
    case SplitExpr(s) =>
      assert AsSum(b).args == [s];
      AddUnit(lhs, s, v, 0);
    case SumExpr(args, _) =>
      AddWithUnit(lhs, args, v);
  }

  lemma {:induction false} AddShaped(a: Expr, b: Expr, ra: IterExpr, rb: IterExpr, iters: set<nat>)
    requires Shaped(a, ra, iters) && Shaped(b, rb, iters)
    ensures SourcesIn(VisitAdd(ra, rb), FreeVars(a) + FreeVars(b))
    ensures Lone(Bin(Add, a, b), iters) ==> |AsSum(VisitAdd(ra, rb)).args| <= 1
    ensures forall v :: v in iters && OnItsOwn(Bin(Add, a, b), v) ==> HasUnit(AsSum(VisitAdd(ra, rb)).args, v)
  {
    forall v: nat | v !in FreeVars(a) + FreeVars(b) ensures NoSource(AsSum(VisitAdd(ra, rb)).args, v) {
      AddSources(ra, rb, v);
    }
    forall v | v in iters && OnItsOwn(Bin(Add, a, b), v) ensures HasUnit(AsSum(VisitAdd(ra, rb)).args, v) {
      if OnItsOwn(a, v) && v !in FreeVars(b) { AddHasUnit(ra, rb, v); } else { AddToUnit(ra, rb, v); }
    }
    if FreeVars(a) !! iters && Lone(b, iters) {
      PlainFirst(ra, rb);
    }
  }

  lemma {:induction false} PlainFirst(a: IterExpr, b: IterExpr)
    requires a.Plain? && |AsSum(b).args| <= 1
    ensures |AsSum(VisitAdd(a, b)).args| <= 1
  {
    if b.SumExpr? && |b.args| == 1 {
      assert b.args == [b.args[0]];
      assert b.args[1..] == [];
      assert AddSplits([], b.args, 1) == AddSplit([], b.args[0], 1, 0);
    }
  }

  lemma {:induction false} MulShaped(a: Expr, b: Expr, ra: IterExpr, rb: IterExpr, iters: set<nat>)
    requires Shaped(a, ra, iters) && Shaped(b, rb, iters) && VisitMul(ra, rb).Some?
    ensures SourcesIn(VisitMul(ra, rb).value, FreeVars(a) + FreeVars(b))
    ensures Lone(a, iters) && Lone(b, iters) ==> |AsSum(VisitMul(ra, rb).value).args| <= 1
  {
    if IsLiteral(rb) { MulSources(ra, rb.e.value); }
    if IsLiteral(ra) { MulSources(rb, ra.e.value); }
  }

  lemma {:induction false} MulSources(a: IterExpr, c: int)
    ensures |AsSum(MulIter(a, c)).args| == |AsSum(a).args|
    ensures forall v: nat :: NoSource(AsSum(a).args, v) ==> NoSource(AsSum(MulIter(a, c)).args, v)
  {
    var args, args' := AsSum(a).args, AsSum(MulIter(a, c)).args;
    assert forall i :: 0 <= i < |args| ==> args'[i].source == args[i].source;
  }

  lemma {:induction false} DirectShaped(op: BinOp, a: Expr, b: Expr, ra: IterExpr, rb: IterExpr, iters: set<nat>)
    requires Shaped(a, ra, iters) && Shaped(b, rb, iters) && OperandsPositive(op, a, b, iters) && !IsDivision(op)
    requires Direct(op, ra, rb).Some?
    ensures var r := Direct(op, ra, rb).value;
            && SourcesIn(r, FreeVars(a) + FreeVars(b))
            && (Lone(Bin(op, a, b), iters) ==> |AsSum(r).args| <= 1)
            && (forall v :: v in iters && OnItsOwn(Bin(op, a, b), v) ==> HasUnit(AsSum(r).args, v))
  {
    if op == Add {
      AddShaped(a, b, ra, rb, iters);
    } else if op == Mul {
      MulShaped(a, b, ra, rb, iters);
    } else if op == Sub {
      SubShaped(a, b, ra, rb, iters);
    }
  }

  lemma {:induction false} SubShaped(a: Expr, b: Expr, ra: IterExpr, rb: IterExpr, iters: set<nat>)
    requires Shaped(a, ra, iters) && rb.Plain?
    ensures AsSum(VisitSub(ra, rb)).args == AsSum(ra).args
  {}

  lemma {:induction false} QuotientSources(s: Split, c: int, isDiv: bool, vs: set<nat>)
    requires c != 0 && Quotient(s, c, isDiv).Some? && (s.source.InputMark? ==> s.source.v in vs)
    ensures var r := Quotient(s, c, isDiv).value; |AsSum(r).args| <= 1 && SourcesIn(r, vs)
  {}

  lemma {:induction false} OneSource(args: seq<Split>, i: nat, vs: set<nat>)
    requires i < |args| && forall v: nat :: v !in vs ==> NoSource(args, v)
    ensures args[i].source.InputMark? ==> args[i].source.v in vs
  {
    if args[i].source.InputMark? { assert HasSource(args[i], args[i].source.v); }
  }

  /** What is fused is a single split or a sum with a unit. */
  lemma {:induction false} FuseShaped(a: Expr, ra: IterExpr, memo: Memo, iters: set<nat>)
    requires Shaped(a, ra, iters) && Fusable(a, iters) && MemoUnit(memo)
    ensures var (r, memo') := Fuse(AsSum(ra).args, memo);
            MemoUnit(memo') && (r.Some? && r.value.source.InputMark? ==> r.value.source.v in FreeVars(a))
  {
    var args := AsSum(ra).args;
    if |args| > 1 {
      var v :| v in iters && OnItsOwn(a, v);
      assert HasUnit(args, v);
    } else if |args| == 1 {
      OneSource(args, 0, FreeVars(a));
    }
    FuseUnit(args, memo);
  }

  /** Dividing fuses with base scale 1, if at all. */
  lemma {:induction false} DivideShaped(a: Expr, ra: IterExpr, c: int, memo: Memo, isDiv: bool, iters: set<nat>)
    requires Shaped(a, ra, iters) && Fusable(a, iters) && MemoUnit(memo) && c != 0
    ensures var (r, memo') := DivIter(ra, c, memo, isDiv);
            MemoUnit(memo') && (r.Some? ==> SourcesIn(r.value, FreeVars(a)) && |AsSum(r.value).args| <= 1)
  {
    match ra
    case Plain(_) =>
    case SplitExpr(s) =>
      assert AsSum(ra).args[0] == s;
      OneSource(AsSum(ra).args, 0, FreeVars(a));
      if Quotient(s, c, isDiv).Some? { QuotientSources(s, c, isDiv, FreeVars(a)); }
    case SumExpr(args, base) =>
      FuseShaped(a, ra, memo, iters);
      var (fused, memo') := Fuse(args, memo);
      if fused.Some? && Quotient(fused.value, c, isDiv).Some? {
        QuotientSources(fused.value, c, isDiv, FreeVars(a));
      }
  }

  lemma {:induction false} SettledShaped(op: BinOp, a: Expr, b: Expr, ra: IterExpr, rb: IterExpr, iters: set<nat>)
    requires Shaped(a, ra, iters) && Shaped(b, rb, iters) && OperandsPositive(op, a, b, iters) && IsDivision(op)
    requires DivCases(ra, rb, op == FloorDivOp).Settled? && DivCases(ra, rb, op == FloorDivOp).r.Some?
    ensures var r := DivCases(ra, rb, op == FloorDivOp).r.value;
            SourcesIn(r, FreeVars(a) + FreeVars(b)) && (Lone(Bin(op, a, b), iters) ==> |AsSum(r).args| <= 1)
  {
    if IsConst(rb, 1) && !ra.Plain? { assert Eval(b, map[]) == 1; }
  }

  lemma {:induction false} CombinedShaped(op: BinOp, a: Expr, b: Expr, ra: IterExpr, rb: IterExpr, memo: Memo,
      iters: set<nat>)
    requires Shaped(a, ra, iters) && Shaped(b, rb, iters) && OperandsPositive(op, a, b, iters) && MemoUnit(memo)
    requires IsDivision(op) ==> Fusable(a, iters)
    ensures var (r, memo') := Combined(op, ra, rb, memo);
            && MemoUnit(memo')
            && (r.Some? ==> SourcesIn(r.value, FreeVars(a) + FreeVars(b)))
            && (r.Some? && Lone(Bin(op, a, b), iters) ==> |AsSum(r.value).args| <= 1)
            && (r.Some? ==> forall v :: v in iters && OnItsOwn(Bin(op, a, b), v) ==> HasUnit(AsSum(r.value).args, v))
  {
    if IsDivision(op) {
      var d := DivCases(ra, rb, op == FloorDivOp);
      if d.DivideIter? {
        DivideShaped(a, ra, d.c, memo, op == FloorDivOp, iters);
      } else if d.r.Some? {
        SettledShaped(op, a, b, ra, rb, iters);
      }
    } else if Direct(op, ra, rb).Some? {
      DirectShaped(op, a, b, ra, rb, iters);
    }
  }

  ghost predicate VarsShaped(vars: map<nat, IterExpr>) { forall v :: v in vars ==> Shaped(Var(v), vars[v], vars.Keys) }

  ghost predicate OutShaped(e: Expr, vars: map<nat, IterExpr>, memo: Memo) {
    var (r, memo') := Mutate(e, vars, memo);
    MemoUnit(memo') && MemoScaled(memo') && (r.Some? ==> Shaped(e, r.value, vars.Keys))
  }

  lemma {:induction false} MutateShaped(e: Expr, vars: map<nat, IterExpr>, memo: Memo)
    requires PositiveFactors(e, vars.Keys) && UnitSums(e, vars.Keys) && VarsShaped(vars)
    requires MemoUnit(memo) && MemoScaled(memo)
    ensures OutShaped(e, vars, memo)
    decreases e, 1
  {
    MutatePositive(e, vars, memo);
    if FreeVars(e) !! vars.Keys { PlainMutate(e, vars, memo, map[]); }
    match e
    case Var(v) =>
    case IntImm(_) =>
    case Bin(op, a, b) =>
      MutateBinShaped(e, vars, memo);
    case Not(a) =>
      MutateShaped(a, vars, memo);
    case Select(c, t, f) =>
      MutateSelectShaped(e, vars, memo);
  }

  lemma {:induction false} MutateBinShaped(e: Expr, vars: map<nat, IterExpr>, memo: Memo)
    requires e.Bin? && PositiveFactors(e, vars.Keys) && UnitSums(e, vars.Keys) && VarsShaped(vars)
    requires MemoUnit(memo) && MemoScaled(memo) && StaysPositive(memo, Mutate(e, vars, memo))
    requires FreeVars(e) !! vars.Keys && Mutate(e, vars, memo).0.Some? ==>
               SamePlain(Mutate(e, vars, memo).0.value, e, map[])
    ensures OutShaped(e, vars, memo)
    decreases e, 0
  {
    MutateShaped(e.a, vars, memo);
    var (ra, m1) := Mutate(e.a, vars, memo);
    if ra.Some? {
      MutateShaped(e.b, vars, m1);
      var (rb, m2) := Mutate(e.b, vars, m1);
      if rb.Some? { CombinedShaped(e.op, e.a, e.b, ra.value, rb.value, m2, vars.Keys); }
    }
  }

  lemma {:induction false} MutateSelectShaped(e: Expr, vars: map<nat, IterExpr>, memo: Memo)
    requires e.Select? && PositiveFactors(e, vars.Keys) && UnitSums(e, vars.Keys) && VarsShaped(vars)
    requires MemoUnit(memo) && MemoScaled(memo) && StaysPositive(memo, Mutate(e, vars, memo))
    requires FreeVars(e) !! vars.Keys && Mutate(e, vars, memo).0.Some? ==>
               SamePlain(Mutate(e, vars, memo).0.value, e, map[])
    ensures OutShaped(e, vars, memo)
    decreases e, 0
  {
    MutateShaped(e.cond, vars, memo);
    var (rc, m1) := Mutate(e.cond, vars, memo);
    MutateShaped(e.onTrue, vars, m1);
    var (rt, m2) := Mutate(e.onTrue, vars, m1);
    MutateShaped(e.onFalse, vars, m2);
    var (rf, m3) := Mutate(e.onFalse, vars, m2);
    var (r, memo') := Mutate(e, vars, memo);
    assert memo' == m1 || memo' == m2 || memo' == m3;
    assert r.Some? ==> r.value.Plain?;
  }

  lemma {:induction false} RewriteUnit(e: Expr, vars: map<nat, IterExpr>, memo: Memo)
    requires PositiveFactors(e, vars.Keys) && UnitSums(e, vars.Keys) && Fusable(e, vars.Keys) && VarsShaped(vars)
    requires MemoUnit(memo) && MemoScaled(memo)
    ensures var memo' := Rewrite(e, vars, memo).1; MemoUnit(memo') && MemoScaled(memo')
  {
    MutateShaped(e, vars, memo);
    var (r, m1) := Mutate(e, vars, memo);
    if r.Some? {
      FuseShaped(e, r.value, m1, vars.Keys);
      FusePositive(AsSum(r.value).args, m1);
    }
  }

  lemma {:induction false} RewriteAllUnit(es: seq<Expr>, vars: map<nat, IterExpr>, memo: Memo)
    requires forall k :: 0 <= k < |es| ==>
               PositiveFactors(es[k], vars.Keys) && UnitSums(es[k], vars.Keys) && Fusable(es[k], vars.Keys)
    requires VarsShaped(vars) && MemoUnit(memo) && MemoScaled(memo)
    ensures RewriteAll(es, vars, memo).1.coherent
    decreases |es|
  {
    if |es| > 0 {
      RewriteUnit(es[0], vars, memo);
      RewriteAllUnit(es[1..], vars, Rewrite(es[0], vars, memo).1);
    }
  }

  lemma {:induction false} VarMapShaped(inputs: seq<Input>, v: nat, iters: set<nat>)
    requires v in VarMap(inputs) && v in iters
    ensures Shaped(Var(v), VarMap(inputs)[v], iters)
  {
    var n := |inputs| - 1;
    var x := inputs[n];
    if x.v == v {
      var args := AsSum(InputIter(x)).args;
      assert args == [FullSplit(InputMark(v, x.min, x.extent), 1)];
      assert UnitAt(args, v, 0);
    } else {
      VarMapShaped(inputs[..n], v, iters);
    }
  }

  /** With positive factors and an iterator on its own in every sum, the scales agree. */
  lemma {:induction false} UnitScalesAgree(indices: seq<Expr>, inputs: seq<Input>)
    requires AllPositive(indices, inputs) && AllUnit(indices, inputs)
    ensures ScalesAgree(indices, inputs)
  {
    VarMapKeys(inputs);
    var vars := VarMap(inputs);
    forall v | v in vars ensures Shaped(Var(v), vars[v], vars.Keys) { VarMapShaped(inputs, v, vars.Keys); }
    RewriteAllUnit(indices, vars, NoMemo);
    MemoExact(indices, inputs);
  }

  /** DetectIterMap on indices with positive factors and an iterator on its own in every sum: what it
      accepts has the values of the indices, its digits are a bijection from the iteration box, and
      the indices tell all its points apart. */
  lemma {:induction false} UnitDetection(indices: seq<Expr>, inputs: seq<Input>)
    requires InputsOk(inputs) && DistinctInputs(inputs)
    requires AllPositive(indices, inputs) && AllUnit(indices, inputs)
    ensures var r := Detect(indices, inputs).0;
            r != [] ==> SameValues(indices, r, inputs) && DigitBijection(r, inputs) && Injective(indices, inputs)
  {
    UnitScalesAgree(indices, inputs);
    PositiveRegular(indices, inputs);
    DetectSound(indices, inputs);
    if Detect(indices, inputs).0 != [] { IndicesInjective(indices, inputs); }
  }
}
