/** Acceptance can depend on the order of the indices (TryNormalizeSplits in
    src/arith/iter_affine_map.cc): of two splits with one lower factor the first is taken, and if that
    is not the one of extent 1 the other never fits. */
module IterMapOrder {
  import opened IntOperator
  import opened PrimExprs
  import opened Wrappers
  import opened MixedRadix
  import opened IterMap
  import opened IterMapBijection
  import opened IterMapDetect
  import opened IterMapCheck
  import opened IterMapDigits

  /** x in [0, 4) */
  const Inputs: seq<Input> := [Input(0, 0, 4)]
  const X: Mark := InputMark(0, 0, 4)

  const Low: Expr := Bin(FloorModOp, Var(0), IntImm(2))
  const High: Expr := Bin(FloorDivOp, Var(0), IntImm(2))
  /** always 0 */
  const Nothing: Expr := Bin(FloorDivOp, Low, IntImm(2))

  function One(s: Split): IterSum { IterSum([s], IntImm(0)) }

  const LowSum: IterSum := One(Split(X, 1, 2, 1))
  const HighSum: IterSum := One(Split(X, 2, 2, 1))
  const NothingSum: IterSum := One(Split(X, 2, 1, 1))

  lemma {:induction false} Rewritten()
    ensures var vars := VarMap(Inputs);
            && Rewrite(Low, vars, NoMemo) == (Some(LowSum), NoMemo)
            && Rewrite(High, vars, NoMemo) == (Some(HighSum), NoMemo)
            && Rewrite(Nothing, vars, NoMemo) == (Some(NothingSum), NoMemo)
  {
    var vars, s, low := VarMap(Inputs), FullSplit(X, 1), Split(X, 1, 2, 1);
    VarMapAt(Inputs, 0);
    DividesIntro(2, 2);
    DividesIntro(2, 1);
    assert Mutate(Var(0), vars, NoMemo) == (Some(SplitExpr(s)), NoMemo);
    assert Mutate(IntImm(2), vars, NoMemo) == (Some(Plain(IntImm(2))), NoMemo);
    OneDivided(SplitExpr(s), s, 2, NoMemo, false);
    OneDivided(SplitExpr(s), s, 2, NoMemo, true);
    OneDivided(SplitExpr(low), low, 2, NoMemo, true);
    UnitQuotients(s, 2);
    UnitQuotients(low, 2);
    assert FloorDiv(4, 2) == 2 && FloorDiv(2, 2) == 1;
    assert Mutate(Low, vars, NoMemo) == (Some(SplitExpr(low)), NoMemo);
    assert Mutate(High, vars, NoMemo) == (Some(SplitExpr(Split(X, 2, 2, 1))), NoMemo);
    assert Mutate(Nothing, vars, NoMemo) == (Some(SplitExpr(Split(X, 2, 1, 1))), NoMemo);
  }

  /** Three sums that use the iterator are collected in order. */
  lemma {:induction false} Collects(sums: seq<IterSum>)
    requires |sums| == 3 && forall k :: 0 <= k < 3 ==> |sums[k].args| == 1 && sums[k].args[0].source == X
    ensures Found(sums) == Collected({X}, map[X := [Top(0), Top(1), Top(2)]])
  {
    var s0 := Collected({}, map[]);
    var s1 := AddUse(CollectMark(X, s0), X, Top(0));
    assert s1.uses[X] == [Top(0)];
    assert s1.visited == {X} && s1.uses == map[X := [Top(0)]];
    var s2 := AddUse(s1, X, Top(1));
    assert s2.uses[X] == [Top(0), Top(1)];
    assert s2.visited == {X} && s2.uses == map[X := [Top(0), Top(1)]];
    var s3 := AddUse(s2, X, Top(2));
    assert s3.uses[X] == [Top(0), Top(1), Top(2)];
    assert s3.visited == {X} && s3.uses == map[X := [Top(0), Top(1), Top(2)]];
    assert CollectIndices(sums, 3, s3) == s3;
    assert CollectIndices(sums, 2, s2) == s3;
    assert CollectIndices(sums, 1, s1) == s3;
  }

  lemma {:induction false} AllOk(sums: seq<IterSum>)
    requires forall k :: 0 <= k < |sums| ==> sums[k] == LowSum || sums[k] == HighSum || sums[k] == NothingSum
    ensures IndicesOk(sums, Inputs)
  {
    assert Inputs[0] in Inputs && MarkOk(X, Inputs);
    forall k | 0 <= k < |sums| ensures SplitsOk(sums[k].args, Inputs) {}
  }

  /** With the split of extent 1 last, the check fails. */
  lemma {:induction false} UnitLast()
    ensures !CheckBijective([LowSum, HighSum, NothingSum], Inputs)
  {
    var sums := [LowSum, HighSum, NothingSum];
    AllOk(sums);
    Collects(sums);
    var slots := [Top(0), Top(1), Top(2)];
    var ss := ResolveAll(slots, sums);
    assert ss == [Split(X, 1, 2, 1), Split(X, 2, 2, 1), Split(X, 2, 1, 1)];
    assert LowerFactors(ss)[1] == LowerFactors(ss)[2] && Extents(ss)[2] == 1 && Extents(ss)[1] == 2;
    assert !UnitUsesFirst(slots, sums);
    CheckExact(sums, Inputs);
  }

  lemma {:induction false} UnitRadix()
    ensures Radix([2, 2, 1], [2, 1, 2], 4)
  {
    var w, e := [2, 2, 1], [2, 1, 2];
    assert StepAt(w, e, 0) && StepAt(w, e, 1);
  }

  lemma {:induction false} UnitCovers(sums: seq<IterSum>, slots: seq<Slot>, cover: seq<Slot>)
    requires sums == [LowSum, NothingSum, HighSum]
    requires slots == [Top(0), Top(1), Top(2)] && cover == [Top(2), Top(1), Top(0)]
    ensures Covers(cover, X, sums, {X}) && UnitUsesFirst(slots, sums)
  {
    var ss, cs := ResolveAll(slots, sums), ResolveAll(cover, sums);
    assert ss == [Split(X, 1, 2, 1), Split(X, 2, 1, 1), Split(X, 2, 2, 1)];
    assert LowerFactors(ss) == [1, 2, 2] && Extents(ss) == [2, 1, 2];
    assert LowerFactors(cs) == [2, 2, 1] && Extents(cs) == [2, 1, 2];
    UnitRadix();
  }

  /** With it before the other, the check passes. */
  lemma {:induction false} UnitBefore()
    ensures CheckBijective([LowSum, NothingSum, HighSum], Inputs)
  {
    var sums, slots, cover := [LowSum, NothingSum, HighSum], [Top(0), Top(1), Top(2)], [Top(2), Top(1), Top(0)];
    Collects(sums);
    UnitCovers(sums, slots, cover);
    CoverNormalizes(X, slots, cover, sums, {X});
  }

  /** The same three indices are rejected in one order and accepted in another. */
  lemma {:induction false} OrderMatters()
    ensures Detect([Low, High, Nothing], Inputs).0 == []
    ensures Detect([Low, Nothing, High], Inputs).0 == [LowSum, NothingSum, HighSum]
  {
    Rewritten();
    RewriteEach([Low, High, Nothing], [LowSum, HighSum, NothingSum], VarMap(Inputs), NoMemo);
    RewriteEach([Low, Nothing, High], [LowSum, NothingSum, HighSum], VarMap(Inputs), NoMemo);
    UnitLast();
    UnitBefore();
  }
}
