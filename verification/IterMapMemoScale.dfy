/** The fused-sum memo of TryFuseIters is looked up by the scale-free form of a sum but answers
    with the scale of the first sum it saw. Here is an input on which detection accepts indices
    that do not tell two points of the iteration box apart. */
module IterMapMemoScale {
  import opened IntOperator
  import opened PrimExprs
  import opened Wrappers
  import opened IterMap
  import opened IterMapBijection
  import opened IterMapDetect
  import opened IterMapReference
  import opened IterMapPositive
  import opened IterMapSound

  const Inputs: seq<Input> := [Input(0, 0, 4), Input(1, 0, 4)]
  const X: Mark := InputMark(0, 0, 4)
  const Y: Mark := InputMark(1, 0, 4)

  /** y*4 + x */
  const Row: Expr := Bin(Add, Bin(Mul, Var(1), IntImm(4)), Var(0))
  /** y*8 + x*2 */
  const Twice: Expr := Bin(Add, Bin(Mul, Var(1), IntImm(8)), Bin(Mul, Var(0), IntImm(2)))

  /** (y*4 + x) / 4 and (y*8 + x*2) mod 4 */
  const Indices: seq<Expr> := [Bin(FloorDivOp, Row, IntImm(4)), Bin(FloorModOp, Twice, IntImm(4))]

  const Key: seq<Split> := [Split(Y, 1, 4, 4), Split(X, 1, 4, 1)]
  const Fused: Mark := FusedMark(Key, 16)
  const Hit: Split := Split(Fused, 1, 16, 1)
  const After: Memo := Memo(map[Key := Hit], true, true)

  lemma {:induction false} Vars()
    ensures VarMap(Inputs) == map[0 := SplitExpr(Split(X, 1, 4, 1)), 1 := SplitExpr(Split(Y, 1, 4, 1))]
  {
    assert Inputs[..1] == [Inputs[0]];
    assert [Inputs[0]][..0] == [];
    assert VarMap([Inputs[0]]) == map[0 := SplitExpr(Split(X, 1, 4, 1))];
  }

  /** Choosing x then y out of [y*a, x*b] when a == 4*b. */
  lemma {:induction false} FuseRow(b: int, memo: Memo)
    requires b > 0
    ensures var args := [Split(Y, 1, 4, 4 * b), Split(X, 1, 4, b)];
            Fuse(args, memo) ==
              if Key in memo.fused then
                (Some(memo.fused[Key]), memo.(coherent := memo.coherent && memo.fused[Key].scale == b))
              else (Some(Split(Fused, 1, 16, b)), memo.(fused := memo.fused[Key := Split(Fused, 1, 16, b)]))
  {
    var args := [Split(Y, 1, 4, 4 * b), Split(X, 1, 4, b)];
    assert SmallestScale(args, 0, 0) == 1 by {
      assert SmallestScale(args, 0, 0) == SmallestScale(args, 0, 1) == SmallestScale(args, 1, 2) == 1;
    }
    var keys, exts, free := Scales(args), Extents(args), AllUnused(2);
    assert keys == [4 * b, b] && exts == [4, 4] && free == [false, false];
    assert free[1 := true] == [false, true] && [false, true][0 := true] == [true, true];
    assert FindKey(keys, free, b, 1) == 1;
    assert FindKey(keys, [false, true], b * 4, 0) == 0;
    assert PickChain(keys, exts, [true, true], b * 4 * 4, 0, 0) == Some(Picked([], b * 4 * 4));
    assert [0] + [] == [0 as nat] && [1] + [0] == [1 as nat, 0];
    assert PickChain(keys, exts, [false, true], b * 4, 1, 0) == Some(Picked([0], b * 4 * 4));
    assert PickChain(keys, exts, free, b, 2, 1) == Some(Picked([1, 0], b * 16));
    ScaledQuotient(1, b, 4);
    ScaledQuotient(4, b, 4);
    assert TruncDiv(4 * b, b) == 4 && TruncDiv(b * 16, b) == 16 && TruncDiv(b, b) == 1;
    assert Canonical(args, [], b) == [];
    assert [0][1..] == [] && [1, 0][1..] == [0];
    assert Canonical(args, [0], b) == [Split(Y, 1, 4, 4)];
    assert Canonical(args, [1, 0], b) == Key;
  }

  /** y*a + x*b as a sum of splits. */
  lemma {:induction false} ScaledIterator(v: nat, m: Mark, c: int, memo: Memo)
    requires c > 1 && v in VarMap(Inputs) && VarMap(Inputs)[v] == SplitExpr(Split(m, 1, 4, 1))
    ensures Mutate(Bin(Mul, Var(v), IntImm(c)), VarMap(Inputs), memo) == (Some(SplitExpr(Split(m, 1, 4, c))), memo)
  {}

  lemma {:induction false} Sums(memo: Memo)
    ensures Mutate(Row, VarMap(Inputs), memo) ==
            (Some(SumExpr([Split(Y, 1, 4, 4), Split(X, 1, 4, 1)], IntImm(0))), memo)
    ensures Mutate(Twice, VarMap(Inputs), memo) ==
            (Some(SumExpr([Split(Y, 1, 4, 8), Split(X, 1, 4, 2)], IntImm(0))), memo)
  {
    Vars();
    ScaledIterator(1, Y, 4, memo);
    ScaledIterator(1, Y, 8, memo);
    ScaledIterator(0, X, 2, memo);
    assert AddSplit([Split(Y, 1, 4, 4)], Split(X, 1, 4, 1), 1, 0) == [Split(Y, 1, 4, 4), Split(X, 1, 4, 1)];
    assert AddSplit([Split(Y, 1, 4, 8)], Split(X, 1, 4, 2), 1, 0) == [Split(Y, 1, 4, 8), Split(X, 1, 4, 2)];
  }

  lemma {:induction false} Quotients()
    ensures SplitFloorDiv(Hit, 4) == Some(SplitExpr(Split(Fused, 4, 4, 1)))
    ensures SplitFloorMod(Hit, 4) == Some(SplitExpr(Split(Fused, 1, 4, 1)))
  {}

  lemma {:induction false} FirstIndex()
    ensures Rewrite(Indices[0], VarMap(Inputs), NoMemo) == (Some(IterSum([Split(Fused, 4, 4, 1)], IntImm(0))), After)
  {
    Sums(NoMemo);
    Quotients();
    FuseRow(1, NoMemo);
    var sum := [Split(Y, 1, 4, 4), Split(X, 1, 4, 1)];
    assert sum == [Split(Y, 1, 4, 4 * 1), Split(X, 1, 4, 1)];
    assert Fuse(sum, NoMemo) == (Some(Hit), After);
    assert Mutate(Indices[0], VarMap(Inputs), NoMemo) == (Some(SplitExpr(Split(Fused, 4, 4, 1))), After);
  }

  /** The second sum has base scale 2 but gets the split of scale 1. */
  lemma {:induction false} SecondIndex()
    ensures Rewrite(Indices[1], VarMap(Inputs), After) ==
            (Some(IterSum([Split(Fused, 1, 4, 1)], IntImm(0))), After.(coherent := false))
  {
    Sums(After);
    Quotients();
    FuseRow(2, After);
    var sum, last := [Split(Y, 1, 4, 8), Split(X, 1, 4, 2)], After.(coherent := false);
    assert sum == [Split(Y, 1, 4, 4 * 2), Split(X, 1, 4, 2)];
    assert Fuse(sum, After) == (Some(Hit), last);
    assert Mutate(Indices[1], VarMap(Inputs), After) == (Some(SplitExpr(Split(Fused, 1, 4, 1))), last);
  }

  const Result: seq<IterSum> :=
    [IterSum([Split(Fused, 4, 4, 1)], IntImm(0)), IterSum([Split(Fused, 1, 4, 1)], IntImm(0))]

  lemma {:induction false} Rewritten()
    ensures RewriteAll(Indices, VarMap(Inputs), NoMemo) == (Some(Result), After.(coherent := false))
  {
    FirstIndex();
    SecondIndex();
    var vars, last := VarMap(Inputs), After.(coherent := false);
    assert Indices[1..] == [Indices[1]] && [Indices[1]][1..] == [];
    assert RewriteAll([], vars, last) == (Some([]), last);
    assert [Result[1]] + [] == [Result[1]];
    assert RewriteAll([Indices[1]], vars, After) == (Some([Result[1]]), last);
    assert [Result[0]] + [Result[1]] == Result;
  }

  const Uses: map<Mark, seq<Slot>> :=
    map[Y := [Arg(Fused, 0)], X := [Arg(Fused, 1)], Fused := [Top(0), Top(1)]]

  lemma {:induction false} AllCollected()
    ensures CollectIndices(Result, 0, Collected({}, map[])) == Collected({Fused, Y, X}, Uses)
  {
    var s0 := Collected({Fused}, map[]);
    var s1 := Collected({Fused, Y}, map[Y := [Arg(Fused, 0)]]);
    var s2 := Collected({Fused, Y, X}, map[Y := [Arg(Fused, 0)], X := [Arg(Fused, 1)]]);
    assert Key[1..] == [Key[1]] && [Key[1]][1..] == [];
    assert [] + [Arg(Fused, 0)] == [Arg(Fused, 0)] && [] + [Arg(Fused, 1)] == [Arg(Fused, 1)];
    assert {} + {Fused} == {Fused} && {Fused} + {Y} == {Fused, Y} && {Fused, Y} + {X} == {Fused, Y, X};
    assert CollectMark(Y, s0) == Collected({Fused, Y}, map[]);
    assert AddUse(Collected({Fused, Y}, map[]), Y, Arg(Fused, 0)) == s1;
    assert CollectMark(X, s1) == Collected({Fused, Y, X}, s1.uses);
    assert AddUse(CollectMark(X, s1), X, Arg(Fused, 1)) == s2;
    assert CollectArgs(Fused, [], 2, s2) == s2;
    assert CollectSplit(Key[1], s1) == CollectMark(X, s1);
    assert CollectArgs(Fused, [Key[1]], 1, s1) == s2;
    assert CollectSplit(Key[0], s0) == CollectMark(Y, s0);
    assert CollectArgs(Fused, Key, 0, s0) == s2;
    assert CollectMark(Fused, Collected({}, map[])) == s2;
    assert [] + [Top(0)] == [Top(0)] && [Top(0)] + [Top(1)] == [Top(0), Top(1)];
    var s3 := AddUse(s2, Fused, Top(0));
    var s4 := AddUse(s3, Fused, Top(1));
    assert CollectMark(Fused, s3) == s3;
    assert CollectIndices(Result, 2, s4) == s4;
    assert CollectIndices(Result, 1, s3) == s4;
    assert s4.uses == Uses;
  }

  lemma {:induction false} TwoUses()
    ensures NormalizeSplits(16, [Split(Fused, 4, 4, 1), Split(Fused, 1, 4, 1)]) != []
  {
    var ss := [Split(Fused, 4, 4, 1), Split(Fused, 1, 4, 1)];
    assert LowerFactors(ss) == [4, 1] && Extents(ss) == [4, 4] && AllUnused(2) == [false, false];
    assert FindKey([4, 1], [false, false], 1, 0) == 1;
    assert [false, false][1 := true] == [false, true] && [false, true][0 := true] == [true, true];
    assert PickChain([4, 1], [4, 4], [true, true], 16, 0, 0) == Some(Picked([], 16));
    assert FindKey([4, 1], [false, true], 4, 0) == 0;
    assert PickChain([4, 1], [4, 4], [false, true], 4, 1, 0) == Some(Picked([0] + [], 16));
    assert PickChain([4, 1], [4, 4], [false, false], 1, 2, 0) == Some(Picked([1] + ([0] + []), 16));
  }

  lemma {:induction false} Accepted()
    ensures Detect(Indices, Inputs) == (Result, After.(coherent := false))
  {
    Rewritten();
    AllCollected();
    AllCovered();
  }

  lemma {:induction false} AllCovered()
    ensures forall m :: m in {Fused, Y, X} ==>
              m in Uses && NormalizeSplits(m.extent, ResolveAll(Uses[m], Result)) != []
  {
    assert ResolveAll(Uses[Y], Result) == [Key[0]] && ResolveAll(Uses[X], Result) == [Key[1]];
    OneUse(Key[0]);
    OneUse(Key[1]);
    assert ResolveAll(Uses[Fused], Result) == [Split(Fused, 4, 4, 1), Split(Fused, 1, 4, 1)];
    TwoUses();
  }

  /** x = 0 and x = 2, with y = 0. */
  const P: Env := map[0 := 0, 1 := 0]
  const Q: Env := map[0 := 2, 1 := 0]

  lemma {:induction false} IndexAgrees(k: nat)
    requires k < 2
    ensures Eval(Indices[k], P) == Eval(Indices[k], Q)
  {
    if k == 0 {
      assert Eval(Bin(Mul, Var(1), IntImm(4)), P) == 0 && Eval(Bin(Mul, Var(1), IntImm(4)), Q) == 0;
      assert Eval(Row, P) == 0 && Eval(Row, Q) == 2;
      assert Eval(Indices[0], P) == FloorDiv(0, 4) && Eval(Indices[0], Q) == FloorDiv(2, 4);
    } else {
      assert Eval(Bin(Mul, Var(1), IntImm(8)), P) == 0 && Eval(Bin(Mul, Var(1), IntImm(8)), Q) == 0;
      assert Eval(Bin(Mul, Var(0), IntImm(2)), P) == 0 && Eval(Bin(Mul, Var(0), IntImm(2)), Q) == 4;
      assert Eval(Twice, P) == 0 && Eval(Twice, Q) == 4;
      assert Eval(Indices[1], P) == FloorMod(0, 4) && Eval(Indices[1], Q) == FloorMod(4, 4);
    }
  }

  lemma {:induction false} NotInjective()
    ensures !Injective(Indices, Inputs)
  {
    assert Iterators(Inputs) == {0, 1} by { assert Inputs[0].v == 0 && Inputs[1].v == 1; }
    forall k | 0 <= k < |Indices| ensures Eval(Indices[k], P) == Eval(Indices[k], Q) { IndexAgrees(k); }
    assert InBox(Inputs, P) && InBox(Inputs, Q);
    assert SameIndices(Indices, P, Q);
    assert SameOutside(Inputs, P, Q) by { assert forall v: nat :: v != 0 && v != 1 ==> Get(P, v) == Get(Q, v); }
    assert !SameInputs(Inputs, P, Q) by { assert Get(P, Inputs[0].v) != Get(Q, Inputs[0].v); }
  }

  /** A literal operand. */
  lemma {:induction false} LiteralPositive(op: BinOp, e: Expr, n: int, iters: set<nat>)
    requires PositiveFactors(e, iters) && n > 0 && (op == Mul || IsDivision(op))
    ensures PositiveFactors(Bin(op, e, IntImm(n)), iters)
  {
    assert FreeVars(IntImm(n)) !! iters && Eval(IntImm(n), map[]) == n;
    assert OperandsPositive(op, e, IntImm(n), iters);
    assert PositiveFactors(IntImm(n), iters);
  }

  lemma {:induction false} Positive()
    ensures AllPositive(Indices, Inputs)
  {
    var it := Iterators(Inputs);
    LiteralPositive(Mul, Var(1), 4, it);
    LiteralPositive(Mul, Var(1), 8, it);
    LiteralPositive(Mul, Var(0), 2, it);
    assert PositiveFactors(Row, it) && PositiveFactors(Twice, it);
    LiteralPositive(FloorDivOp, Row, 4, it);
    LiteralPositive(FloorModOp, Twice, 4, it);
  }

  /** Detection accepts the indices, and all factors are positive, yet two different points have the
      same indices: the two sums have one form but base scales 1 and 2. */
  lemma {:induction false} AcceptedButNotInjective()
    ensures Detect(Indices, Inputs).0 == Result && AllPositive(Indices, Inputs)
    ensures !ScalesAgree(Indices, Inputs) && !Injective(Indices, Inputs)
  {
    Accepted();
    Rewritten();
    Positive();
    MemoExact(Indices, Inputs);
    NotInjective();
  }
}
