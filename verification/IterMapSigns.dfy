/** Scales and divisors of opposite signs, and scales that cancel, in DetectIterMap
    (src/arith/iter_affine_map.cc): inputs that it accepts although the result is wrong, and when
    exactly the quotient of an iterator is right. */
module IterMapSigns {
  import opened IntOperator
  import opened PrimExprs
  import opened Wrappers
  import opened IterMap
  import opened IterMapBijection
  import opened IterMapDetect
  import opened IterMapPositive
  import opened IterMapSound

  const Inputs: seq<Input> := [Input(0, 0, 4)]
  const X: Mark := InputMark(0, 0, 4)

  lemma {:induction false} Vars()
    ensures VarMap(Inputs) == map[0 := SplitExpr(Split(X, 1, 4, 1))]
  {
    assert Inputs[..0] == [];
  }

  /** Rewriting a single index. */
  lemma {:induction false} RewriteOne(e: Expr, vars: map<nat, IterExpr>, memo: Memo)
    ensures var (r, memo') := Rewrite(e, vars, memo);
            RewriteAll([e], vars, memo) == (if r.None? then None else Some([r.value]), memo')
  {
    assert [e][1..] == [];
    var (r, memo') := Rewrite(e, vars, memo);
    if r.Some? { assert [r.value] + [] == [r.value]; }
  }

  // ----- opposite signs ----------------------------------------------------------------------

  /** x * -1 */
  const Mirrored: Expr := Bin(Mul, Var(0), IntImm(-1))
  /** (x * -1) / 2 and (x * -1) mod 2 */
  const Indices: seq<Expr> := [Bin(FloorDivOp, Mirrored, IntImm(2)), Bin(FloorModOp, Mirrored, IntImm(2))]

  const High: Split := Split(X, -2, -2, 1)
  const Low: Split := Split(X, 1, -2, -1)
  const Result: seq<IterSum> := [IterSum([High], IntImm(0)), IterSum([Low], IntImm(0))]

  lemma {:induction false} Rewritten()
    ensures RewriteAll(Indices, VarMap(Inputs), NoMemo) == (Some(Result), NoMemo.(positive := false))
  {
    Vars();
    var vars, s, after := VarMap(Inputs), Split(X, 1, 4, -1), NoMemo.(positive := false);
    assert Mutate(Mirrored, vars, NoMemo) == (Some(SplitExpr(s)), NoMemo);
    assert Mutate(Mirrored, vars, after) == (Some(SplitExpr(s)), after);
    assert FloorDiv(2, -1) == -2 && FloorDiv(4, -2) == -2 && TruncMod(2, -1) == 0 && TruncMod(4, -2) == 0;
    assert SplitFloorDiv(s, 2) == Some(SplitExpr(High)) && SplitFloorMod(s, 2) == Some(SplitExpr(Low));
    assert Mutate(Indices[0], vars, NoMemo) == (Some(SplitExpr(High)), after);
    assert Mutate(Indices[1], vars, after) == (Some(SplitExpr(Low)), after);
    assert Indices[1..] == [Indices[1]];
    RewriteOne(Indices[1], vars, after);
    assert [Result[0]] + [Result[1]] == Result;
  }

  lemma {:induction false} Tiled()
    ensures NormalizeSplits(4, [High, Low]) != []
  {
    var ss := [High, Low];
    assert LowerFactors(ss) == [-2, 1] && Extents(ss) == [-2, -2] && AllUnused(2) == [false, false];
    assert FindKey([-2, 1], [false, false], 1, 0) == 1;
    assert [false, false][1 := true] == [false, true] && [false, true][0 := true] == [true, true];
    assert PickChain([-2, 1], [-2, -2], [true, true], 4, 0, 0) == Some(Picked([], 4));
    assert FindKey([-2, 1], [false, true], -2, 0) == 0;
    assert PickChain([-2, 1], [-2, -2], [false, true], -2, 1, 0) == Some(Picked([0] + [], 4));
    assert PickChain([-2, 1], [-2, -2], [false, false], 1, 2, 0) == Some(Picked([1] + ([0] + []), 4));
  }

  lemma {:induction false} Accepted()
    ensures Detect(Indices, Inputs).0 == Result
  {
    Rewritten();
    var s0 := Collected({}, map[]);
    var s1 := AddUse(CollectMark(X, s0), X, Top(0));
    var s2 := AddUse(CollectMark(X, s1), X, Top(1));
    assert CollectMark(X, s0) == Collected({X}, map[]) && CollectMark(X, s1) == s1;
    assert [] + [Top(0)] == [Top(0)] && [Top(0)] + [Top(1)] == [Top(0), Top(1)];
    assert s2 == Collected({X}, map[X := [Top(0), Top(1)]]);
    assert CollectIndices(Result, 2, s2) == s2;
    assert CollectIndices(Result, 1, s1) == s2;
    assert CollectIndices(Result, 0, s0) == s2;
    assert ResolveAll([Top(0), Top(1)], Result) == [High, Low];
    Tiled();
  }

  /** x = 3 */
  const Last: Env := map[0 := 3]

  /** Detection accepts (x * -1) / 2 and (x * -1) mod 2, but at x = 3 the first sum is 0 where the
      index is -2, and its digits do not lie within its extent. */
  lemma {:induction false} AcceptedWithWrongValue()
    ensures Detect(Indices, Inputs).0 == Result && InBox(Inputs, Last)
    ensures Eval(Indices[0], Last) == -2 && SumValue(Result[0], Last) == 0
    ensures !SameValues(Indices, Result, Inputs) && !DigitBijection(Result, Inputs)
  {
    Accepted();
    assert Eval(Mirrored, Last) == -3;
    assert Eval(Indices[0], Last) == FloorDiv(-3, 2) == -2;
    assert MarkValue(X, Last) == 3;
    assert FloorDiv(3, -2) == -2 && FloorMod(-2, -2) == 0;
    assert SplitDigit(High, Last) == 0;
    SingleSplit(High, Last);
    assert SumValue(Result[0], Last) == 0;
    assert IndexExtent(Result, 0) == -2 && IndexDigit(Result, 0, Last) == 0;
  }

  // ----- scales that cancel ------------------------------------------------------------------

  /** x - x */
  const Nothing: seq<Expr> := [Bin(Sub, Var(0), Var(0))]
  const ZeroScale: seq<IterSum> := [IterSum([Split(X, 1, 4, 0)], IntImm(0))]

  /** Detection accepts x - x, which is 0 everywhere. */
  lemma {:induction false} AcceptedZeroScale()
    ensures Detect(Nothing, Inputs).0 == ZeroScale && !Injective(Nothing, Inputs)
  {
    Vars();
    var vars, s := VarMap(Inputs), Split(X, 1, 4, 1);
    assert AddSplit([s], s, -1, 0) == [Split(X, 1, 4, 0)];
    assert Mutate(Nothing[0], vars, NoMemo) == (Some(SumExpr([Split(X, 1, 4, 0)], IntImm(0))), NoMemo);
    RewriteOne(Nothing[0], vars, NoMemo);
    var s0 := Collected({}, map[]);
    var s1 := AddUse(CollectMark(X, s0), X, Top(0));
    assert [] + [Top(0)] == [Top(0)];
    assert s1 == Collected({X}, map[X := [Top(0)]]);
    assert CollectIndices(ZeroScale, 1, s1) == s1;
    assert CollectIndices(ZeroScale, 0, s0) == s1;
    assert ResolveAll([Top(0)], ZeroScale) == [Split(X, 1, 4, 0)];
    OneUse(Split(X, 1, 4, 0));
    var p: Env, q: Env := map[0 := 0], map[0 := 1];
    assert InBox(Inputs, p) && InBox(Inputs, q);
    assert Iterators(Inputs) == {0} by { assert Inputs[0].v == 0; }
    assert SameOutside(Inputs, p, q);
    assert SameIndices(Nothing, p, q);
    assert !SameInputs(Inputs, p, q) by { assert Get(p, Inputs[0].v) != Get(q, Inputs[0].v); }
  }

  // ----- the quotient of an iterator ---------------------------------------------------------

  /** Every iterator at its last value. */
  function LastPoint(inputs: seq<Input>): Env {
    if |inputs| == 0 then map[]
    else
      var x := inputs[|inputs| - 1];
      LastPoint(inputs[..|inputs| - 1])[x.v := x.min + x.extent - 1]
  }

  lemma {:induction false} LastPointAt(inputs: seq<Input>, i: nat)
    requires DistinctInputs(inputs) && i < |inputs|
    ensures Get(LastPoint(inputs), inputs[i].v) == inputs[i].min + inputs[i].extent - 1
  {
    var n := |inputs| - 1;
    if i < n {
      assert inputs[..n][i] == inputs[i];
      LastPointAt(inputs[..n], i);
      assert inputs[i].v != inputs[n].v;
    }
  }

  lemma {:induction false} LastPointInBox(inputs: seq<Input>)
    requires DistinctInputs(inputs) && InputsOk(inputs)
    ensures InBox(inputs, LastPoint(inputs))
  {
    forall i | 0 <= i < |inputs|
      ensures inputs[i].min <= Get(LastPoint(inputs), inputs[i].v) < inputs[i].min + inputs[i].extent
    {
      LastPointAt(inputs, i);
    }
  }

  /** On the iteration box the quotient of a scaled iterator has the floor quotient as its value
      exactly when scale and divisor are on one side, or differ by their sign only. */
  lemma {:induction false} IteratorQuotientExact(x: Input, scale: int, c: int, inputs: seq<Input>)
    requires DistinctInputs(inputs) && InputsOk(inputs) && x in inputs && c != 0
    requires SplitFloorDiv(FullSplit(InputMark(x.v, x.min, x.extent), scale), c).Some?
    ensures var s := FullSplit(InputMark(x.v, x.min, x.extent), scale);
            (forall env: Env :: InBox(inputs, env) ==>
               IterValue(SplitFloorDiv(s, c).value, env) == FloorDiv(SplitValue(s, env), c)) <==>
            SameSide(scale, c) || c == -scale
  {
    var s := FullSplit(InputMark(x.v, x.min, x.extent), scale);
    assert SplitOk(s, inputs);
    if SameSide(scale, c) {
      SplitFloorDivExact(s, c, inputs);
    } else {
      LeftOver(scale, c);
      var k := FloorDiv(c, scale);
      if k == -1 {
        forall env: Env | InBox(inputs, env)
          ensures IterValue(SplitFloorDiv(s, c).value, env) == FloorDiv(SplitValue(s, env), c)
        {
          MirroredRight(s, inputs, env);
        }
      } else {
        LastPointInBox(inputs);
        var i :| 0 <= i < |inputs| && inputs[i] == x;
        LastPointAt(inputs, i);
        LastWrong(s, k, inputs, LastPoint(inputs));
        if c == -scale { FloorDivModUnique(c, scale, -1, 0); }
      }
    }
  }

  lemma {:induction false} MirroredRight(s: Split, inputs: seq<Input>, env: Env)
    requires SplitOk(s, inputs) && s.lowerFactor == 1 && s.source.extent == s.extent && s.scale != 0 &&
             InBox(inputs, env)
    ensures SplitValue(Split(s.source, -1, FloorDiv(s.extent, -1), 1), env) ==
            FloorDiv(SplitValue(s, env), -1 * s.scale)
  {
    var y := SplitDigit(s, env);
    FullSplitValue(s, inputs, env);
    ScaledFloor(y, -1, s.scale);
    FloorDivModUnique(y, -1, -y, 0);
    FloorDivModUnique(s.extent, -1, -s.extent, 0);
    FloorDivModUnique(-y, -s.extent, 0, -y);
  }

  /** For k <= -2 the last value of the iterator goes wrong. */
  lemma {:induction false} LastWrong(s: Split, k: int, inputs: seq<Input>, env: Env)
    requires SplitOk(s, inputs) && s.lowerFactor == 1 && s.source.extent == s.extent && s.scale != 0
    requires k < -1 && TruncMod(s.extent, k) == 0 && InBox(inputs, env) && MarkValue(s.source, env) == s.extent - 1
    ensures k * s.scale != 0
    ensures SplitValue(Split(s.source, k, FloorDiv(s.extent, k), 1), env) != FloorDiv(SplitValue(s, env), k * s.scale)
  {
    FullSplitValue(s, inputs, env);
    RemainderZero(s.extent, k);
    var e, f := s.extent, FloorDiv(s.extent, k);
    ScaledFloor(e - 1, k, s.scale);
    assert f < 0 by { if f >= 0 { MulSigns(f, k); MulLe(0, f, -k); } }
    FloorDivModUnique(e - 1, k, f, -1);
    FloorDivModUnique(f, f, 1, 0);
    var t := Split(s.source, k, f, 1);
    DigitIsFloor(t, env);
  }
}
