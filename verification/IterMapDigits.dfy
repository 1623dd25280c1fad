/** Detection accepts mixed-radix digits (DetectIterMap in src/arith/iter_affine_map.cc): indices that
    are the digits of the iterators, in any order, are accepted as what they are. */
module IterMapDigits {
  import opened IntOperator
  import opened PrimExprs
  import opened Wrappers
  import opened MixedRadix
  import opened IterMap
  import opened IterMapBijection
  import opened IterMapDetect
  import opened IterMapCheck

  /** The digit of weight w and extent e of iterator i. */
  datatype DigitOf = DigitOf(i: nat, w: int, e: int)

  function DigitIndex(base: Expr, w: int, e: int): Expr {
    Bin(FloorModOp, Bin(FloorDivOp, base, IntImm(w)), IntImm(e))
  }

  /** The iterator counted from 0. */
  function FromZero(x: Input): Expr { Bin(Sub, Var(x.v), IntImm(x.min)) }

  function MarkOf(x: Input): Mark { InputMark(x.v, x.min, x.extent) }

  // ----- rewriting one digit -------------------------------------------------------------------

  /** An expression that comes to one split: a split, or a sum of one. */
  predicate IsOne(r: IterExpr, s: Split) { r == SplitExpr(s) || r == SumExpr([s], IntImm(0)) }

  lemma {:induction false} VarMapAt(inputs: seq<Input>, i: nat)
    requires i < |inputs| && DistinctInputs(inputs)
    ensures inputs[i].v in VarMap(inputs) && VarMap(inputs)[inputs[i].v] == InputIter(inputs[i])
  {
    var n := |inputs| - 1;
    if i < n { VarMapAt(inputs[..n], i); }
  }

  lemma {:induction false} FromZeroRewrites(inputs: seq<Input>, i: nat, memo: Memo)
    requires i < |inputs| && DistinctInputs(inputs)
    ensures var (r, memo') := Mutate(FromZero(inputs[i]), VarMap(inputs), memo);
            memo' == memo && r.Some? && IsOne(r.value, FullSplit(MarkOf(inputs[i]), 1))
  {
    var x, vars := inputs[i], VarMap(inputs);
    VarMapAt(inputs, i);
    assert Mutate(Var(x.v), vars, memo) == (Some(InputIter(x)), memo);
    assert Mutate(IntImm(x.min), vars, memo) == (Some(Plain(IntImm(x.min))), memo);
    assert Mutate(FromZero(x), vars, memo) == (Some(VisitSub(InputIter(x), Plain(IntImm(x.min)))), memo);
  }

  /** Dividing a split of scale 1 by a factor of its extent. */
  lemma {:induction false} UnitQuotients(s: Split, c: int)
    requires s.scale == 1 && c > 1 && Divides(c, s.extent)
    ensures SplitFloorDiv(s, c) == Some(SplitExpr(Split(s.source, s.lowerFactor * c, FloorDiv(s.extent, c), 1)))
    ensures SplitFloorMod(s, c) == Some(SplitExpr(s.(extent := c)))
  {
    RemainderZero(s.extent, c);
    DividesIntro(1, c);
    RemainderZero(c, 1);
  }

  lemma {:induction false} OneDivided(r: IterExpr, s: Split, c: int, memo: Memo, isDiv: bool)
    requires IsOne(r, s) && s.scale == 1 && c > 1 && Divides(c, s.extent)
    ensures VisitDiv(r, Plain(IntImm(c)), memo, isDiv) == (Quotient(s, c, isDiv), memo)
  {
    UnitQuotients(s, c);
    assert Observe(memo, 1, c) == memo;
  }

  lemma {:induction false} ExtentFactors(w: int, e: int, extent: int)
    requires w > 0 && e > 0 && Divides(w * e, extent)
    ensures Divides(w, extent) && Divides(e, FloorDiv(extent, w))
  {
    var k := DividesElim(w * e, extent);
    MulAssoc(k, e, w);
    DividesIntro(w, k * e);
    RemainderZero(extent, w);
    TruncDivExact(k * e, w);
    DividesIntro(e, k);
  }

  /** A digit of an expression that comes to one full split is a split of its mark. */
  lemma {:induction false} DigitRewrites(base: Expr, m: Mark, w: int, e: int, vars: map<nat, IterExpr>, memo: Memo,
      memo': Memo)
    requires var (r, after) := Mutate(base, vars, memo); after == memo' && r.Some? && IsOne(r.value, FullSplit(m, 1))
    requires w > 0 && e > 1 && Divides(w * e, m.extent)
    ensures Mutate(DigitIndex(base, w, e), vars, memo) == (Some(SplitExpr(Split(m, w, e, 1))), memo')
  {
    var r, s := Mutate(base, vars, memo).0.value, FullSplit(m, 1);
    ExtentFactors(w, e, m.extent);
    assert Mutate(IntImm(w), vars, memo') == (Some(Plain(IntImm(w))), memo');
    assert Mutate(IntImm(e), vars, memo') == (Some(Plain(IntImm(e))), memo');
    var quotient := Bin(FloorDivOp, base, IntImm(w));
    var s' := Split(m, w, FloorDiv(m.extent, w), 1);
    if w == 1 {
      RemainderZero(m.extent, 1);
      assert Mutate(quotient, vars, memo) == (Some(r), memo');
      OneDivided(r, s, e, memo', false);
      UnitQuotients(s, e);
    } else {
      OneDivided(r, s, w, memo', true);
      UnitQuotients(s, w);
      assert Mutate(quotient, vars, memo) == (Some(SplitExpr(s')), memo');
      OneDivided(SplitExpr(s'), s', e, memo', false);
      UnitQuotients(s', e);
    }
  }

  // ----- all digits of all iterators ------------------------------------------------------------

  function Weights(ds: seq<DigitOf>, cover: seq<nat>): (r: seq<int>)
    requires forall p :: 0 <= p < |cover| ==> cover[p] < |ds|
    ensures |r| == |cover| && forall p :: 0 <= p < |cover| ==> r[p] == ds[cover[p]].w
  {
    seq(|cover|, p requires 0 <= p < |cover| => ds[cover[p]].w)
  }

  function Sizes(ds: seq<DigitOf>, cover: seq<nat>): (r: seq<int>)
    requires forall p :: 0 <= p < |cover| ==> cover[p] < |ds|
    ensures |r| == |cover| && forall p :: 0 <= p < |cover| ==> r[p] == ds[cover[p]].e
  {
    seq(|cover|, p requires 0 <= p < |cover| => ds[cover[p]].e)
  }

  /** The digits of iterator i, outermost first, are a mixed-radix system of its extent. */
  ghost predicate DigitsCover(ds: seq<DigitOf>, cover: seq<nat>, i: nat, extent: int) {
    && (forall p :: 0 <= p < |cover| ==> cover[p] < |ds| && ds[cover[p]].i == i)
    && (forall k :: 0 <= k < |ds| && ds[k].i == i ==> k in cover)
    && Radix(Weights(ds, cover), Sizes(ds, cover), extent)
  }

  /** A tuple of digits, none of them of one value only, that together are all digits of all marks. */
  ghost predicate DigitTuple(ds: seq<DigitOf>, marks: seq<Mark>, covers: seq<seq<nat>>) {
    && |covers| == |marks| && (forall i :: 0 <= i < |marks| ==> DigitsCover(ds, covers[i], i, marks[i].extent))
    && (forall k :: 0 <= k < |ds| ==> ds[k].i < |marks| && ds[k].e > 1)
  }

  lemma {:induction false} DigitDivides(ds: seq<DigitOf>, marks: seq<Mark>, covers: seq<seq<nat>>, k: nat)
    requires DigitTuple(ds, marks, covers) && k < |ds|
    ensures ds[k].w > 0 && Divides(ds[k].w * ds[k].e, marks[ds[k].i].extent)
  {
    var cover, extent := covers[ds[k].i], marks[ds[k].i].extent;
    assert DigitsCover(ds, cover, ds[k].i, extent);
    var p :| 0 <= p < |cover| && cover[p] == k;
    WeightsPositive(Weights(ds, cover), Sizes(ds, cover), extent, p);
    RadixDivides(Weights(ds, cover), Sizes(ds, cover), extent, p);
  }

  function SumsOf(ds: seq<DigitOf>, marks: seq<Mark>): (r: seq<IterSum>)
    requires forall k :: 0 <= k < |ds| ==> ds[k].i < |marks|
    ensures |r| == |ds| && forall k :: 0 <= k < |ds| ==>
              r[k] == IterSum([Split(marks[ds[k].i], ds[k].w, ds[k].e, 1)], IntImm(0))
  {
    seq(|ds|, k requires 0 <= k < |ds| => IterSum([Split(marks[ds[k].i], ds[k].w, ds[k].e, 1)], IntImm(0)))
  }

  function IndicesOf(ds: seq<DigitOf>, bases: seq<Expr>): (r: seq<Expr>)
    requires forall k :: 0 <= k < |ds| ==> ds[k].i < |bases|
    ensures |r| == |ds| && forall k :: 0 <= k < |ds| ==> r[k] == DigitIndex(bases[ds[k].i], ds[k].w, ds[k].e)
  {
    seq(|ds|, k requires 0 <= k < |ds| => DigitIndex(bases[ds[k].i], ds[k].w, ds[k].e))
  }

  function MarksOf(inputs: seq<Input>): (r: seq<Mark>)
    ensures |r| == |inputs| && forall i :: 0 <= i < |inputs| ==> r[i] == MarkOf(inputs[i])
  {
    seq(|inputs|, i requires 0 <= i < |inputs| => MarkOf(inputs[i]))
  }

  function BasesOf(inputs: seq<Input>): (r: seq<Expr>)
    ensures |r| == |inputs| && forall i :: 0 <= i < |inputs| ==> r[i] == FromZero(inputs[i])
  {
    seq(|inputs|, i requires 0 <= i < |inputs| => FromZero(inputs[i]))
  }

  /** Rewriting one index after another that each leave the memo alone. */
  lemma {:induction false} RewriteEach(es: seq<Expr>, sums: seq<IterSum>, vars: map<nat, IterExpr>, memo: Memo)
    requires |es| == |sums| && forall k :: 0 <= k < |es| ==> Rewrite(es[k], vars, memo) == (Some(sums[k]), memo)
    ensures RewriteAll(es, vars, memo) == (Some(sums), memo)
    decreases |es|
  {
    if |es| > 0 {
      forall k | 0 <= k < |es[1..]| ensures Rewrite(es[1..][k], vars, memo) == (Some(sums[1..][k]), memo) {
        assert Rewrite(es[k + 1], vars, memo) == (Some(sums[k + 1]), memo);
      }
      RewriteEach(es[1..], sums[1..], vars, memo);
      assert Rewrite(es[0], vars, memo) == (Some(sums[0]), memo);
      assert sums == [sums[0]] + sums[1..];
    }
  }

  lemma {:induction false} DigitRewritten(inputs: seq<Input>, d: DigitOf, memo: Memo)
    requires DistinctInputs(inputs) && d.i < |inputs| && d.w > 0 && d.e > 1
    requires Divides(d.w * d.e, inputs[d.i].extent)
    ensures Rewrite(DigitIndex(FromZero(inputs[d.i]), d.w, d.e), VarMap(inputs), memo) ==
            (Some(IterSum([Split(MarkOf(inputs[d.i]), d.w, d.e, 1)], IntImm(0))), memo)
  {
    FromZeroRewrites(inputs, d.i, memo);
    DigitRewrites(FromZero(inputs[d.i]), MarkOf(inputs[d.i]), d.w, d.e, VarMap(inputs), memo, memo);
  }

  lemma {:induction false} DigitsRewritten(ds: seq<DigitOf>, inputs: seq<Input>, covers: seq<seq<nat>>, memo: Memo)
    requires DistinctInputs(inputs) && DigitTuple(ds, MarksOf(inputs), covers)
    ensures RewriteAll(IndicesOf(ds, BasesOf(inputs)), VarMap(inputs), memo) ==
            (Some(SumsOf(ds, MarksOf(inputs))), memo)
  {
    var es, sums := IndicesOf(ds, BasesOf(inputs)), SumsOf(ds, MarksOf(inputs));
    forall k | 0 <= k < |es| ensures Rewrite(es[k], VarMap(inputs), memo) == (Some(sums[k]), memo) {
      DigitDivides(ds, MarksOf(inputs), covers, k);
      DigitRewritten(inputs, ds[k], memo);
    }
    RewriteEach(es, sums, VarMap(inputs), memo);
  }

  /** The slots of the digits of iterator i. */
  function TopSlots(cover: seq<nat>): (r: seq<Slot>)
    ensures |r| == |cover| && forall p :: 0 <= p < |cover| ==> r[p] == Top(cover[p])
  {
    seq(|cover|, p requires 0 <= p < |cover| => Top(cover[p]))
  }

  lemma {:induction false} TopCovers(ds: seq<DigitOf>, marks: seq<Mark>, covers: seq<seq<nat>>, i: nat, vis: set<Mark>)
    requires DigitTuple(ds, marks, covers) && i < |marks|
    ensures Covers(TopSlots(covers[i]), marks[i], SumsOf(ds, marks), vis)
    ensures forall k :: 0 <= k < |ds| && ds[k].i == i ==> Top(k) in TopSlots(covers[i])
  {
    var cover, slots, sums := covers[i], TopSlots(covers[i]), SumsOf(ds, marks);
    assert DigitsCover(ds, cover, i, marks[i].extent);
    var ss := ResolveAll(slots, sums);
    forall p | 0 <= p < |slots|
      ensures SlotIn(slots[p], sums, vis) && ss[p] == Split(marks[i], ds[cover[p]].w, ds[cover[p]].e, 1)
    {
      assert ds[cover[p]].i == i;
    }
    assert LowerFactors(ss) == Weights(ds, cover) && Extents(ss) == Sizes(ds, cover);
    forall k | 0 <= k < |ds| && ds[k].i == i ensures Top(k) in slots {
      var p :| 0 <= p < |cover| && cover[p] == k;
      assert slots[p] == Top(k);
    }
  }

  /** The uses of the inputs: their digits. */
  ghost predicate TopUses(marks: seq<Mark>, covers: seq<seq<nat>>, uses: map<Mark, seq<Slot>>) {
    |covers| == |marks| &&
    forall i :: 0 <= i < |marks| ==> marks[i] in uses && uses[marks[i]] == TopSlots(covers[i])
  }

  lemma {:induction false} InputUses(inputs: seq<Input>, covers: seq<seq<nat>>, n: nat)
    returns (uses: map<Mark, seq<Slot>>)
    requires DistinctInputs(inputs) && |covers| == |inputs| && n <= |inputs|
    ensures forall i :: 0 <= i < n ==> MarkOf(inputs[i]) in uses && uses[MarkOf(inputs[i])] == TopSlots(covers[i])
  {
    uses := map[];
    if n > 0 {
      var rest := InputUses(inputs, covers, n - 1);
      uses := rest[MarkOf(inputs[n - 1]) := TopSlots(covers[n - 1])];
    }
  }

  function MarkSet(marks: seq<Mark>): set<Mark> { set m | m in marks }

  lemma {:induction false} TopSlotUsed(ds: seq<DigitOf>, marks: seq<Mark>, covers: seq<seq<nat>>,
      uses: map<Mark, seq<Slot>>, k: nat)
    requires DigitTuple(ds, marks, covers) && TopUses(marks, covers, uses) && k < |ds|
    ensures var s := Resolve(Top(k), SumsOf(ds, marks));
            s.source in MarkSet(marks) && s.lowerFactor > 0 && s.extent > 0 && Top(k) in uses[s.source]
  {
    DigitDivides(ds, marks, covers, k);
    TopCovers(ds, marks, covers, ds[k].i, {});
  }

  lemma {:induction false} MarkCovered(ds: seq<DigitOf>, marks: seq<Mark>, covers: seq<seq<nat>>,
      uses: map<Mark, seq<Slot>>, m: Mark, vis: set<Mark>)
    requires DigitTuple(ds, marks, covers) && TopUses(marks, covers, uses) && m in marks
    ensures m in uses && Covers(uses[m], m, SumsOf(ds, marks), vis)
  {
    var i :| 0 <= i < |marks| && m == marks[i];
    TopCovers(ds, marks, covers, i, vis);
  }

  /** The digits of the inputs are certified. */
  lemma {:induction false} DigitsCertified(ds: seq<DigitOf>, inputs: seq<Input>, covers: seq<seq<nat>>,
      uses: map<Mark, seq<Slot>>)
    requires InputsOk(inputs) && DigitTuple(ds, MarksOf(inputs), covers) && TopUses(MarksOf(inputs), covers, uses)
    ensures Certificate(SumsOf(ds, MarksOf(inputs)), inputs, MarkSet(MarksOf(inputs)), uses)
  {
    var marks := MarksOf(inputs);
    var sums, vis := SumsOf(ds, marks), MarkSet(marks);
    forall m | m in vis ensures MarkOk(m, inputs) && m in uses && Covers(uses[m], m, sums, vis) {
      MarkCovered(ds, marks, covers, uses, m, vis);
      InputMarkOk(inputs, m);
    }
    forall slot | SlotIn(slot, sums, vis)
      ensures var s := Resolve(slot, sums);
              s.source in vis && s.lowerFactor > 0 && s.extent > 0 && slot in uses[s.source]
    {
      if slot.Arg? { InputMarkOk(inputs, slot.m); }
      TopSlotUsed(ds, marks, covers, uses, slot.k);
    }
    forall i | 0 <= i < |inputs| ensures InputMark(inputs[i].v, inputs[i].min, inputs[i].extent) in vis {
      assert marks[i] in marks;
    }
  }

  lemma {:induction false} InputMarkOk(inputs: seq<Input>, m: Mark)
    requires m in MarksOf(inputs)
    ensures m.InputMark? && MarkOk(m, inputs)
  {
    var i :| 0 <= i < |inputs| && m == MarksOf(inputs)[i];
    assert inputs[i] in inputs;
  }

  lemma {:induction false} SumsOk(ds: seq<DigitOf>, inputs: seq<Input>, covers: seq<seq<nat>>)
    requires DigitTuple(ds, MarksOf(inputs), covers)
    ensures IndicesOk(SumsOf(ds, MarksOf(inputs)), inputs)
  {
    var marks := MarksOf(inputs);
    forall k | 0 <= k < |ds| ensures SplitsOk(SumsOf(ds, marks)[k].args, inputs) {
      DigitDivides(ds, marks, covers, k);
      InputMarkOk(inputs, marks[ds[k].i]);
    }
  }

  lemma {:induction false} NoUnitUses(ds: seq<DigitOf>, marks: seq<Mark>, vis: set<Mark>, slots: seq<Slot>)
    requires forall k :: 0 <= k < |ds| ==> ds[k].i < |marks| && ds[k].e > 1
    requires SlotsIn(slots, SumsOf(ds, marks), vis) && forall x :: x in vis ==> x.InputMark?
    ensures UnitUsesFirst(slots, SumsOf(ds, marks))
  {
    var ss := ResolveAll(slots, SumsOf(ds, marks));
    forall p | 0 <= p < |ss| ensures Extents(ss)[p] > 1 {
      assert SlotIn(slots[p], SumsOf(ds, marks), vis);
    }
  }

  lemma {:induction false} DigitsChecked(ds: seq<DigitOf>, inputs: seq<Input>, covers: seq<seq<nat>>)
    requires DistinctInputs(inputs) && InputsOk(inputs) && DigitTuple(ds, MarksOf(inputs), covers)
    ensures CheckBijective(SumsOf(ds, MarksOf(inputs)), inputs)
  {
    var marks := MarksOf(inputs);
    var sums, vis := SumsOf(ds, marks), MarkSet(marks);
    var uses := InputUses(inputs, covers, |inputs|);
    SumsOk(ds, inputs, covers);
    DigitsCertified(ds, inputs, covers, uses);
    CertifiedExactly(sums, inputs, vis, uses);
    FoundOk(sums, inputs);
    forall m | m in Found(sums).visited ensures UnitUsesFirst(UsesOf(Found(sums), m), sums) {
      forall x | x in vis ensures x.InputMark? { InputMarkOk(inputs, x); }
      NoUnitUses(ds, marks, vis, UsesOf(Found(sums), m));
    }
    CertificateChecked(sums, inputs, vis, uses);
  }

  /** Indices that are all the digits of the iterators, in any order, are accepted as these digits. */
  lemma {:induction false} DigitsAccepted(ds: seq<DigitOf>, inputs: seq<Input>, covers: seq<seq<nat>>)
    requires DistinctInputs(inputs) && InputsOk(inputs) && DigitTuple(ds, MarksOf(inputs), covers)
    ensures Detect(IndicesOf(ds, BasesOf(inputs)), inputs) == (SumsOf(ds, MarksOf(inputs)), NoMemo)
  {
    DigitsRewritten(ds, inputs, covers, NoMemo);
    DigitsChecked(ds, inputs, covers);
  }
}
