/** When every visited iterator is covered by its splits, the map from the iteration box to the
    digits of the indices is a bijection (CheckBijective in src/arith/iter_affine_map.cc). */
module IterMapBijection {
  import opened PrimExprs
  import opened MixedRadix
  import opened IterMap

  /** A place where a split is used: the split of index k, or argument i of a fused mark. */
  datatype Slot = Top(k: nat) | Arg(m: Mark, i: nat)

  predicate SlotIn(slot: Slot, indices: seq<IterSum>, vis: set<Mark>) {
    match slot
    case Top(k) => k < |indices| && |indices[k].args| == 1
    case Arg(m, i) => m in vis && m.FusedMark? && i < |m.args|
  }

  /** The split used at a place; a place that does not exist has a split of extent 0. */
  function Resolve(slot: Slot, indices: seq<IterSum>): Split {
    match slot
    case Top(k) =>
      if k < |indices| && |indices[k].args| == 1 then indices[k].args[0] else Split(InputMark(0, 0, 0), 0, 0, 0)
    case Arg(m, i) =>
      if m.FusedMark? && i < |m.args| then m.args[i] else Split(InputMark(0, 0, 0), 0, 0, 0)
  }

  ghost predicate SlotsIn(slots: seq<Slot>, indices: seq<IterSum>, vis: set<Mark>) {
    forall p :: 0 <= p < |slots| ==> SlotIn(slots[p], indices, vis)
  }

  function ResolveAll(slots: seq<Slot>, indices: seq<IterSum>): (r: seq<Split>)
    ensures |r| == |slots| && forall p :: 0 <= p < |slots| ==> r[p] == Resolve(slots[p], indices)
  {
    seq(|slots|, p requires 0 <= p < |slots| => Resolve(slots[p], indices))
  }

  /** The uses of m, outermost first, tile [0, m.extent): their lower factors and extents form a
      mixed-radix system. */
  ghost predicate Covers(slots: seq<Slot>, m: Mark, indices: seq<IterSum>, vis: set<Mark>) {
    && SlotsIn(slots, indices, vis)
    && (forall p :: 0 <= p < |slots| ==> Resolve(slots[p], indices).source == m)
    && Radix(LowerFactors(ResolveAll(slots, indices)), Extents(ResolveAll(slots, indices)), m.extent)
  }

  /** Evidence that the indices use every iterator completely. */
  ghost predicate Certificate(indices: seq<IterSum>, inputs: seq<Input>, vis: set<Mark>, uses: map<Mark, seq<Slot>>) {
    && (forall m :: m in vis ==> MarkOk(m, inputs) && m in uses && Covers(uses[m], m, indices, vis))
    && (forall slot :: SlotIn(slot, indices, vis) ==>
          var s := Resolve(slot, indices);
          s.source in vis && s.lowerFactor > 0 && s.extent > 0 && slot in uses[s.source])
    && (forall i :: 0 <= i < |inputs| ==> InputMark(inputs[i].v, inputs[i].min, inputs[i].extent) in vis)
  }

  ghost predicate DistinctInputs(inputs: seq<Input>) {
    forall i, j :: 0 <= i < j < |inputs| ==> inputs[i].v != inputs[j].v
  }

  /** The digit of index k; indices without an iterator have none. */
  function IndexDigit(indices: seq<IterSum>, k: nat, env: Env): int
    requires k < |indices|
  {
    if |indices[k].args| == 1 then SplitDigit(indices[k].args[0], env) else 0
  }

  function IndexExtent(indices: seq<IterSum>, k: nat): int
    requires k < |indices|
  {
    if |indices[k].args| == 1 then indices[k].args[0].extent else 1
  }

  // ----- heights -----------------------------------------------------------------------------

  function Height(m: Mark): nat
    decreases m, 0
  {
    match m
    case InputMark(_, _, _) => 0
    case FusedMark(args, _) => 1 + ArgsHeight(args)
  }

  function ArgsHeight(args: seq<Split>): nat
    decreases args, 0
  {
    if |args| == 0 then 0
    else
      var h, t := SplitHeight(args[0]), ArgsHeight(args[1..]);
      if h > t then h else t
  }

  function SplitHeight(s: Split): nat
    decreases s, 0
  {
    Height(s.source)
  }

  lemma {:induction false} ArgHeight(args: seq<Split>, i: nat)
    requires i < |args|
    ensures Height(args[i].source) <= ArgsHeight(args)
  {
    if i > 0 {
      ArgHeight(args[1..], i - 1);
      assert args[1..][i - 1] == args[i];
    }
  }

  /** A fused mark is higher than the marks it uses. */
  lemma {:induction false} UseIsHigher(slot: Slot, m: Mark, indices: seq<IterSum>, vis: set<Mark>)
    requires SlotIn(slot, indices, vis) && slot.Arg? && Resolve(slot, indices).source == m
    ensures Height(slot.m) > Height(m)
  {
    ArgHeight(slot.m.args, slot.i);
  }

  lemma {:induction false} HeightBound(vis: set<Mark>) returns (h: nat)
    ensures forall m :: m in vis ==> Height(m) <= h
    decreases vis
  {
    if vis == {} {
      h := 0;
    } else {
      var m :| m in vis;
      var h' := HeightBound(vis - {m});
      h := h' + Height(m);
      assert forall x :: x in vis ==> x == m || x in vis - {m};
    }
  }

  // ----- the digits determine the valuation -------------------------------------------------

  /** The uses of a mark read off all its digits. */
  lemma {:induction false} ValueFromUses(m: Mark, indices: seq<IterSum>, inputs: seq<Input>, vis: set<Mark>,
      slots: seq<Slot>, env: Env)
    requires MarkOk(m, inputs) && Covers(slots, m, indices, vis) && InBox(inputs, env)
    requires forall p :: 0 <= p < |slots| ==> Resolve(slots[p], indices).lowerFactor > 0
    ensures MarkValue(m, env) ==
            Value(Digits(ResolveAll(slots, indices), env), LowerFactors(ResolveAll(slots, indices)))
  {
    var ss := ResolveAll(slots, indices);
    MarkInRange(m, inputs, env);
    forall p | 0 <= p < |ss| ensures Digits(ss, env)[p] == Digit(MarkValue(m, env), ss[p].lowerFactor, ss[p].extent) {
      assert Extents(ss)[p] > 0;
    }
    ValueOfDigits(MarkValue(m, env), Digits(ss, env), LowerFactors(ss), Extents(ss), m.extent);
  }

  /** Two valuations with the same index digits give every visited mark the same value. */
  lemma {:induction false} SameMarkValue(m: Mark, indices: seq<IterSum>, inputs: seq<Input>, vis: set<Mark>,
      uses: map<Mark, seq<Slot>>, h: nat, env: Env, env': Env)
    requires Certificate(indices, inputs, vis, uses) && m in vis && forall x :: x in vis ==> Height(x) <= h
    requires InBox(inputs, env) && InBox(inputs, env')
    requires forall k :: 0 <= k < |indices| ==> IndexDigit(indices, k, env) == IndexDigit(indices, k, env')
    ensures MarkValue(m, env) == MarkValue(m, env')
    decreases h - Height(m)
  {
    var slots := uses[m];
    var ss := ResolveAll(slots, indices);
    forall p | 0 <= p < |slots|
      ensures ss[p].lowerFactor > 0 && SplitDigit(ss[p], env) == SplitDigit(ss[p], env')
    {
      assert SlotIn(slots[p], indices, vis);
      match slots[p]
      case Top(k) =>
        assert IndexDigit(indices, k, env) == IndexDigit(indices, k, env');
      case Arg(M, i) =>
        UseIsHigher(slots[p], m, indices, vis);
        SameMarkValue(M, indices, inputs, vis, uses, h, env, env');
        MarkInRange(M, inputs, env);
        MarkInRange(M, inputs, env');
    }
    ValueFromUses(m, indices, inputs, vis, slots, env);
    ValueFromUses(m, indices, inputs, vis, slots, env');
    assert Digits(ss, env) == Digits(ss, env');
  }

  /** The map from the iteration box to the index digits is one-to-one. */
  lemma {:induction false} DigitsInjective(indices: seq<IterSum>, inputs: seq<Input>, vis: set<Mark>,
      uses: map<Mark, seq<Slot>>, env: Env, env': Env)
    requires Certificate(indices, inputs, vis, uses)
    requires InBox(inputs, env) && InBox(inputs, env')
    requires forall k :: 0 <= k < |indices| ==> IndexDigit(indices, k, env) == IndexDigit(indices, k, env')
    ensures forall i :: 0 <= i < |inputs| ==> Get(env, inputs[i].v) == Get(env', inputs[i].v)
  {
    var h := HeightBound(vis);
    forall i | 0 <= i < |inputs| ensures Get(env, inputs[i].v) == Get(env', inputs[i].v) {
      var m := InputMark(inputs[i].v, inputs[i].min, inputs[i].extent);
      SameMarkValue(m, indices, inputs, vis, uses, h, env, env');
    }
  }

  // ----- every tuple of digits is reached ---------------------------------------------------

  /** The digit a use contributes, given the index digits and the values of higher marks. */
  function SlotDigit(slot: Slot, d: seq<int>, vals: map<Mark, int>): int {
    match slot
    case Top(k) => if k < |d| then d[k] else 0
    case Arg(m, i) =>
      if m in vals && m.FusedMark? && i < |m.args| && m.args[i].scale > 0 && m.args[i].extent > 0
      then Digit(vals[m], m.args[i].scale, m.args[i].extent) else 0
  }

  function SlotDigits(slots: seq<Slot>, d: seq<int>, vals: map<Mark, int>): (r: seq<int>)
    ensures |r| == |slots| && forall p :: 0 <= p < |slots| ==> r[p] == SlotDigit(slots[p], d, vals)
  {
    seq(|slots|, p requires 0 <= p < |slots| => SlotDigit(slots[p], d, vals))
  }

  ghost predicate IndexDigitsIn(indices: seq<IterSum>, d: seq<int>) {
    |d| == |indices| && forall k :: 0 <= k < |indices| ==> 0 <= d[k] < IndexExtent(indices, k)
  }

  /** vals gives m the value with the digits its uses ask for. */
  ghost predicate Decoded(m: Mark, indices: seq<IterSum>, uses: map<Mark, seq<Slot>>, d: seq<int>,
      vals: map<Mark, int>)
  {
    && m in vals && m in uses
    && 0 <= vals[m] < m.extent
    && forall p :: 0 <= p < |uses[m]| ==>
         var s := Resolve(uses[m][p], indices);
         s.lowerFactor > 0 && s.extent > 0 &&
         Digit(vals[m], s.lowerFactor, s.extent) == SlotDigit(uses[m][p], d, vals)
  }

  /** The value of m put together from its uses, all of whose marks are already valued. */
  lemma {:induction false} DecodeOne(m: Mark, indices: seq<IterSum>, inputs: seq<Input>, vis: set<Mark>,
      uses: map<Mark, seq<Slot>>, d: seq<int>, vals: map<Mark, int>) returns (x: int)
    requires Certificate(indices, inputs, vis, uses) && m in vis && IndexDigitsIn(indices, d)
    requires forall M :: M in vis && Height(M) > Height(m) ==> M in vals
    ensures 0 <= x < m.extent
    ensures forall p :: 0 <= p < |uses[m]| ==>
              var s := Resolve(uses[m][p], indices);
              s.lowerFactor > 0 && s.extent > 0 &&
              Digit(x, s.lowerFactor, s.extent) == SlotDigit(uses[m][p], d, vals)
  {
    var slots := uses[m];
    var ss := ResolveAll(slots, indices);
    var ds := SlotDigits(slots, d, vals);
    forall p | 0 <= p < |slots| ensures 0 <= ds[p] < ss[p].extent && ss[p].lowerFactor > 0 {
      assert SlotIn(slots[p], indices, vis);
      UseDigitInRange(slots[p], m, indices, inputs, vis, uses, d, vals);
    }
    x := Value(ds, LowerFactors(ss));
    DigitsOfValue(ds, LowerFactors(ss), Extents(ss), m.extent);
  }

  lemma {:induction false} UseDigitInRange(slot: Slot, m: Mark, indices: seq<IterSum>, inputs: seq<Input>,
      vis: set<Mark>, uses: map<Mark, seq<Slot>>, d: seq<int>, vals: map<Mark, int>)
    requires Certificate(indices, inputs, vis, uses) && IndexDigitsIn(indices, d)
    requires SlotIn(slot, indices, vis) && Resolve(slot, indices).source == m
    requires forall M :: M in vis && Height(M) > Height(m) ==> M in vals
    ensures 0 <= SlotDigit(slot, d, vals) < Resolve(slot, indices).extent
    ensures Resolve(slot, indices).lowerFactor > 0
  {
    match slot
    case Top(k) =>
      assert 0 <= d[k] < IndexExtent(indices, k);
    case Arg(M, i) =>
      UseIsHigher(slot, m, indices, vis);
      assert MarkOk(M, inputs);
      WeightsPositive(Scales(M.args), Extents(M.args), M.extent, i);
  }

  /** Values for all marks of height at least h, from the top down. */
  lemma {:induction false} DecodeDown(indices: seq<IterSum>, inputs: seq<Input>, vis: set<Mark>,
      uses: map<Mark, seq<Slot>>, d: seq<int>, top: nat, h: nat) returns (vals: map<Mark, int>)
    requires Certificate(indices, inputs, vis, uses) && IndexDigitsIn(indices, d)
    requires forall m :: m in vis ==> Height(m) < top
    requires h <= top
    ensures forall m :: m in vals <==> m in vis && Height(m) >= h
    ensures forall m :: m in vals ==> Decoded(m, indices, uses, d, vals)
    decreases top - h
  {
    if h == top {
      vals := map[];
    } else {
      var above := DecodeDown(indices, inputs, vis, uses, d, top, h + 1);
      vals := DecodeLevel(indices, inputs, vis, uses, d, h, above, set m | m in vis && Height(m) == h);
    }
  }

  /** Adds the marks of `level`, all of height h, one at a time. */
  lemma {:induction false} DecodeLevel(indices: seq<IterSum>, inputs: seq<Input>, vis: set<Mark>,
      uses: map<Mark, seq<Slot>>, d: seq<int>, h: nat, above: map<Mark, int>, level: set<Mark>)
    returns (vals: map<Mark, int>)
    requires Certificate(indices, inputs, vis, uses) && IndexDigitsIn(indices, d)
    requires forall m :: m in level ==> m in vis && Height(m) == h
    requires forall m :: m in vis && Height(m) > h ==> m in above
    requires forall m :: m in above ==> m in vis && m !in level && Height(m) >= h && Decoded(m, indices, uses, d, above)
    ensures forall m :: m in vals <==> m in above || m in level
    ensures forall m :: m in vals ==> Decoded(m, indices, uses, d, vals)
    decreases level
  {
    if level == {} {
      vals := above;
    } else {
      var m :| m in level;
      var x := DecodeOne(m, indices, inputs, vis, uses, d, above);
      var more := above[m := x];
      forall y | y in more ensures Decoded(y, indices, uses, d, more) {
        DecodedKept(y, m, x, indices, inputs, vis, uses, d, above);
      }
      vals := DecodeLevel(indices, inputs, vis, uses, d, h, more, level - {m});
    }
  }

  /** A new value at the current height disturbs no use of a mark at this height or above. */
  lemma {:induction false} DecodedKept(y: Mark, m: Mark, x: int, indices: seq<IterSum>, inputs: seq<Input>,
      vis: set<Mark>, uses: map<Mark, seq<Slot>>, d: seq<int>, above: map<Mark, int>)
    requires Certificate(indices, inputs, vis, uses) && m in vis && m !in above && y in vis
    requires Height(y) >= Height(m)
    requires y == m || Decoded(y, indices, uses, d, above)
    requires 0 <= x < m.extent
    requires forall p :: 0 <= p < |uses[m]| ==>
               var s := Resolve(uses[m][p], indices);
               s.lowerFactor > 0 && s.extent > 0 &&
               Digit(x, s.lowerFactor, s.extent) == SlotDigit(uses[m][p], d, above)
    ensures Decoded(y, indices, uses, d, above[m := x])
  {
    assert Covers(uses[y], y, indices, vis);
    forall p | 0 <= p < |uses[y]| ensures SlotDigit(uses[y][p], d, above[m := x]) == SlotDigit(uses[y][p], d, above) {
      UseKept(uses[y][p], y, m, x, indices, vis, d, above);
    }
  }

  lemma {:induction false} UseKept(slot: Slot, y: Mark, m: Mark, x: int, indices: seq<IterSum>, vis: set<Mark>,
      d: seq<int>, above: map<Mark, int>)
    requires SlotIn(slot, indices, vis) && Resolve(slot, indices).source == y && Height(y) >= Height(m)
    ensures SlotDigit(slot, d, above[m := x]) == SlotDigit(slot, d, above)
  {
    if slot.Arg? { UseIsHigher(slot, y, indices, vis); }
  }

  /** The valuation of the inputs with the decoded values. */
  function InputValues(inputs: seq<Input>, vals: map<Mark, int>): Env {
    if |inputs| == 0 then map[]
    else
      var x := inputs[|inputs| - 1];
      var m := InputMark(x.v, x.min, x.extent);
      InputValues(inputs[..|inputs| - 1], vals)[x.v := x.min + if m in vals then vals[m] else 0]
  }

  lemma {:induction false} InputValueAt(inputs: seq<Input>, vals: map<Mark, int>, i: nat)
    requires i < |inputs| && DistinctInputs(inputs)
    requires InputMark(inputs[i].v, inputs[i].min, inputs[i].extent) in vals
    ensures Get(InputValues(inputs, vals), inputs[i].v) ==
            inputs[i].min + vals[InputMark(inputs[i].v, inputs[i].min, inputs[i].extent)]
  {
    var n := |inputs| - 1;
    if i < n {
      assert inputs[i].v != inputs[n].v;
      InputValueAt(inputs[..n], vals, i);
    }
  }

  /** Evaluating a visited mark at the decoded inputs gives its decoded value. */
  lemma {:induction false} MarkAtDecoded(m: Mark, indices: seq<IterSum>, inputs: seq<Input>, vis: set<Mark>,
      uses: map<Mark, seq<Slot>>, d: seq<int>, vals: map<Mark, int>)
    requires Certificate(indices, inputs, vis, uses) && DistinctInputs(inputs) && m in vis
    requires forall x :: x in vis ==> x in vals && Decoded(x, indices, uses, d, vals)
    ensures MarkValue(m, InputValues(inputs, vals)) == vals[m]
    decreases Height(m)
  {
    var env := InputValues(inputs, vals);
    match m
    case InputMark(v, min, extent) =>
      assert MarkOk(m, inputs);
      var i :| 0 <= i < |inputs| && inputs[i] == Input(v, min, extent);
      InputValueAt(inputs, vals, i);
    case FusedMark(args, extent) =>
      assert MarkOk(m, inputs);
      forall i | 0 <= i < |args|
        ensures args[i].scale > 0 && Digits(args, env)[i] == Digit(vals[m], args[i].scale, args[i].extent)
      {
        ArgAtDecoded(m, i, indices, inputs, vis, uses, d, vals);
      }
      SplitsValueAsDigits(args, env, Digits(args, env));
      ValueOfDigits(vals[m], Digits(args, env), Scales(args), Extents(args), extent);
  }

  lemma {:induction false} ArgAtDecoded(m: Mark, i: nat, indices: seq<IterSum>, inputs: seq<Input>, vis: set<Mark>,
      uses: map<Mark, seq<Slot>>, d: seq<int>, vals: map<Mark, int>)
    requires Certificate(indices, inputs, vis, uses) && DistinctInputs(inputs)
    requires m in vis && m.FusedMark? && i < |m.args|
    requires forall x :: x in vis ==> x in vals && Decoded(x, indices, uses, d, vals)
    ensures m.args[i].scale > 0 && m.args[i].extent > 0
    ensures SplitDigit(m.args[i], InputValues(inputs, vals)) == Digit(vals[m], m.args[i].scale, m.args[i].extent)
    decreases Height(m), 0
  {
    var slot := Arg(m, i);
    assert SlotIn(slot, indices, vis);
    var s := Resolve(slot, indices);
    assert MarkOk(m, inputs);
    WeightsPositive(Scales(m.args), Extents(m.args), m.extent, i);
    UseIsHigher(slot, s.source, indices, vis);
    MarkAtDecoded(s.source, indices, inputs, vis, uses, d, vals);
    var p :| 0 <= p < |uses[s.source]| && uses[s.source][p] == slot;
    assert Decoded(s.source, indices, uses, d, vals);
  }

  /** Every tuple of digits within the index extents comes from a point of the box. */
  lemma {:induction false} DigitsSurjective(indices: seq<IterSum>, inputs: seq<Input>, vis: set<Mark>,
      uses: map<Mark, seq<Slot>>, d: seq<int>) returns (env: Env)
    requires Certificate(indices, inputs, vis, uses) && DistinctInputs(inputs) && IndexDigitsIn(indices, d)
    ensures InBox(inputs, env)
    ensures forall k :: 0 <= k < |indices| ==> IndexDigit(indices, k, env) == d[k]
  {
    var h := HeightBound(vis);
    var vals := DecodeDown(indices, inputs, vis, uses, d, h + 1, 0);
    env := InputValues(inputs, vals);
    forall i | 0 <= i < |inputs|
      ensures inputs[i].min <= Get(env, inputs[i].v) < inputs[i].min + inputs[i].extent
    {
      InputValueAt(inputs, vals, i);
      assert Decoded(InputMark(inputs[i].v, inputs[i].min, inputs[i].extent), indices, uses, d, vals);
    }
    forall k | 0 <= k < |indices| ensures IndexDigit(indices, k, env) == d[k] {
      if |indices[k].args| == 1 {
        assert SlotIn(Top(k), indices, vis);
        var s := Resolve(Top(k), indices);
        var p :| 0 <= p < |uses[s.source]| && uses[s.source][p] == Top(k);
        assert Decoded(s.source, indices, uses, d, vals);
        MarkAtDecoded(s.source, indices, inputs, vis, uses, d, vals);
      } else {
        assert 0 <= d[k] < IndexExtent(indices, k);
      }
    }
  }
}
