/** Exactly when the bijectivity check passes (CheckBijective in src/arith/iter_affine_map.cc). */
module IterMapCheck {
  import opened PrimExprs
  import opened Wrappers
  import opened MixedRadix
  import opened IterMap
  import opened IterMapBijection
  import opened IterMapDetect
  import opened IterMapAccept

  // ----- the collector lists every use once ---------------------------------------------------

  ghost predicate Fresh(slot: Slot, st: Collected) { forall m :: m in st.uses ==> slot !in st.uses[m] }

  /** No list has a repeat, and listed arguments are those of visited marks. */
  ghost predicate Once(st: Collected) {
    && (forall m :: m in st.uses ==> NoRepeats(st.uses[m]))
    && (forall slot: Slot :: slot.Arg? && slot.m !in st.visited ==> Fresh(slot, st))
  }

  lemma {:induction false} AddUseOnce(st: Collected, m: Mark, slot: Slot)
    requires Once(st) && Fresh(slot, st) && (slot.Arg? ==> slot.m in st.visited)
    ensures Once(AddUse(st, m, slot))
    ensures forall other :: other != slot && Fresh(other, st) ==> Fresh(other, AddUse(st, m, slot))
  {
    var st' := AddUse(st, m, slot);
    assert m in st.uses ==> slot !in st.uses[m];
    forall x | x in st'.uses ensures NoRepeats(st'.uses[x]) {
      if x == m { AppendNoRepeats(UsesOf(st, m), slot); } else { assert x in st.uses; }
    }
    forall other | other != slot && Fresh(other, st) ensures Fresh(other, st') {
      assert m in st.uses ==> other !in st.uses[m];
      forall x | x in st'.uses ensures other !in st'.uses[x] { if x != m { assert x in st.uses; } }
    }
  }

  lemma {:induction false} AppendNoRepeats<T>(s: seq<T>, x: T)
    requires NoRepeats(s) && x !in s
    ensures NoRepeats(s + [x])
  {}

  lemma {:induction false} CollectMarkOnce(m: Mark, st: Collected)
    requires Once(st)
    ensures var st' := CollectMark(m, st);
            && Once(st') && st.visited <= st'.visited
            && forall slot :: Fresh(slot, st) && (slot.Top? || slot.m in st.visited) ==> Fresh(slot, st')
    decreases m, 1
  {
    if m !in st.visited {
      var st1 := st.(visited := st.visited + {m});
      forall slot: Slot ensures Fresh(slot, st) <==> Fresh(slot, st1) {}
      if m.FusedMark? {
        CollectArgsOnce(m, m.args, 0, st1);
      }
    }
  }

  lemma {:induction false} CollectArgsOnce(m: Mark, args: seq<Split>, i: nat, st: Collected)
    requires Once(st) && m in st.visited && forall j: nat :: j >= i ==> Fresh(Arg(m, j), st)
    ensures var st' := CollectArgs(m, args, i, st);
            && Once(st') && st.visited <= st'.visited
            && forall slot ::
                 Fresh(slot, st) && (slot.Top? || (slot.m in st.visited && (slot.m != m || slot.i < i))) ==>
                 Fresh(slot, st')
    decreases args, 0
  {
    if |args| > 0 {
      var s := args[0];
      CollectSplitOnce(s, st);
      var st1 := CollectSplit(s, st);
      AddUseOnce(st1, s.source, Arg(m, i));
      CollectArgsOnce(m, args[1..], i + 1, AddUse(st1, s.source, Arg(m, i)));
    }
  }

  lemma {:induction false} CollectSplitOnce(s: Split, st: Collected)
    requires Once(st)
    ensures var st' := CollectSplit(s, st);
            && Once(st') && st.visited <= st'.visited
            && forall slot :: Fresh(slot, st) && (slot.Top? || slot.m in st.visited) ==> Fresh(slot, st')
    decreases s, 0
  {
    CollectMarkOnce(s.source, st);
  }

  lemma {:induction false} CollectIndicesOnce(indices: seq<IterSum>, k: nat, st: Collected)
    requires k <= |indices| && Once(st) && forall j: nat :: j >= k ==> Fresh(Top(j), st)
    ensures Once(CollectIndices(indices, k, st))
    decreases |indices| - k
  {
    if k < |indices| {
      if |indices[k].args| == 1 {
        var s := indices[k].args[0];
        CollectMarkOnce(s.source, st);
        AddUseOnce(CollectMark(s.source, st), s.source, Top(k));
        CollectIndicesOnce(indices, k + 1, AddUse(CollectMark(s.source, st), s.source, Top(k)));
      } else {
        CollectIndicesOnce(indices, k + 1, st);
      }
    }
  }

  // ----- it visits nothing else ----------------------------------------------------------------

  /** The arguments of every fused mark of the set are splits of marks of the set. */
  ghost predicate ClosedUnder(all: set<Mark>) {
    forall m, i :: m in all && m.FusedMark? && 0 <= i < |m.args| ==> m.args[i].source in all
  }

  lemma {:induction false} CollectMarkWithin(m: Mark, st: Collected, all: set<Mark>)
    requires ClosedUnder(all) && m in all && st.visited <= all
    ensures CollectMark(m, st).visited <= all
    decreases m, 1
  {
    if m !in st.visited && m.FusedMark? {
      CollectArgsWithin(m, m.args, 0, st.(visited := st.visited + {m}), all);
    }
  }

  lemma {:induction false} CollectArgsWithin(m: Mark, args: seq<Split>, i: nat, st: Collected, all: set<Mark>)
    requires ClosedUnder(all) && st.visited <= all && forall j :: 0 <= j < |args| ==> args[j].source in all
    ensures CollectArgs(m, args, i, st).visited <= all
    decreases args, 0
  {
    if |args| > 0 {
      CollectSplitWithin(args[0], st, all);
      CollectArgsWithin(m, args[1..], i + 1, AddUse(CollectSplit(args[0], st), args[0].source, Arg(m, i)), all);
    }
  }

  lemma {:induction false} CollectSplitWithin(s: Split, st: Collected, all: set<Mark>)
    requires ClosedUnder(all) && s.source in all && st.visited <= all
    ensures CollectSplit(s, st).visited <= all
    decreases s, 0
  {
    CollectMarkWithin(s.source, st, all);
  }

  lemma {:induction false} CollectIndicesWithin(indices: seq<IterSum>, k: nat, st: Collected, all: set<Mark>)
    requires k <= |indices| && ClosedUnder(all) && st.visited <= all
    requires forall j :: 0 <= j < |indices| && |indices[j].args| == 1 ==> indices[j].args[0].source in all
    ensures CollectIndices(indices, k, st).visited <= all
    decreases |indices| - k
  {
    if k < |indices| {
      if |indices[k].args| == 1 {
        var s := indices[k].args[0];
        CollectMarkWithin(s.source, st, all);
        CollectIndicesWithin(indices, k + 1, AddUse(CollectMark(s.source, st), s.source, Top(k)), all);
      } else {
        CollectIndicesWithin(indices, k + 1, st, all);
      }
    }
  }

  // ----- what a certificate says of the collected uses -----------------------------------------

  ghost function Found(indices: seq<IterSum>): Collected { CollectIndices(indices, 0, Collected({}, map[])) }

  /** What the collector ends with. */
  lemma {:induction false} FoundOk(indices: seq<IterSum>, inputs: seq<Input>)
    requires IndicesOk(indices, inputs)
    ensures var st := Found(indices);
            && UsesOk(st, indices) && Once(st)
            && (forall m :: m in st.visited ==> Complete(m, st) && MarkOk(m, inputs))
            && (forall j :: 0 <= j < |indices| && |indices[j].args| == 1 ==>
                  Recorded(indices[j].args[0].source, Top(j), st))
  {
    var none := Collected({}, map[]);
    CollectIndicesOk(indices, 0, none, inputs);
    CollectIndicesOnce(indices, 0, none);
  }

  /** Every mark of a certificate is visited: go up its uses to an index. */
  lemma {:induction false} CertifiedVisited(indices: seq<IterSum>, inputs: seq<Input>, vis: set<Mark>,
      uses: map<Mark, seq<Slot>>, m: Mark, h: nat)
    requires IndicesOk(indices, inputs) && Certificate(indices, inputs, vis, uses) && m in vis
    requires forall x :: x in vis ==> Height(x) <= h
    ensures m in Found(indices).visited
    decreases h - Height(m)
  {
    var st := Found(indices);
    FoundOk(indices, inputs);
    assert |uses[m]| > 0;
    var slot := uses[m][0];
    assert SlotIn(slot, indices, vis) && Resolve(slot, indices).source == m;
    match slot
    case Top(k) =>
    case Arg(x, i) =>
      UseIsHigher(slot, m, indices, vis);
      CertifiedVisited(indices, inputs, vis, uses, x, h);
      assert Complete(x, st);
      assert Recorded(x.args[i].source, Arg(x, i), st);
  }

  lemma {:induction false} CertifiedExactly(indices: seq<IterSum>, inputs: seq<Input>, vis: set<Mark>,
      uses: map<Mark, seq<Slot>>)
    requires IndicesOk(indices, inputs) && Certificate(indices, inputs, vis, uses)
    ensures Found(indices).visited == vis
  {
    var h := HeightBound(vis);
    forall m | m in vis ensures m in Found(indices).visited {
      CertifiedVisited(indices, inputs, vis, uses, m, h);
    }
    forall m, i | m in vis && m.FusedMark? && 0 <= i < |m.args| ensures m.args[i].source in vis {
      assert SlotIn(Arg(m, i), indices, vis);
    }
    forall j | 0 <= j < |indices| && |indices[j].args| == 1 ensures indices[j].args[0].source in vis {
      assert SlotIn(Top(j), indices, vis);
    }
    CollectIndicesWithin(indices, 0, Collected({}, map[]), vis);
  }

  /** The collected uses of a mark are those of its cover. */
  lemma {:induction false} SameUses(indices: seq<IterSum>, inputs: seq<Input>, vis: set<Mark>,
      uses: map<Mark, seq<Slot>>, m: Mark, slot: Slot)
    requires IndicesOk(indices, inputs) && Certificate(indices, inputs, vis, uses) && m in vis
    ensures slot in UsesOf(Found(indices), m) <==> slot in uses[m]
  {
    FoundOk(indices, inputs);
    CertifiedExactly(indices, inputs, vis, uses);
    if slot in UsesOf(Found(indices), m) { CollectedUse(Found(indices), indices, m, slot); }
    if slot in uses[m] {
      CoveringUse(uses[m], m, indices, vis, slot);
      SlotCovered(slot, Found(indices), indices, inputs);
    }
  }

  lemma {:induction false} CollectedUse(st: Collected, indices: seq<IterSum>, m: Mark, slot: Slot)
    requires UsesOk(st, indices) && slot in UsesOf(st, m)
    ensures SlotIn(slot, indices, st.visited) && Resolve(slot, indices).source == m
  {
    var p :| 0 <= p < |st.uses[m]| && st.uses[m][p] == slot;
  }

  lemma {:induction false} CoveringUse(cover: seq<Slot>, m: Mark, indices: seq<IterSum>, vis: set<Mark>, slot: Slot)
    requires Covers(cover, m, indices, vis) && slot in cover
    ensures SlotIn(slot, indices, vis) && Resolve(slot, indices).source == m
  {
    var p :| 0 <= p < |cover| && cover[p] == slot;
  }

  // ----- from a cover to a chain of all uses ---------------------------------------------------

  lemma {:induction false} ChainSuffix(keys: seq<int>, exts: seq<int>, order: seq<nat>, expected: int, a: nat)
    requires |exts| == |keys| && (forall k :: 0 <= k < |order| ==> order[k] < |keys|) && AllPositive(exts)
    requires expected != 0 && IsChain(keys, exts, order, expected) && a < |order|
    ensures keys[order[a]] != 0 && IsChain(keys, exts, order[a..], keys[order[a]])
  {
    if a > 0 {
      AbsGrows(expected, exts[order[0]]);
      ChainSuffix(keys, exts, order[1..], expected * exts[order[0]], a - 1);
      assert order[1..][a - 1..] == order[a..];
    } else {
      assert order[0..] == order;
    }
  }

  /** A position that comes again in a chain has extent 1. */
  lemma {:induction false} RepeatIsUnit(keys: seq<int>, exts: seq<int>, order: seq<nat>, expected: int, a: nat, b: nat)
    requires |exts| == |keys| && (forall k :: 0 <= k < |order| ==> order[k] < |keys|) && AllPositive(exts)
    requires expected != 0 && IsChain(keys, exts, order, expected) && a < b < |order| && order[a] == order[b]
    ensures exts[order[b]] == 1
  {
    ChainSuffix(keys, exts, order, expected, a);
    ChainGrows(keys, exts, order[a..], keys[order[a]], b - a);
  }

  /** So a chain with repeats has one without. */
  lemma {:induction false} DistinctChain(keys: seq<int>, exts: seq<int>, order: seq<nat>, expected: int)
    returns (r: seq<nat>)
    requires |exts| == |keys| && (forall k :: 0 <= k < |order| ==> order[k] < |keys|) && AllPositive(exts)
    requires expected != 0 && IsChain(keys, exts, order, expected)
    ensures NoRepeats(r) && forall j :: j in r <==> j in order
    ensures forall k :: 0 <= k < |r| ==> r[k] < |keys|
    ensures IsChain(keys, exts, r, expected) && ChainTotal(exts, r, expected) == ChainTotal(exts, order, expected)
    decreases |order|
  {
    if NoRepeats(order) {
      r := order;
    } else {
      var a, b :| 0 <= a < b < |order| && order[a] == order[b];
      RepeatIsUnit(keys, exts, order, expected, a, b);
      WithoutUnit(keys, exts, order, expected, b);
      var rest := order[..b] + order[b + 1..];
      assert rest[a] == order[b];
      forall j | j in order ensures j in rest {
        var k :| 0 <= k < |order| && order[k] == j;
        assert k < b ==> rest[k] == j;
        assert k > b ==> rest[k - 1] == j;
      }
      r := DistinctChain(keys, exts, rest, expected);
    }
  }

  /** A mixed-radix system read from the inside is a chain from 1 to its total. */
  lemma {:induction false} RadixChain(keys: seq<int>, exts: seq<int>, order: seq<nat>, w: seq<int>, e: seq<int>,
      total: int, k: nat)
    requires |exts| == |keys| && Radix(w, e, total) && |order| == |w| && k <= |w|
    requires forall i :: 0 <= i < |w| ==>
               order[i] < |keys| && keys[order[i]] == w[|w| - 1 - i] && exts[order[i]] == e[|w| - 1 - i]
    ensures var expected := if k < |w| then w[|w| - 1 - k] else total;
            IsChain(keys, exts, order[k..], expected) && ChainTotal(exts, order[k..], expected) == total
    decreases |w| - k
  {
    if k < |w| {
      RadixChain(keys, exts, order, w, e, total, k + 1);
      assert order[k..][1..] == order[k + 1..];
      if k + 1 < |w| { assert StepAt(w, e, |w| - 2 - k); }
    }
  }

  /** Where the slots of a cover stand among the collected uses. */
  lemma {:induction false} Places(cover: seq<Slot>, slots: seq<Slot>) returns (order: seq<nat>)
    requires forall slot :: slot in cover ==> slot in slots
    ensures |order| == |cover| && forall i :: 0 <= i < |cover| ==>
              order[i] < |slots| && slots[order[i]] == cover[|cover| - 1 - i]
    decreases |cover|
  {
    if |cover| == 0 {
      order := [];
    } else {
      var rest := Places(cover[1..], slots);
      assert cover[0] in slots;
      var j :| 0 <= j < |slots| && slots[j] == cover[0];
      order := rest + [j];
      forall i | 0 <= i < |cover| ensures order[i] < |slots| && slots[order[i]] == cover[|cover| - 1 - i] {
        if i < |rest| { assert order[i] == rest[i] && cover[1..][|rest| - 1 - i] == cover[|cover| - 1 - i]; }
      }
    }
  }

  /** The lower factors and extents of the collected uses, and the order in which those of extent 1 come. */
  ghost predicate UnitUsesFirst(slots: seq<Slot>, indices: seq<IterSum>) {
    var ss := ResolveAll(slots, indices);
    UnitsFirst(LowerFactors(ss), Extents(ss), AllUnused(|ss|))
  }

  /** A cover of a mark by its collected uses makes their normalisation succeed. */
  lemma {:induction false} CoverNormalizes(m: Mark, slots: seq<Slot>, cover: seq<Slot>, indices: seq<IterSum>,
      vis: set<Mark>)
    requires Covers(cover, m, indices, vis) && NoRepeats(slots) && UnitUsesFirst(slots, indices)
    requires forall slot :: slot in slots <==> slot in cover
    requires forall p :: 0 <= p < |slots| ==> Resolve(slots[p], indices).extent > 0
    ensures NormalizeSplits(m.extent, ResolveAll(slots, indices)) != []
  {
    var ss, cs := ResolveAll(slots, indices), ResolveAll(cover, indices);
    var keys, exts := LowerFactors(ss), Extents(ss);
    var places := Places(cover, slots);
    forall i | 0 <= i < |cover|
      ensures places[i] < |keys| && keys[places[i]] == LowerFactors(cs)[|cover| - 1 - i]
      ensures exts[places[i]] == Extents(cs)[|cover| - 1 - i]
    {
      assert ss[places[i]] == cs[|cover| - 1 - i];
    }
    RadixChain(keys, exts, places, LowerFactors(cs), Extents(cs), m.extent, 0);
    assert places[0..] == places;
    var order := DistinctChain(keys, exts, places, 1);
    AllPlaces(slots, cover, places);
    assert Enumerates(order, AllUnused(|ss|));
    PickFinds(keys, exts, AllUnused(|ss|), 1, order);
    EnumeratesCount(order, AllUnused(|ss|));
    AllUnusedCount(|ss|);
    PickChainKeys(keys, exts, AllUnused(|ss|), 1, |ss|, 0);
    assert places[0] in order;
  }

  lemma {:induction false} AllPlaces(slots: seq<Slot>, cover: seq<Slot>, places: seq<nat>)
    requires |places| == |cover| && NoRepeats(slots)
    requires forall i :: 0 <= i < |cover| ==> places[i] < |slots| && slots[places[i]] == cover[|cover| - 1 - i]
    requires forall slot :: slot in slots ==> slot in cover
    ensures forall j :: 0 <= j < |slots| ==> j in places
  {
    forall j | 0 <= j < |slots| ensures j in places {
      assert slots[j] in slots;
      var i :| 0 <= i < |cover| && cover[i] == slots[j];
      assert places[|cover| - 1 - i] == j;
    }
  }

  /** The uses of every iterator are discovered so that, of those with one lower factor, the ones of
      extent 1 come first. */
  ghost predicate AllUnitsFirst(indices: seq<IterSum>) {
    forall m :: m in Found(indices).visited ==> UnitUsesFirst(UsesOf(Found(indices), m), indices)
  }

  /** The check passes exactly if there is a certificate, and the uses of extent 1 come first. */
  lemma {:induction false} CheckExact(indices: seq<IterSum>, inputs: seq<Input>)
    requires IndicesOk(indices, inputs)
    ensures CheckBijective(indices, inputs) <==>
            (exists vis, uses :: Certificate(indices, inputs, vis, uses)) && AllUnitsFirst(indices)
  {
    if CheckBijective(indices, inputs) {
      var vis, uses := CheckedCertificate(indices, inputs);
      assert Certificate(indices, inputs, vis, uses);
      CheckedUnitsFirst(indices, inputs);
    }
    if AllUnitsFirst(indices) && exists vis, uses :: Certificate(indices, inputs, vis, uses) {
      var vis, uses :| Certificate(indices, inputs, vis, uses);
      CertificateChecked(indices, inputs, vis, uses);
    }
  }

  lemma {:induction false} CertificateChecked(indices: seq<IterSum>, inputs: seq<Input>, vis: set<Mark>,
      uses: map<Mark, seq<Slot>>)
    requires IndicesOk(indices, inputs) && Certificate(indices, inputs, vis, uses) && AllUnitsFirst(indices)
    ensures CheckBijective(indices, inputs)
  {
    var st := Found(indices);
    FoundOk(indices, inputs);
    CertifiedExactly(indices, inputs, vis, uses);
    forall m | m in st.visited ensures NormalizeSplits(m.extent, ResolveAll(UsesOf(st, m), indices)) != [] {
      forall slot ensures slot in UsesOf(st, m) <==> slot in uses[m] {
        SameUses(indices, inputs, vis, uses, m, slot);
      }
      forall p | 0 <= p < |UsesOf(st, m)| ensures Resolve(UsesOf(st, m)[p], indices).extent > 0 {
        UseExtent(m, p, st, indices, inputs);
      }
      CoverNormalizes(m, UsesOf(st, m), uses[m], indices, vis);
    }
  }

  lemma {:induction false} CheckedUnitsFirst(indices: seq<IterSum>, inputs: seq<Input>)
    requires IndicesOk(indices, inputs) && CheckBijective(indices, inputs)
    ensures AllUnitsFirst(indices)
  {
    var st := Found(indices);
    FoundOk(indices, inputs);
    forall m | m in st.visited ensures UnitUsesFirst(UsesOf(st, m), indices) {
      var ss := ResolveAll(UsesOf(st, m), indices);
      forall p | 0 <= p < |ss| ensures ss[p].extent > 0 { UseExtent(m, p, st, indices, inputs); }
      AllUnusedCount(|ss|);
      PickFound(LowerFactors(ss), Extents(ss), AllUnused(|ss|), 1, |ss|);
    }
  }
}
