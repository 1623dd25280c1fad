/** The two-way map between stages and the iterators they are attached to (AttachMap in
    src/auto_scheduler/loop_state.cc). */
module AttachMaps {
  import opened Wrappers

  /** A stage and one of its iterators. */
  datatype IterKey = IterKey(stage: int, iter: int)

  type StageMap = map<int, IterKey>
  type IterMap = map<IterKey, seq<int>>

  /** A list under a key: not empty, without repeats, of stages attached there. */
  ghost predicate ListOk(f: StageMap, k: IterKey, list: seq<int>) {
    |list| > 0 && NoRepeats(list) && forall s :: s in list ==> s in f && f[s] == k
  }

  /** The maps are inverse: a stage maps to a key exactly when it is listed, once, under it. */
  ghost predicate Inverse(f: StageMap, g: IterMap) {
    && (forall s :: s in f ==> f[s] in g && s in g[f[s]])
    && (forall k :: k in g ==> ListOk(f, k, g[k]))
  }

  // ----- deleting a stage --------------------------------------------------------------------

  /** FindAndDeleteItem: without the first occurrence. */
  function Without(list: seq<int>, s: int): seq<int> {
    if |list| == 0 then [] else if list[0] == s then list[1..] else [list[0]] + Without(list[1..], s)
  }

  lemma {:induction false} WithoutMembers(list: seq<int>, s: int)
    requires NoRepeats(list)
    ensures NoRepeats(Without(list, s)) && forall t :: t in Without(list, s) <==> t in list && t != s
  {
    if |list| > 0 {
      assert list == [list[0]] + list[1..];
      if list[0] != s {
        WithoutMembers(list[1..], s);
        assert list[0] !in list[1..];
      }
    }
  }

  function Detached(g: IterMap, k: IterKey, s: int): IterMap
    requires k in g
  {
    if |Without(g[k], s)| == 0 then g - {k} else g[k := Without(g[k], s)]
  }

  lemma {:induction false} DetachKeepsInverse(f: StageMap, g: IterMap, s: int)
    requires Inverse(f, g) && s in f
    ensures Inverse(f - {s}, Detached(g, f[s], s))
  {
    var k := f[s];
    WithoutMembers(g[k], s);
    var f', g' := f - {s}, Detached(g, k, s);
    forall t | t in f' ensures f'[t] in g' && t in g'[f'[t]] {
      if f[t] == k { assert t in Without(g[k], s); }
    }
    forall j | j in g' ensures ListOk(f', j, g'[j]) {
      assert ListOk(f, j, g[j]);
      if j == k { assert |Without(g[k], s)| > 0; } else { assert s !in g[j]; }
    }
  }

  // ----- attaching a stage -------------------------------------------------------------------

  function Attached(g: IterMap, k: IterKey, s: int): IterMap { g[k := (if k in g then g[k] else []) + [s]] }

  lemma {:induction false} AttachKeepsInverse(f: StageMap, g: IterMap, k: IterKey, s: int)
    requires Inverse(f, g) && s !in f
    ensures Inverse(f[s := k], Attached(g, k, s))
  {
    var f', g' := f[s := k], Attached(g, k, s);
    var list := if k in g then g[k] else [];
    assert s !in list;
    forall j | j in g' ensures ListOk(f', j, g'[j]) {
      if j == k {
        if k in g { assert ListOk(f, k, g[k]); }
      } else {
        assert ListOk(f, j, g[j]);
      }
    }
  }

  // ----- renaming iterators ------------------------------------------------------------------

  /** The new key for k: that of its first occurrence among the original ones. */
  function Target(k: IterKey, originals: seq<IterKey>, news: seq<IterKey>): Option<IterKey>
    requires |originals| == |news|
  {
    if |originals| == 0 then None
    else if originals[0] == k then Some(news[0])
    else Target(k, originals[1..], news[1..])
  }

  lemma {:induction false} TargetNext(k: IterKey, originals: seq<IterKey>, news: seq<IterKey>, i: nat)
    requires |originals| == |news| && i < |originals|
    ensures Target(k, originals[..i + 1], news[..i + 1]) ==
            (var t := Target(k, originals[..i], news[..i]);
             if t.Some? then t else if originals[i] == k then Some(news[i]) else None)
    ensures Target(k, originals[..i], news[..i]).Some? <==> k in originals[..i]
  {
    if i > 0 {
      assert originals[..i + 1][1..] == originals[1..][..i] && news[..i + 1][1..] == news[1..][..i];
      assert originals[..i][1..] == originals[1..][..i - 1] && news[..i][1..] == news[1..][..i - 1];
      TargetNext(k, originals[1..], news[1..], i - 1);
      assert originals[..i] == [originals[0]] + originals[1..][..i - 1];
    } else {
      assert originals[..1][1..] == [] && news[..1][1..] == [];
    }
  }

  /** Every stage attached to an original key is attached to the new one instead. */
  function Renamed(f: StageMap, originals: seq<IterKey>, news: seq<IterKey>): StageMap
    requires |originals| == |news|
  {
    map s | s in f :: var t := Target(f[s], originals, news); if t.Some? then t.value else f[s]
  }

  ghost predicate SameTarget(k: IterKey, j: IterKey, originals: seq<IterKey>, news: seq<IterKey>)
    requires |originals| == |news|
  {
    Target(k, originals, news).Some? && Target(k, originals, news) == Target(j, originals, news)
  }

  /** t has stages and is not renamed. */
  ghost predicate StaysUnder(g: IterMap, t: IterKey, originals: seq<IterKey>, news: seq<IterKey>)
    requires |originals| == |news|
  {
    t in g && Target(t, originals, news).None?
  }

  /** Keys that have stages get distinct new keys, none of which has stages that stay. */
  ghost predicate NoCollision(g: IterMap, originals: seq<IterKey>, news: seq<IterKey>)
    requires |originals| == |news|
  {
    && (forall k, j :: k in g && j in g && SameTarget(k, j, originals, news) ==> k == j)
    && (forall k :: k in g && Target(k, originals, news).Some? ==>
        !StaysUnder(g, Target(k, originals, news).value, originals, news))
  }

  /** The lists moved so far: each is that of some key with that target, and every such key has one. */
  ghost predicate Moved(g: IterMap, originals: seq<IterKey>, news: seq<IterKey>, lists: IterMap)
    requires |originals| == |news|
  {
    && (forall t :: t in lists ==> exists k :: k in g && Target(k, originals, news) == Some(t) && lists[t] == g[k])
    && (forall k :: k in g && Target(k, originals, news).Some? ==> Target(k, originals, news).value in lists)
  }

  /** What is not moved. */
  function Unmoved(g: IterMap, originals: seq<IterKey>): IterMap { map k | k in g && k !in originals :: g[k] }

  lemma {:induction false} TargetIff(k: IterKey, originals: seq<IterKey>, news: seq<IterKey>)
    requires |originals| == |news|
    ensures Target(k, originals, news).Some? <==> k in originals
  {
    if |originals| > 0 {
      TargetIff(k, originals[1..], news[1..]);
      assert originals == [originals[0]] + originals[1..];
    }
  }

  /** Without collisions the renamed maps are inverse again. */
  lemma {:induction false} RenamedInverse(f: StageMap, g: IterMap, originals: seq<IterKey>, news: seq<IterKey>,
      lists: IterMap)
    requires |originals| == |news| && Inverse(f, g) && Moved(g, originals, news, lists)
    requires NoCollision(g, originals, news)
    ensures Inverse(Renamed(f, originals, news), Unmoved(g, originals) + lists)
  {
    var f', g' := Renamed(f, originals, news), Unmoved(g, originals) + lists;
    forall s | s in f' ensures f'[s] in g' && s in g'[f'[s]] {
      StageFound(f, g, originals, news, lists, s);
    }
    forall k | k in g' ensures ListOk(f', k, g'[k]) {
      ListRenamed(f, g, originals, news, lists, k);
    }
  }

  lemma {:induction false} StageFound(f: StageMap, g: IterMap, originals: seq<IterKey>, news: seq<IterKey>,
      lists: IterMap, s: int)
    requires |originals| == |news| && Inverse(f, g) && Moved(g, originals, news, lists)
    requires NoCollision(g, originals, news) && s in f
    ensures var k := Renamed(f, originals, news)[s]; var g' := Unmoved(g, originals) + lists; k in g' && s in g'[k]
  {
    var k := f[s];
    TargetIff(k, originals, news);
    if Target(k, originals, news).Some? {
      var t := Target(k, originals, news).value;
      var j :| j in g && Target(j, originals, news) == Some(t) && lists[t] == g[j];
      assert j == k;
    }
  }

  lemma {:induction false} ListRenamed(f: StageMap, g: IterMap, originals: seq<IterKey>, news: seq<IterKey>,
      lists: IterMap, k: IterKey)
    requires |originals| == |news| && Inverse(f, g) && Moved(g, originals, news, lists)
    requires k in Unmoved(g, originals) + lists
    ensures ListOk(Renamed(f, originals, news), k, (Unmoved(g, originals) + lists)[k])
  {
    if k in lists {
      var j :| j in g && Target(j, originals, news) == Some(k) && lists[k] == g[j];
      assert ListOk(f, j, g[j]);
    } else {
      assert ListOk(f, k, g[k]);
      TargetIff(k, originals, news);
    }
  }

  /** With a collision some list is lost, and they are not. */
  lemma {:induction false} CollisionBreaks(f: StageMap, g: IterMap, originals: seq<IterKey>, news: seq<IterKey>,
      lists: IterMap)
    requires |originals| == |news| && Inverse(f, g) && Moved(g, originals, news, lists)
    requires Inverse(Renamed(f, originals, news), Unmoved(g, originals) + lists)
    ensures NoCollision(g, originals, news)
  {
    var f', g' := Renamed(f, originals, news), Unmoved(g, originals) + lists;
    forall k, j | k in g && j in g && SameTarget(k, j, originals, news) ensures k == j {
      var t := Target(k, originals, news).value;
      var o :| o in g && Target(o, originals, news) == Some(t) && lists[t] == g[o];
      ListedUnder(f, g, originals, news, lists, k, t, o);
      ListedUnder(f, g, originals, news, lists, j, t, o);
    }
    forall k | k in g && Target(k, originals, news).Some?
      ensures !StaysUnder(g, Target(k, originals, news).value, originals, news)
    {
      var t := Target(k, originals, news).value;
      var o :| o in g && Target(o, originals, news) == Some(t) && lists[t] == g[o];
      if StaysUnder(g, t, originals, news) {
        ListedUnder(f, g, originals, news, lists, t, t, o);
        assert false;
      }
    }
  }

  /** If k ends up as t, and t's list is that of o, then k is o. */
  lemma {:induction false} ListedUnder(f: StageMap, g: IterMap, originals: seq<IterKey>, news: seq<IterKey>,
      lists: IterMap, k: IterKey, t: IterKey, o: IterKey)
    requires |originals| == |news| && Inverse(f, g)
    requires Inverse(Renamed(f, originals, news), Unmoved(g, originals) + lists)
    requires k in g && o in g && t in lists && lists[t] == g[o]
    requires Target(k, originals, news) == Some(t) || (Target(k, originals, news).None? && k == t)
    ensures k == o
  {
    assert ListOk(f, k, g[k]) && ListOk(f, o, g[o]);
    var s := g[k][0];
    assert s in g[k] && f[s] == k;
    assert Renamed(f, originals, news)[s] == t;
    assert s in (Unmoved(g, originals) + lists)[t];
  }

  /** Two attached iterators sent to one: the stages of one of them are lost. */
  lemma {:induction false} FusedItersCollide()
    ensures var a, b := IterKey(0, 0), IterKey(0, 1);
            var f: StageMap, g: IterMap := map[1 := a, 2 := b], map[a := [1], b := [2]];
            Inverse(f, g) && !NoCollision(g, [a, b], [a, a])
  {
    var a, b := IterKey(0, 0), IterKey(0, 1);
    assert Target(a, [a, b], [a, a]) == Some(a);
    assert [a, b][1..] == [b] && [a, a][1..] == [a];
    assert Target(b, [a, b], [a, a]) == Target(b, [b], [a]) == Some(a);
    assert SameTarget(a, b, [a, b], [a, a]);
  }

  // ----- the object --------------------------------------------------------------------------

  class AttachMap {
    var stageToIter: StageMap
    var iterToStages: IterMap

    ghost predicate Valid()
      reads this
    {
      Inverse(stageToIter, iterToStages)
    }

    constructor ()
      ensures Valid() && stageToIter == map[] && iterToStages == map[]
    {
      stageToIter, iterToStages := map[], map[];
    }

    /** DeleteStageEntry */
    method DeleteStageEntry(s: int)
      requires Valid()
      modifies this
      ensures Valid() && stageToIter == old(stageToIter) - {s}
      ensures s !in old(stageToIter) ==> iterToStages == old(iterToStages)
      ensures s in old(stageToIter) ==> iterToStages == Detached(old(iterToStages), old(stageToIter)[s], s)
    {
      if s in stageToIter {
        var k := stageToIter[s];
        DetachKeepsInverse(stageToIter, iterToStages, s);
        var list := Without(iterToStages[k], s);
        if |list| == 0 {
          iterToStages := iterToStages - {k};
        } else {
          iterToStages := iterToStages[k := list];
        }
        stageToIter := stageToIter - {s};
      } else {
        assert stageToIter - {s} == stageToIter;
      }
    }

    /** DeleteStage */
    method DeleteStage(s: int)
      requires Valid()
      modifies this
      ensures Valid() && stageToIter == old(stageToIter) - {s}
    {
      DeleteStageEntry(s);
    }

    /** SetComputeAtIter: s is attached to the key, last, and nowhere else. */
    method SetComputeAtIter(s: int, targetStage: int, targetIter: int)
      requires Valid()
      modifies this
      ensures Valid() && stageToIter == old(stageToIter)[s := IterKey(targetStage, targetIter)]
      ensures var k := IterKey(targetStage, targetIter);
              k in iterToStages && |iterToStages[k]| > 0 && iterToStages[k][|iterToStages[k]| - 1] == s
    {
      DeleteStageEntry(s);
      var k := IterKey(targetStage, targetIter);
      AttachKeepsInverse(stageToIter, iterToStages, k, s);
      stageToIter := stageToIter[s := k];
      iterToStages := iterToStages[k := (if k in iterToStages then iterToStages[k] else []) + [s]];
    }

    /** UpdateIters: a simultaneous renaming of the keys; the two maps stay inverse exactly when no
        two lists end up under one key. */
    method UpdateIters(originals: seq<IterKey>, news: seq<IterKey>)
      requires Valid() && |originals| == |news|
      modifies this
      ensures stageToIter == Renamed(old(stageToIter), originals, news)
      ensures Valid() <==> NoCollision(old(iterToStages), originals, news)
    {
      ghost var f, g := stageToIter, iterToStages;
      var lists: IterMap := map[];
      RenameStart(f, g);
      for i := 0 to |originals|
        invariant iterToStages == Unmoved(g, originals[..i])
        invariant stageToIter == Renamed(f, originals[..i], news[..i])
        invariant Moved(g, originals[..i], news[..i], lists)
      {
        var k := originals[i];
        RenameStep(f, g, originals, news, i, lists);
        if k in iterToStages {
          var stages := iterToStages[k];
          MoveStages(stages, news[i]);
          iterToStages := iterToStages - {k};
          lists := lists[news[i] := stages];
        }
      }
      assert originals[..|originals|] == originals && news[..|news|] == news;
      iterToStages := iterToStages + lists;
      if NoCollision(g, originals, news) { RenamedInverse(f, g, originals, news, lists); }
      if Valid() { CollisionBreaks(f, g, originals, news, lists); }
    }

    /** ApplyStageIdOffset: a copy in which stages from start on are offset further. Its maps are
        inverse if what merges agrees. If no two stages merge it has exactly the shifted entries, and
        its maps are inverse exactly when no two keys merge either; for an offset of at least 0 nothing
        merges. */
    method ApplyStageIdOffset(start: int, offset: int) returns (r: AttachMap)
      requires Valid()
      ensures fresh(r) && StagesFrom(stageToIter, r.stageToIter, start, offset)
      ensures ListsShifted(iterToStages, r.iterToStages, start, offset)
      ensures MergesAgree(stageToIter, iterToStages, start, offset) ==> r.Valid()
      ensures StagesApart(stageToIter, start, offset) ==>
                StagesShifted(stageToIter, r.stageToIter, start, offset) &&
                (r.Valid() <==> KeysApart(iterToStages, start, offset))
      ensures offset >= 0 ==> StagesApart(stageToIter, start, offset) && KeysApart(iterToStages, start, offset)
    {
      r := new AttachMap();
      r.stageToIter := ShiftStages(stageToIter, start, offset);
      r.iterToStages := ShiftLists(iterToStages, start, offset);
      if offset >= 0 { NothingMerges(stageToIter, iterToStages, start, offset); }
      ShiftedInverse(stageToIter, iterToStages, r.stageToIter, r.iterToStages, start, offset);
    }

    /** Attaches all the given stages to k, in one of the two maps. */
    method MoveStages(stages: seq<int>, k: IterKey)
      modifies this`stageToIter
      ensures stageToIter == PutAll(old(stageToIter), stages, k)
    {
      for j := 0 to |stages|
        invariant stageToIter == PutAll(old(stageToIter), stages[..j], k)
      {
        assert stages[..j + 1] == stages[..j] + [stages[j]];
        stageToIter := stageToIter[stages[j] := k];
      }
      assert stages[..|stages|] == stages;
    }
  }

  function PutAll(f: StageMap, stages: seq<int>, k: IterKey): StageMap {
    map s | s in f.Keys + (set t | t in stages) :: if s in stages then k else f[s]
  }

  lemma {:induction false} RenameStart(f: StageMap, g: IterMap)
    ensures Unmoved(g, []) == g && Renamed(f, [], []) == f && Moved(g, [], [], map[])
  {
    assert forall k: IterKey :: Target(k, [], []) == None;
  }

  /** One original key: already moved or without stages, or its list moves to the new key. */
  lemma {:induction false} RenameStep(f: StageMap, g: IterMap, originals: seq<IterKey>, news: seq<IterKey>, i: nat,
      lists: IterMap)
    requires |originals| == |news| && i < |originals| && Inverse(f, g) && Moved(g, originals[..i], news[..i], lists)
    ensures var k := originals[i];
            var os, ns := originals[..i + 1], news[..i + 1];
            var rest := Unmoved(g, originals[..i]);
            if k in rest then
              Unmoved(g, os) == rest - {k} && Moved(g, os, ns, lists[news[i] := g[k]]) && rest[k] == g[k] &&
              Renamed(f, os, ns) == PutAll(Renamed(f, originals[..i], news[..i]), g[k], news[i])
            else
              Unmoved(g, os) == rest && Moved(g, os, ns, lists) &&
              Renamed(f, os, ns) == Renamed(f, originals[..i], news[..i])
  {
    var k := originals[i];
    var os, ns := originals[..i + 1], news[..i + 1];
    assert os == originals[..i] + [k];
    forall j ensures Target(j, os, ns) == (var t := Target(j, originals[..i], news[..i]);
                                           if t.Some? then t else if k == j then Some(news[i]) else None) &&
                     (Target(j, originals[..i], news[..i]).Some? <==> j in originals[..i])
    {
      TargetNext(j, originals, news, i);
    }
    if k in g && k !in originals[..i] {
      MovedStep(g, originals, news, i, lists);
      RenamedStep(f, g, originals, news, i);
    } else {
      MovedSame(g, originals[..i], news[..i], os, ns, lists);
      forall s | s in f ensures Target(f[s], os, ns) == Target(f[s], originals[..i], news[..i]) { assert f[s] in g; }
      assert Renamed(f, os, ns) == Renamed(f, originals[..i], news[..i]);
      assert Unmoved(g, os) == Unmoved(g, originals[..i]);
    }
  }

  lemma {:induction false} MovedSame(g: IterMap, originals: seq<IterKey>, news: seq<IterKey>, os: seq<IterKey>,
      ns: seq<IterKey>, lists: IterMap)
    requires |originals| == |news| && |os| == |ns| && Moved(g, originals, news, lists)
    requires forall j :: j in g ==> Target(j, os, ns) == Target(j, originals, news)
    ensures Moved(g, os, ns, lists)
  {
    forall t | t in lists ensures exists k :: k in g && Target(k, os, ns) == Some(t) && lists[t] == g[k] {
      var k :| k in g && Target(k, originals, news) == Some(t) && lists[t] == g[k];
      assert Target(k, os, ns) == Some(t);
    }
  }

  lemma {:induction false} MovedStep(g: IterMap, originals: seq<IterKey>, news: seq<IterKey>, i: nat, lists: IterMap)
    requires |originals| == |news| && i < |originals| && Moved(g, originals[..i], news[..i], lists)
    requires originals[i] in g && originals[i] !in originals[..i]
    ensures Moved(g, originals[..i + 1], news[..i + 1], lists[news[i] := g[originals[i]]])
  {
    var k, os, ns := originals[i], originals[..i + 1], news[..i + 1];
    var lists' := lists[news[i] := g[k]];
    TargetNext(k, originals, news, i);
    assert Target(k, os, ns) == Some(news[i]);
    forall t | t in lists' ensures exists j :: j in g && Target(j, os, ns) == Some(t) && lists'[t] == g[j] {
      if t != news[i] {
        var j :| j in g && Target(j, originals[..i], news[..i]) == Some(t) && lists[t] == g[j];
        TargetNext(j, originals, news, i);
        assert Target(j, os, ns) == Some(t);
      }
    }
    forall j | j in g && Target(j, os, ns).Some? ensures Target(j, os, ns).value in lists' {
      TargetNext(j, originals, news, i);
    }
  }

  lemma {:induction false} RenamedStep(f: StageMap, g: IterMap, originals: seq<IterKey>, news: seq<IterKey>, i: nat)
    requires |originals| == |news| && i < |originals| && Inverse(f, g)
    requires originals[i] in g && originals[i] !in originals[..i]
    ensures Renamed(f, originals[..i + 1], news[..i + 1]) ==
            PutAll(Renamed(f, originals[..i], news[..i]), g[originals[i]], news[i])
  {
    var k := originals[i];
    var a, b := Renamed(f, originals[..i + 1], news[..i + 1]),
      PutAll(Renamed(f, originals[..i], news[..i]), g[k], news[i]);
    assert ListOk(f, k, g[k]);
    assert forall s :: s in g[k] ==> s in f;
    assert a.Keys == f.Keys && b.Keys == f.Keys + (set s | s in g[k]) == f.Keys;
    forall s | s in a ensures a[s] == b[s] {
      TargetNext(f[s], originals, news, i);
      assert s in g[k] <==> f[s] == k;
    }
  }

  // ----- shifting stage numbers --------------------------------------------------------------

  function Shift(s: int, start: int, offset: int): int { if s >= start then s + offset else s }
  function ShiftKey(k: IterKey, start: int, offset: int): IterKey { IterKey(Shift(k.stage, start, offset), k.iter) }

  function ShiftAll(list: seq<int>, start: int, offset: int): (r: seq<int>)
    ensures |r| == |list| && forall i :: 0 <= i < |list| ==> r[i] == Shift(list[i], start, offset)
  {
    seq(|list|, i requires 0 <= i < |list| => Shift(list[i], start, offset))
  }

  /** No two attached stages are shifted to one. */
  ghost predicate StagesApart(f: StageMap, start: int, offset: int) {
    forall s, t :: s in f && t in f && Shift(s, start, offset) == Shift(t, start, offset) ==> s == t
  }

  /** No two keys in use are shifted to one. */
  ghost predicate KeysApart(g: IterMap, start: int, offset: int) {
    forall k, l :: k in g && l in g && ShiftKey(k, start, offset) == ShiftKey(l, start, offset) ==> k == l
  }

  function ShiftedStages(stages: set<int>, start: int, offset: int): set<int> {
    set s | s in stages :: Shift(s, start, offset)
  }

  predicate SameElements(a: seq<int>, b: seq<int>) { (forall s :: s in a ==> s in b) && forall s :: s in b ==> s in a }

  /** Stages that merge are attached to keys that merge, stages of one list do not merge, and keys
      that merge list the same shifted stages. */
  ghost predicate MergesAgree(f: StageMap, g: IterMap, start: int, offset: int) {
    && (forall s, t :: s in f && t in f && Shift(s, start, offset) == Shift(t, start, offset) ==>
          ShiftKey(f[s], start, offset) == ShiftKey(f[t], start, offset))
    && (forall k :: k in g ==> NoRepeats(ShiftAll(g[k], start, offset)))
    && (forall k, l :: k in g && l in g && ShiftKey(k, start, offset) == ShiftKey(l, start, offset) ==>
          SameElements(ShiftAll(g[k], start, offset), ShiftAll(g[l], start, offset)))
  }

  /** f' has an entry for every shifted stage, and every entry of it is a shifted one of f: which, if
      several merge, is up to the order of the loop. */
  ghost predicate StagesFrom(f: StageMap, f': StageMap, start: int, offset: int) {
    && f'.Keys == ShiftedStages(f.Keys, start, offset)
    && forall t :: t in f' ==> exists s :: StageTo(f, s, t, start, offset) && f'[t] == ShiftKey(f[s], start, offset)
  }

  predicate StageTo(f: StageMap, s: int, t: int, start: int, offset: int) { s in f && Shift(s, start, offset) == t }

  /** f' has exactly the entries of f, both ends shifted. */
  ghost predicate StagesShifted(f: StageMap, f': StageMap, start: int, offset: int) {
    && f'.Keys == ShiftedStages(f.Keys, start, offset)
    && forall s :: s in f ==>
         Shift(s, start, offset) in f' && f'[Shift(s, start, offset)] == ShiftKey(f[s], start, offset)
  }

  /** g' has a shifted list for every key, and every list of it is one. */
  ghost predicate ListsShifted(g: IterMap, g': IterMap, start: int, offset: int) {
    && (forall k :: k in g ==> ShiftKey(k, start, offset) in g')
    && (forall t :: t in g' ==> exists k :: ShiftsTo(g, k, t, start, offset) && g'[t] == ShiftAll(g[k], start, offset))
  }

  predicate ShiftsTo(g: IterMap, k: IterKey, t: IterKey, start: int, offset: int) {
    k in g && ShiftKey(k, start, offset) == t
  }

  /** Some element of the set. */
  method Pick<T(==)>(elements: set<T>) returns (x: T)
    requires elements != {}
    ensures x in elements
  {
    x :| x in elements;
  }

  /** The loop over the stages, in any order; an entry that is there is not replaced. */
  method ShiftStages(f: StageMap, start: int, offset: int) returns (f': StageMap)
    ensures StagesFrom(f, f', start, offset)
    ensures StagesApart(f, start, offset) ==> StagesShifted(f, f', start, offset)
  {
    f' := map[];
    var todo: set<int> := f.Keys;
    while todo != {}
      invariant todo <= f.Keys && f'.Keys == ShiftedStages(f.Keys - todo, start, offset)
      invariant forall t :: t in f' ==>
                  exists s :: StageTo(f, s, t, start, offset) && f'[t] == ShiftKey(f[s], start, offset)
      decreases todo
    {
      var s := Pick(todo);
      var t := Shift(s, start, offset);
      assert StageTo(f, s, t, start, offset);
      assert f.Keys - (todo - {s}) == (f.Keys - todo) + {s};
      if t !in f' { f' := f'[t := ShiftKey(f[s], start, offset)]; }
      todo := todo - {s};
    }
    assert todo == {} && f.Keys - todo == f.Keys;
    if StagesApart(f, start, offset) { ApartShifted(f, f', start, offset); }
  }

  lemma {:induction false} ApartShifted(f: StageMap, f': StageMap, start: int, offset: int)
    requires StagesFrom(f, f', start, offset) && StagesApart(f, start, offset)
    ensures StagesShifted(f, f', start, offset)
  {
    forall s | s in f
      ensures Shift(s, start, offset) in f' && f'[Shift(s, start, offset)] == ShiftKey(f[s], start, offset)
    {
      var t := Shift(s, start, offset);
      assert t in f';
      var u :| StageTo(f, u, t, start, offset) && f'[t] == ShiftKey(f[u], start, offset);
      assert u == s;
    }
  }

  method ShiftLists(g: IterMap, start: int, offset: int) returns (g': IterMap)
    ensures ListsShifted(g, g', start, offset)
  {
    g' := map[];
    var todo := g.Keys;
    while todo != {}
      invariant todo <= g.Keys
      invariant forall k :: k in g && k !in todo ==> ShiftKey(k, start, offset) in g'
      invariant forall t :: t in g' ==>
                  exists k :: ShiftsTo(g, k, t, start, offset) && g'[t] == ShiftAll(g[k], start, offset)
      decreases todo
    {
      var k :| k in todo;
      var t := ShiftKey(k, start, offset);
      assert ShiftsTo(g, k, t, start, offset);
      if t !in g' { g' := g'[t := ShiftAll(g[k], start, offset)]; }
      todo := todo - {k};
    }
  }

  /** If what merges agrees, shifting keeps the two maps inverse, in whatever order. */
  lemma {:induction false} AgreedInverse(f: StageMap, g: IterMap, f': StageMap, g': IterMap, start: int, offset: int)
    requires Inverse(f, g) && MergesAgree(f, g, start, offset)
    requires StagesFrom(f, f', start, offset) && ListsShifted(g, g', start, offset)
    ensures Inverse(f', g')
  {
    forall t | t in f' ensures f'[t] in g' && t in g'[f'[t]] { AgreedStage(f, g, f', g', t, start, offset); }
    forall u | u in g' ensures ListOk(f', u, g'[u]) { AgreedList(f, g, f', g', u, start, offset); }
  }

  lemma {:induction false} AgreedStage(f: StageMap, g: IterMap, f': StageMap, g': IterMap, t: int, start: int,
      offset: int)
    requires Inverse(f, g) && MergesAgree(f, g, start, offset)
    requires StagesFrom(f, f', start, offset) && ListsShifted(g, g', start, offset) && t in f'
    ensures f'[t] in g' && t in g'[f'[t]]
  {
    var s :| StageTo(f, s, t, start, offset) && f'[t] == ShiftKey(f[s], start, offset);
    assert f[s] in g && s in g[f[s]];
    var m :| ShiftsTo(g, m, f'[t], start, offset) && g'[f'[t]] == ShiftAll(g[m], start, offset);
    ShiftedMember(g[f[s]], s, start, offset);
    assert SameElements(ShiftAll(g[f[s]], start, offset), ShiftAll(g[m], start, offset));
  }

  lemma {:induction false} AgreedList(f: StageMap, g: IterMap, f': StageMap, g': IterMap, u: IterKey, start: int,
      offset: int)
    requires Inverse(f, g) && MergesAgree(f, g, start, offset)
    requires StagesFrom(f, f', start, offset) && ListsShifted(g, g', start, offset) && u in g'
    ensures ListOk(f', u, g'[u])
  {
    var m :| ShiftsTo(g, m, u, start, offset) && g'[u] == ShiftAll(g[m], start, offset);
    assert ListOk(f, m, g[m]);
    forall t | t in g'[u] ensures t in f' && f'[t] == u {
      var s := MemberShifted(g[m], t, start, offset);
      AgreedEntry(f, f', s, start, offset);
    }
  }

  lemma {:induction false} AgreedEntry(f: StageMap, f': StageMap, s: int, start: int, offset: int)
    requires StagesFrom(f, f', start, offset) && s in f
    requires forall t :: t in f && Shift(s, start, offset) == Shift(t, start, offset) ==>
               ShiftKey(f[s], start, offset) == ShiftKey(f[t], start, offset)
    ensures Shift(s, start, offset) in f' && f'[Shift(s, start, offset)] == ShiftKey(f[s], start, offset)
  {
    var t := Shift(s, start, offset);
    assert t in f';
    var u :| StageTo(f, u, t, start, offset) && f'[t] == ShiftKey(f[u], start, offset);
  }

  lemma {:induction false} MemberShifted(list: seq<int>, t: int, start: int, offset: int) returns (s: int)
    requires t in ShiftAll(list, start, offset)
    ensures s in list && Shift(s, start, offset) == t
  {
    var i :| 0 <= i < |list| && ShiftAll(list, start, offset)[i] == t;
    s := list[i];
  }

  lemma {:induction false} ShiftedMember(list: seq<int>, s: int, start: int, offset: int)
    requires s in list
    ensures Shift(s, start, offset) in ShiftAll(list, start, offset)
  {
    var i :| 0 <= i < |list| && list[i] == s;
    assert ShiftAll(list, start, offset)[i] == Shift(s, start, offset);
  }

  /** If no stages merge, what merges agrees exactly when no keys merge. */
  lemma {:induction false} ApartAgree(f: StageMap, g: IterMap, start: int, offset: int)
    requires Inverse(f, g) && StagesApart(f, start, offset)
    ensures MergesAgree(f, g, start, offset) <==> KeysApart(g, start, offset)
  {
    forall k | k in g ensures NoRepeats(ShiftAll(g[k], start, offset)) {
      var list, r := g[k], ShiftAll(g[k], start, offset);
      assert ListOk(f, k, list);
      forall i, j | 0 <= i < j < |r| ensures r[i] != r[j] { assert list[i] in list && list[j] in list; }
    }
    if MergesAgree(f, g, start, offset) {
      forall k, l | k in g && l in g && ShiftKey(k, start, offset) == ShiftKey(l, start, offset) ensures k == l {
        assert ListOk(f, k, g[k]) && ListOk(f, l, g[l]);
        var s := g[k][0];
        ShiftedMember(g[k], s, start, offset);
        assert SameElements(ShiftAll(g[k], start, offset), ShiftAll(g[l], start, offset));
        var t := MemberShifted(g[l], Shift(s, start, offset), start, offset);
      }
    }
  }

  lemma {:induction false} NothingMerges(f: StageMap, g: IterMap, start: int, offset: int)
    requires offset >= 0
    ensures StagesApart(f, start, offset) && KeysApart(g, start, offset)
  {}

  /** What is inverse after shifting. */
  lemma {:induction false} ShiftedInverse(f: StageMap, g: IterMap, f': StageMap, g': IterMap, start: int, offset: int)
    requires Inverse(f, g) && StagesFrom(f, f', start, offset) && ListsShifted(g, g', start, offset)
    ensures MergesAgree(f, g, start, offset) ==> Inverse(f', g')
    ensures StagesApart(f, start, offset) ==> (Inverse(f', g') <==> KeysApart(g, start, offset))
  {
    if StagesApart(f, start, offset) {
      ApartAgree(f, g, start, offset);
      ApartShifted(f, f', start, offset);
      if Inverse(f', g') { InverseKeysApart(f, g, f', g', start, offset); }
    }
    if MergesAgree(f, g, start, offset) { AgreedInverse(f, g, f', g', start, offset); }
  }

  // ----- if what merges does not agree -------------------------------------------------------

  /** A copy of each map that the loops may make. */
  ghost function SomeStages(f: StageMap, start: int, offset: int): StageMap {
    map t | t in ShiftedStages(f.Keys, start, offset) ::
      StageSource(f, t, start, offset);
      var s :| StageTo(f, s, t, start, offset); ShiftKey(f[s], start, offset)
  }

  ghost function ShiftedKeys(g: IterMap, start: int, offset: int): set<IterKey> {
    set k | k in g :: ShiftKey(k, start, offset)
  }

  lemma {:induction false} StageSource(f: StageMap, t: int, start: int, offset: int)
    requires t in ShiftedStages(f.Keys, start, offset)
    ensures exists s :: StageTo(f, s, t, start, offset)
  {
    var s :| s in f && Shift(s, start, offset) == t;
    assert StageTo(f, s, t, start, offset);
  }

  lemma {:induction false} KeySource(g: IterMap, t: IterKey, start: int, offset: int)
    requires t in ShiftedKeys(g, start, offset)
    ensures exists k :: ShiftsTo(g, k, t, start, offset)
  {
    var k :| k in g && ShiftKey(k, start, offset) == t;
    assert ShiftsTo(g, k, t, start, offset);
  }

  ghost function SomeLists(g: IterMap, start: int, offset: int): IterMap {
    map t | t in ShiftedKeys(g, start, offset) ::
      KeySource(g, t, start, offset);
      var k :| ShiftsTo(g, k, t, start, offset); ShiftAll(g[k], start, offset)
  }

  /** The loop may meet s first. */
  lemma {:induction false} StageFirst(f: StageMap, s: int, start: int, offset: int) returns (f': StageMap)
    requires s in f
    ensures StagesFrom(f, f', start, offset)
    ensures Shift(s, start, offset) in f' && f'[Shift(s, start, offset)] == ShiftKey(f[s], start, offset)
  {
    var t0 := Shift(s, start, offset);
    f' := SomeStages(f, start, offset)[t0 := ShiftKey(f[s], start, offset)];
    forall t | t in f' ensures exists u :: StageTo(f, u, t, start, offset) && f'[t] == ShiftKey(f[u], start, offset) {
      if t == t0 { assert StageTo(f, s, t, start, offset); }
    }
  }

  /** The loop may meet k first. */
  lemma {:induction false} KeyFirst(g: IterMap, k: IterKey, start: int, offset: int) returns (g': IterMap)
    requires k in g
    ensures ListsShifted(g, g', start, offset)
    ensures ShiftKey(k, start, offset) in g' && g'[ShiftKey(k, start, offset)] == ShiftAll(g[k], start, offset)
  {
    var t0 := ShiftKey(k, start, offset);
    g' := SomeLists(g, start, offset)[t0 := ShiftAll(g[k], start, offset)];
    forall t | t in g' ensures exists l :: ShiftsTo(g, l, t, start, offset) && g'[t] == ShiftAll(g[l], start, offset) {
      if t == t0 { assert ShiftsTo(g, k, t, start, offset); }
    }
  }

  /** Stages that merge under keys that do not: the copy attaches them to one and lists them under the other. */
  lemma {:induction false} StagesDisagree(f: StageMap, g: IterMap, s: int, t: int, start: int, offset: int)
    returns (f': StageMap, g': IterMap)
    requires Inverse(f, g) && s in f && t in f && Shift(s, start, offset) == Shift(t, start, offset)
    requires ShiftKey(f[s], start, offset) != ShiftKey(f[t], start, offset)
    ensures StagesFrom(f, f', start, offset) && ListsShifted(g, g', start, offset) && !Inverse(f', g')
  {
    f' := StageFirst(f, s, start, offset);
    g' := KeyFirst(g, f[t], start, offset);
    ShiftedMember(g[f[t]], t, start, offset);
    assert !ListOk(f', ShiftKey(f[t], start, offset), g'[ShiftKey(f[t], start, offset)]);
  }

  /** Keys that merge, one with a stage that the other does not list. */
  lemma {:induction false} ListsDisagree(f: StageMap, g: IterMap, k: IterKey, l: IterKey, t: int, start: int,
      offset: int)
    returns (f': StageMap, g': IterMap)
    requires Inverse(f, g) && k in g && l in g && ShiftKey(k, start, offset) == ShiftKey(l, start, offset)
    requires t in ShiftAll(g[k], start, offset) && t !in ShiftAll(g[l], start, offset)
    ensures StagesFrom(f, f', start, offset) && ListsShifted(g, g', start, offset) && !Inverse(f', g')
  {
    assert ListOk(f, k, g[k]);
    var s := MemberShifted(g[k], t, start, offset);
    f' := StageFirst(f, s, start, offset);
    g' := KeyFirst(g, l, start, offset);
    assert f'[t] == ShiftKey(l, start, offset) && t !in g'[f'[t]];
  }

  /** If what merges does not agree, some order of the loops gives maps that are not inverse. */
  lemma {:induction false} DisagreeBreaks(f: StageMap, g: IterMap, start: int, offset: int)
    returns (f': StageMap, g': IterMap)
    requires Inverse(f, g) && !MergesAgree(f, g, start, offset)
    ensures StagesFrom(f, f', start, offset) && ListsShifted(g, g', start, offset) && !Inverse(f', g')
  {
    if s, t :| s in f && t in f && Shift(s, start, offset) == Shift(t, start, offset) &&
               ShiftKey(f[s], start, offset) != ShiftKey(f[t], start, offset)
    {
      f', g' := StagesDisagree(f, g, s, t, start, offset);
    } else if k :| k in g && !NoRepeats(ShiftAll(g[k], start, offset)) {
      assert ListOk(f, k, g[k]);
      f' := StageFirst(f, g[k][0], start, offset);
      g' := KeyFirst(g, k, start, offset);
      assert !ListOk(f', ShiftKey(k, start, offset), g'[ShiftKey(k, start, offset)]);
    } else {
      var k, l :| k in g && l in g && ShiftKey(k, start, offset) == ShiftKey(l, start, offset) &&
        !SameElements(ShiftAll(g[k], start, offset), ShiftAll(g[l], start, offset));
      if t :| t in ShiftAll(g[k], start, offset) && t !in ShiftAll(g[l], start, offset) {
        f', g' := ListsDisagree(f, g, k, l, t, start, offset);
      } else {
        var t :| t in ShiftAll(g[l], start, offset) && t !in ShiftAll(g[k], start, offset);
        f', g' := ListsDisagree(f, g, l, k, t, start, offset);
      }
    }
  }

  /** If stages do not merge but the shifted maps are inverse, then keys do not merge. */
  lemma {:induction false} InverseKeysApart(f: StageMap, g: IterMap, f': StageMap, g': IterMap, start: int, offset: int)
    requires Inverse(f, g) && Inverse(f', g') && StagesApart(f, start, offset)
    requires StagesShifted(f, f', start, offset) && ListsShifted(g, g', start, offset)
    ensures KeysApart(g, start, offset)
  {
    forall k, l | k in g && l in g && ShiftKey(k, start, offset) == ShiftKey(l, start, offset) ensures k == l {
      var t := ShiftKey(k, start, offset);
      var m :| ShiftsTo(g, m, t, start, offset) && g'[t] == ShiftAll(g[m], start, offset);
      OnlyKey(f, g, f', g', k, m, start, offset);
      OnlyKey(f, g, f', g', l, m, start, offset);
    }
  }

  /** A key whose stages are found in the list of m is m. */
  lemma {:induction false} OnlyKey(f: StageMap, g: IterMap, f': StageMap, g': IterMap, k: IterKey, m: IterKey,
      start: int, offset: int)
    requires Inverse(f, g) && Inverse(f', g') && StagesApart(f, start, offset) && StagesShifted(f, f', start, offset)
    requires k in g && m in g && ShiftKey(k, start, offset) == ShiftKey(m, start, offset)
    requires ShiftKey(m, start, offset) in g' && g'[ShiftKey(m, start, offset)] == ShiftAll(g[m], start, offset)
    ensures k == m
  {
    assert ListOk(f, k, g[k]) && ListOk(f, m, g[m]);
    var s, list := g[k][0], ShiftAll(g[m], start, offset);
    assert s in g[k] && f'[Shift(s, start, offset)] == ShiftKey(k, start, offset);
    assert Shift(s, start, offset) in list;
    var i :| 0 <= i < |list| && list[i] == Shift(s, start, offset);
    assert g[m][i] in g[m] && f[g[m][i]] == m && g[m][i] == s;
  }

  const TwoStages: StageMap := map[1 := IterKey(5, 0), 2 := IterKey(5, 0)]
  const OneList: IterMap := map[IterKey(5, 0) := [1, 2]]

  lemma {:induction false} TwoStagesInverse()
    ensures Inverse(TwoStages, OneList)
  {
    var k := IterKey(5, 0);
    assert OneList[k] == [1, 2] && ListOk(TwoStages, k, [1, 2]);
  }

  /** A negative offset can merge two stages into one, and then the copy is not inverse. */
  lemma {:induction false} OffsetMerges(f': StageMap, g': IterMap)
    requires ListsShifted(OneList, g', 2, -1)
    ensures Inverse(TwoStages, OneList) && !StagesApart(TwoStages, 2, -1) && !Inverse(f', g')
  {
    TwoStagesInverse();
    assert Shift(1, 2, -1) == Shift(2, 2, -1);
    MergedList(g');
    assert !ListOk(f', IterKey(4, 0), g'[IterKey(4, 0)]);
  }

  lemma {:induction false} MergedList(g': IterMap)
    requires ListsShifted(OneList, g', 2, -1)
    ensures IterKey(4, 0) in g' && |g'[IterKey(4, 0)]| == 2 && g'[IterKey(4, 0)][0] == g'[IterKey(4, 0)][1]
  {
    var k, t := IterKey(5, 0), IterKey(4, 0);
    assert k in OneList && ShiftKey(k, 2, -1) == t;
    var l :| ShiftsTo(OneList, l, t, 2, -1) && g'[t] == ShiftAll(OneList[l], 2, -1);
  }
}
