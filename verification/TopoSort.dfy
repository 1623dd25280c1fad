/** Topological sort of operations by priority (TopoSortOps in src/auto_scheduler/compute_dag.cc). */
module TopoSort {
  import opened Wrappers

  /** For every operation the producers of its input tensors, one entry per tensor. */
  type Graph = map<nat, seq<nat>>

  ghost predicate Closed(g: Graph) { forall op, p :: op in g && p in g[op] ==> p in g }

  /** Producers are smaller: there is no cycle. */
  ghost predicate Acyclic(g: Graph, rank: map<nat, nat>) {
    rank.Keys == g.Keys && forall op, p :: op in g && p in g[op] && p in g ==> rank[p] < rank[op]
  }

  /** From place i a path goes on to a producer. */
  ghost predicate StepFrom(g: Graph, path: seq<nat>, i: nat)
    requires i + 1 < |path|
  {
    path[i] in g && path[i + 1] in g[path[i]]
  }

  /** A path of producers. */
  ghost predicate Path(g: Graph, path: seq<nat>) {
    |path| > 0 && forall i: nat :: i < |path| - 1 ==> StepFrom(g, path, i)
  }

  ghost predicate Reachable(g: Graph, roots: seq<nat>, op: nat) {
    exists path :: Path(g, path) && path[0] in roots && path[|path| - 1] == op
  }

  lemma {:induction false} ReachNext(g: Graph, roots: seq<nat>, op: nat, p: nat)
    requires Reachable(g, roots, op) && op in g && p in g[op]
    ensures Reachable(g, roots, p)
  {
    var path :| Path(g, path) && path[0] in roots && path[|path| - 1] == op;
    var longer := path + [p];
    forall i: nat | i < |longer| - 1 ensures StepFrom(g, longer, i) {
      if i < |path| - 1 { assert StepFrom(g, path, i); }
    }
    assert Path(g, longer) && longer[0] == path[0] && longer[|longer| - 1] == p;
  }

  lemma {:induction false} RootReachable(g: Graph, roots: seq<nat>, op: nat)
    requires op in roots
    ensures Reachable(g, roots, op)
  {
    assert Path(g, [op]) && [op][0] in roots;
  }

  /** A set with the roots that is closed under producers has everything reachable. */
  lemma {:induction false} ClosedHasReachable(g: Graph, roots: seq<nat>, s: set<nat>, op: nat)
    requires (forall r :: r in roots ==> r in s) && (forall o, p :: o in s && o in g && p in g[o] ==> p in s)
    requires Reachable(g, roots, op)
    ensures op in s
  {
    var path :| Path(g, path) && path[0] in roots && path[|path| - 1] == op;
    var i := 0;
    while i < |path| - 1
      invariant 0 <= i < |path| && path[i] in s
    {
      assert StepFrom(g, path, i);
      i := i + 1;
    }
  }

  // ----- counting ----------------------------------------------------------------------------

  function Count(s: seq<nat>, x: nat): nat {
    if |s| == 0 then 0 else (if s[|s| - 1] == x then 1 else 0) + Count(s[..|s| - 1], x)
  }

  /** Input tensors whose producer is not done. */
  function Waiting(inputs: seq<nat>, done: set<nat>): nat {
    if |inputs| == 0 then 0 else (if inputs[|inputs| - 1] in done then 0 else 1) + Waiting(inputs[..|inputs| - 1], done)
  }

  lemma {:induction false} CountNext(s: seq<nat>, k: nat, x: nat)
    requires k < |s|
    ensures Count(s[..k + 1], x) == Count(s[..k], x) + if s[k] == x then 1 else 0
  {
    assert s[..k + 1][..k] == s[..k];
  }

  lemma {:induction false} CountPrefix(s: seq<nat>, k: nat, x: nat)
    requires k <= |s|
    ensures Count(s[..k], x) <= Count(s, x)
    decreases |s| - k
  {
    if k < |s| {
      CountNext(s, k, x);
      CountPrefix(s, k + 1, x);
    } else {
      assert s[..k] == s;
    }
  }

  lemma {:induction false} CountMember(s: seq<nat>, x: nat)
    ensures Count(s, x) > 0 <==> x in s
  {
    if |s| > 0 {
      CountMember(s[..|s| - 1], x);
      assert s == s[..|s| - 1] + [s[|s| - 1]];
    }
  }

  /** Finishing x takes its inputs off the waiting list. */
  lemma {:induction false} WaitingNext(inputs: seq<nat>, done: set<nat>, x: nat)
    requires x !in done
    ensures Waiting(inputs, done + {x}) == Waiting(inputs, done) - Count(inputs, x)
  {
    if |inputs| > 0 { WaitingNext(inputs[..|inputs| - 1], done, x); }
  }

  lemma {:induction false} WaitingZero(inputs: seq<nat>, done: set<nat>)
    ensures Waiting(inputs, done) == 0 <==> forall p :: p in inputs ==> p in done
  {
    if |inputs| > 0 {
      WaitingZero(inputs[..|inputs| - 1], done);
      assert inputs == inputs[..|inputs| - 1] + [inputs[|inputs| - 1]];
    }
  }

  lemma {:induction false} WaitingAll(inputs: seq<nat>)
    ensures Waiting(inputs, {}) == |inputs|
  {
    if |inputs| > 0 { WaitingAll(inputs[..|inputs| - 1]); }
  }

  // ----- the traversal -----------------------------------------------------------------------

  /** Consumers of p among the visited, one entry per tensor read. */
  function Consumers(edges: Graph, p: nat): seq<nat> { if p in edges then edges[p] else [] }

  /** edges lists every visited operation under its producers, as often as it reads them. */
  ghost predicate EdgesOf(g: Graph, visited: set<nat>, edges: Graph) {
    forall p: nat, op: nat :: Count(Consumers(edges, p), op) == if op in visited && op in g then Count(g[op], p) else 0
  }

  method AddEdges(edges0: Graph, stack0: seq<nat>, op: nat, inputs: seq<nat>) returns (edges: Graph, stack: seq<nat>)
    ensures stack == stack0 + inputs
    ensures forall p: nat, o: nat :: Count(Consumers(edges, p), o) ==
              Count(Consumers(edges0, p), o) + if o == op then Count(inputs, p) else 0
  {
    edges, stack := edges0, stack0;
    assert inputs[..0] == [] && stack0 + [] == stack0 && forall p: nat :: Count([], p) == 0;
    for k := 0 to |inputs|
      invariant stack == stack0 + inputs[..k]
      invariant forall p: nat, o: nat ::
        Count(Consumers(edges, p), o) == Count(Consumers(edges0, p), o) + if o == op then Count(inputs[..k], p) else 0
    {
      var p := inputs[k];
      ghost var before := edges;
      edges := edges[p := Consumers(edges, p) + [op]];
      stack := stack + [p];
      assert inputs[..k + 1] == inputs[..k] + [p];
      forall q: nat, o: nat
        ensures Count(Consumers(edges, q), o) ==
                Count(Consumers(edges0, q), o) + if o == op then Count(inputs[..k + 1], q) else 0
      {
        CountNext(inputs, k, q);
        if q == p { CountAppend(Consumers(before, p), op, o); }
      }
    }
    assert inputs[..|inputs|] == inputs;
  }

  lemma {:induction false} CountAppend(s: seq<nat>, x: nat, o: nat)
    ensures Count(s + [x], o) == Count(s, o) + if x == o then 1 else 0
  {
    assert (s + [x])[..|s|] == s;
  }

  /** Visited so far, with the roots and all producers visited or still on the stack. */
  ghost predicate Traversing(g: Graph, roots: seq<nat>, visited: set<nat>, stack: seq<nat>) {
    && (forall op :: op in visited || op in stack ==> op in g && Reachable(g, roots, op))
    && (forall r :: r in roots ==> r in visited || r in stack)
    && (forall op, p :: op in visited && op in g && p in g[op] ==> p in visited || p in stack)
  }

  lemma {:induction false} SkipVisited(g: Graph, roots: seq<nat>, visited: set<nat>, stack: seq<nat>)
    requires |stack| > 0 && Traversing(g, roots, visited, stack) && stack[|stack| - 1] in visited
    ensures Traversing(g, roots, visited, stack[..|stack| - 1])
  {
    assert stack == stack[..|stack| - 1] + [stack[|stack| - 1]];
  }

  lemma {:induction false} VisitNext(g: Graph, roots: seq<nat>, visited: set<nat>, stack: seq<nat>)
    requires Closed(g) && |stack| > 0 && Traversing(g, roots, visited, stack) && stack[|stack| - 1] in g
    ensures Traversing(g, roots, visited + {stack[|stack| - 1]}, stack[..|stack| - 1] + g[stack[|stack| - 1]])
  {
    var op := stack[|stack| - 1];
    assert stack == stack[..|stack| - 1] + [op];
    assert op in stack;
    forall p | p in g[op] ensures p in g && Reachable(g, roots, p) { ReachNext(g, roots, op, p); }
  }

  /** What is recorded about the visited operations. */
  ghost predicate Recorded(g: Graph, visited: set<nat>, degree: map<nat, int>, edges: Graph, priority: map<nat, int>) {
    && visited <= g.Keys
    && degree.Keys == visited && (forall op :: op in visited ==> degree[op] == |g[op]|)
    && EdgesOf(g, visited, edges) && priority.Keys == visited
  }

  lemma {:induction false} RecordedNone(g: Graph)
    ensures Recorded(g, {}, map[], map[], map[])
  {}

  lemma {:induction false} RecordNext(g: Graph, visited: set<nat>, degree: map<nat, int>, edges: Graph,
      priority: map<nat, int>, op: nat, ct: int, edges': Graph)
    requires Recorded(g, visited, degree, edges, priority) && op in g && op !in visited
    requires forall p: nat, o: nat :: Count(Consumers(edges', p), o) ==
               Count(Consumers(edges, p), o) + if o == op then Count(g[op], p) else 0
    ensures Recorded(g, visited + {op}, degree[op := |g[op]|], edges', priority[op := ct])
  {
    NewEdges(g, visited, edges, edges', op);
  }

  /** The traversal: what is reachable, how many tensors each operation reads, and who reads whom. */
  method Traverse(g: Graph, roots: seq<nat>)
    returns (visited: set<nat>, degree: map<nat, int>, edges: Graph, priority: map<nat, int>)
    requires Closed(g) && forall r :: r in roots ==> r in g
    ensures Recorded(g, visited, degree, edges, priority)
    ensures forall op :: op in visited <==> Reachable(g, roots, op)
  {
    visited, degree, edges, priority := {}, map[], map[], map[];
    var stack := roots;
    var ct := 0;
    RecordedNone(g);
    TraverseStart(g, roots);
    while |stack| > 0
      invariant Traversing(g, roots, visited, stack) && Recorded(g, visited, degree, edges, priority)
      decreases g.Keys - visited, |stack|
    {
      var op := stack[|stack| - 1];
      assert op in stack;
      if op in visited {
        SkipVisited(g, roots, visited, stack);
        stack := stack[..|stack| - 1];
      } else {
        VisitNext(g, roots, visited, stack);
        var edges', stack' := AddEdges(edges, stack[..|stack| - 1], op, g[op]);
        RecordNext(g, visited, degree, edges, priority, op, ct, edges');
        priority, degree := priority[op := ct], degree[op := |g[op]|];
        ct := ct + 1;
        edges, stack := edges', stack';
        visited := visited + {op};
      }
    }
    VisitedIsReachable(g, roots, visited);
  }

  lemma {:induction false} TraverseStart(g: Graph, roots: seq<nat>)
    requires forall r :: r in roots ==> r in g
    ensures Traversing(g, roots, {}, roots)
  {
    forall r | r in roots ensures Reachable(g, roots, r) { RootReachable(g, roots, r); }
  }

  lemma {:induction false} VisitedIsReachable(g: Graph, roots: seq<nat>, visited: set<nat>)
    requires Traversing(g, roots, visited, [])
    ensures forall op :: op in visited <==> Reachable(g, roots, op)
  {
    forall op | Reachable(g, roots, op) ensures op in visited { ClosedHasReachable(g, roots, visited, op); }
  }

  lemma {:induction false} NewEdges(g: Graph, visited: set<nat>, edges: Graph, edges': Graph, op: nat)
    requires EdgesOf(g, visited, edges) && op in g && op !in visited
    requires forall p: nat, o: nat :: Count(Consumers(edges', p), o) ==
               Count(Consumers(edges, p), o) + if o == op then Count(g[op], p) else 0
    ensures EdgesOf(g, visited + {op}, edges')
  {}

  // ----- the sort ----------------------------------------------------------------------------

  function Elements(s: seq<nat>): set<nat> { set x | x in s }

  /** Every operation comes after all its producers. */
  ghost predicate ProducersFirst(g: Graph, ops: seq<nat>) {
    forall i, p :: 0 <= i < |ops| && ops[i] in g && p in g[ops[i]] ==> p in ops[..i]
  }

  /** The operation of highest priority. */
  method Top(queue: set<nat>, priority: map<nat, int>) returns (top: nat)
    requires queue != {} && queue <= priority.Keys
    ensures top in queue && forall op :: op in queue ==> priority[op] <= priority[top]
  {
    top :| top in queue;
    var todo := queue - {top};
    while todo != {}
      invariant todo <= queue && top in queue
      invariant forall op :: op in queue && op !in todo ==> priority[op] <= priority[top]
      decreases todo
    {
      var op :| op in todo;
      if priority[op] > priority[top] { top := op; }
      todo := todo - {op};
    }
  }

  /** Degrees count the inputs not done; what waits for nothing is done or queued. */
  ghost predicate Balanced(g: Graph, visited: set<nat>, degree: map<nat, int>, done: set<nat>, queue: set<nat>) {
    && visited <= g.Keys && degree.Keys == visited && done <= visited && queue <= visited
    && (forall op :: op in visited ==> degree[op] == Waiting(g[op], done))
    && (forall op :: op in visited ==> (degree[op] == 0 <==> op in done || op in queue))
    && done !! queue
  }

  /** Inside the inner loop: the first k consumers of item have been told. */
  ghost predicate Telling(g: Graph, visited: set<nat>, degree: map<nat, int>, done: set<nat>, queue: set<nat>,
      item: nat, consumers: seq<nat>, k: nat)
  {
    && k <= |consumers| && degree.Keys == visited && visited <= g.Keys && queue <= visited
    && (forall op :: op in visited ==> degree[op] == Waiting(g[op], done) - Count(consumers[..k], op))
    && (forall op :: op in visited ==> (op in queue <==> degree[op] == 0 && op !in done && op != item))
  }

  lemma {:induction false} TellStart(g: Graph, visited: set<nat>, degree: map<nat, int>, done: set<nat>,
      queue: set<nat>, item: nat, consumers: seq<nat>)
    requires Balanced(g, visited, degree, done, queue) && item in queue
    ensures Telling(g, visited, degree, done, queue - {item}, item, consumers, 0)
  {
    assert consumers[..0] == [];
  }

  /** A consumer still waits for item, so it is neither done, nor item, nor queued. */
  lemma {:induction false} TellNext(g: Graph, visited: set<nat>, degree: map<nat, int>, done: set<nat>, queue: set<nat>,
      item: nat, consumers: seq<nat>, k: nat)
    requires Telling(g, visited, degree, done, queue, item, consumers, k) && k < |consumers| && item !in done
    requires forall op: nat :: Count(consumers, op) == if op in visited then Count(g[op], item) else 0
    requires forall op :: op in visited && (op in done || op == item) ==> Waiting(g[op], done) == 0
    ensures var dst := consumers[k];
            dst in visited && degree[dst] > 0 &&
            Telling(g, visited, degree[dst := degree[dst] - 1], done,
                    if degree[dst] == 1 then queue + {dst} else queue, item, consumers, k + 1)
  {
    var dst := consumers[k];
    CountMember(consumers, dst);
    forall op: nat ensures Count(consumers[..k + 1], op) == Count(consumers[..k], op) + if op == dst then 1 else 0 {
      CountNext(consumers, k, op);
    }
    CountPrefix(consumers, k + 1, dst);
    WaitingNext(g[dst], done, item);
  }

  lemma {:induction false} TellEnd(g: Graph, visited: set<nat>, degree: map<nat, int>, done: set<nat>, queue: set<nat>,
      item: nat, consumers: seq<nat>)
    requires Telling(g, visited, degree, done, queue, item, consumers, |consumers|) && item !in done
    requires item in visited && done <= visited
    requires forall op: nat :: Count(consumers, op) == if op in visited then Count(g[op], item) else 0
    requires forall op :: op in visited && (op in done || op == item) ==> Waiting(g[op], done) == 0
    ensures Balanced(g, visited, degree, done + {item}, queue)
  {
    assert consumers[..|consumers|] == consumers;
    forall op | op in visited ensures degree[op] == Waiting(g[op], done + {item}) { WaitingNext(g[op], done, item); }
  }

  /** Tells the consumers of item that it is done; those that wait for nothing more are queued. */
  method Release(ghost g: Graph, ghost visited: set<nat>, ghost done: set<nat>, degree0: map<nat, int>,
      queue0: set<nat>, item: nat, consumers: seq<nat>)
    returns (degree: map<nat, int>, queue: set<nat>)
    requires Balanced(g, visited, degree0, done, queue0) && item in queue0
    requires forall op: nat :: Count(consumers, op) == if op in visited then Count(g[op], item) else 0
    ensures Balanced(g, visited, degree, done + {item}, queue)
  {
    degree, queue := degree0, queue0 - {item};
    TellStart(g, visited, degree0, done, queue0, item, consumers);
    for k := 0 to |consumers|
      invariant Telling(g, visited, degree, done, queue, item, consumers, k)
    {
      var dst := consumers[k];
      TellNext(g, visited, degree, done, queue, item, consumers, k);
      degree := degree[dst := degree[dst] - 1];
      if degree[dst] == 0 { queue := queue + {dst}; }
    }
    TellEnd(g, visited, degree, done, queue, item, consumers);
  }

  /** If nothing is queued, everything is done: the least operation left would wait for nothing. */
  lemma {:induction false} NothingLeft(g: Graph, visited: set<nat>, degree: map<nat, int>, done: set<nat>,
      rank: map<nat, nat>)
    requires Balanced(g, visited, degree, done, {}) && Acyclic(g, rank)
    requires forall op, p :: op in visited && p in g[op] ==> p in visited
    ensures done == visited
  {
    if done != visited {
      var left := visited - done;
      var op := Least(left, rank);
      WaitingZero(g[op], done);
    }
  }

  lemma {:induction false} Least(s: set<nat>, rank: map<nat, nat>) returns (least: nat)
    requires s != {} && s <= rank.Keys
    ensures least in s && forall op :: op in s ==> rank[least] <= rank[op]
  {
    least :| least in s;
    var todo := s - {least};
    while todo != {}
      invariant todo <= s && least in s
      invariant forall op :: op in s && op !in todo ==> rank[least] <= rank[op]
      decreases todo
    {
      var op :| op in todo;
      if rank[op] < rank[least] { least := op; }
      todo := todo - {op};
    }
  }

  lemma {:induction false} ConsumersOf(g: Graph, visited: set<nat>, edges: Graph, item: nat)
    requires visited <= g.Keys && EdgesOf(g, visited, edges)
    ensures forall op: nat :: Count(Consumers(edges, item), op) == if op in visited then Count(g[op], item) else 0
  {}

  /** The loop over the queue. */
  method SortByDegree(g: Graph, visited: set<nat>, degree0: map<nat, int>, edges: Graph, priority: map<nat, int>)
    returns (ops: seq<nat>, ghost degree: map<nat, int>)
    requires Recorded(g, visited, degree0, edges, priority)
    ensures NoRepeats(ops) && ProducersFirst(g, ops) && Balanced(g, visited, degree, Elements(ops), {})
  {
    ops := [];
    var waiting := degree0;
    var queue := set op | op in degree0 && degree0[op] == 0;
    QueueStart(g, visited, degree0, edges, priority, queue);
    while queue != {}
      invariant Balanced(g, visited, waiting, Elements(ops), queue)
      invariant NoRepeats(ops) && ProducersFirst(g, ops)
      decreases visited - Elements(ops)
    {
      var item := Top(queue, priority);
      SortNext(g, visited, waiting, ops, queue, item);
      ConsumersOf(g, visited, edges, item);
      waiting, queue := Release(g, visited, Elements(ops), waiting, queue, item, Consumers(edges, item));
      ops := ops + [item];
    }
    degree := waiting;
  }

  /** TopoSortOps: every operation reachable from the tensors, exactly once, after its producers. */
  method TopoSortOps(g: Graph, tensors: seq<nat>, ghost rank: map<nat, nat>) returns (ops: seq<nat>)
    requires Closed(g) && Acyclic(g, rank) && forall r :: r in tensors ==> r in g
    ensures NoRepeats(ops) && (forall op :: op in ops <==> Reachable(g, tensors, op)) && ProducersFirst(g, ops)
  {
    var visited, degree0, edges, priority := Traverse(g, tensors);
    ghost var degree;
    ops, degree := SortByDegree(g, visited, degree0, edges, priority);
    forall op, p | op in visited && p in g[op] ensures p in visited { ReachNext(g, tensors, op, p); }
    NothingLeft(g, visited, degree, Elements(ops), rank);
    assert forall op :: op in ops <==> op in Elements(ops);
  }

  lemma {:induction false} QueueStart(g: Graph, visited: set<nat>, degree: map<nat, int>, edges: Graph,
      priority: map<nat, int>, queue: set<nat>)
    requires Recorded(g, visited, degree, edges, priority) && queue == set op | op in degree && degree[op] == 0
    ensures Balanced(g, visited, degree, {}, queue) && Elements([]) == {}
  {
    forall op | op in visited ensures degree[op] == Waiting(g[op], {}) { WaitingAll(g[op]); }
  }

  /** A queued operation has all its producers done. */
  lemma {:induction false} SortNext(g: Graph, visited: set<nat>, degree: map<nat, int>, ops: seq<nat>, queue: set<nat>,
      item: nat)
    requires Balanced(g, visited, degree, Elements(ops), queue) && item in queue && NoRepeats(ops)
    requires ProducersFirst(g, ops)
    ensures NoRepeats(ops + [item]) && ProducersFirst(g, ops + [item])
    ensures Elements(ops + [item]) == Elements(ops) + {item}
  {
    WaitingZero(g[item], Elements(ops));
    var ops' := ops + [item];
    assert item !in Elements(ops);
    forall i, p | 0 <= i < |ops'| && ops'[i] in g && p in g[ops'[i]] ensures p in ops'[..i] {
      assert ops'[..i] == ops[..i];
      if i == |ops| { assert p in Elements(ops) && ops[..i] == ops; }
    }
  }
}
