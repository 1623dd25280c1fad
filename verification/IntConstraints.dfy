/** Integer constraint systems, their transforms, and what is assumed of the simplifier
    (src/arith/int_constraints.cc, include/tvm/arith/int_solver.h). */
module IntConstraintSystems {
  import opened PrimExprs

  /** The half-open interval [min, min + extent). */
  datatype Range = Range(min: Expr, extent: Expr)

  type Ranges = map<nat, Range>

  function RangeVars(r: Range): set<nat> { FreeVars(r.min) + FreeVars(r.extent) }

  function AllRangeVars(rs: Ranges): (r: set<nat>)
    ensures forall u :: u in rs ==> RangeVars(rs[u]) <= r
  {
    set u, v | u in rs && v in RangeVars(rs[u]) :: v
  }

  predicate InRange(r: Range, x: int, env: Env) {
    Eval(r.min, env) <= x < Eval(r.min, env) + Eval(r.extent, env)
  }

  /** The variables of vs that have a range lie in it. */
  ghost predicate InRanges(vs: set<nat>, rs: Ranges, env: Env) {
    forall v :: v in vs && v in rs ==> InRange(rs[v], Get(env, v), env)
  }

  ghost predicate InAll(rs: Ranges, env: Env) { InRanges(rs.Keys, rs, env) }

  /** Ranges of variables in c mention only variables in c. */
  ghost predicate Closed(c: set<nat>, rs: Ranges) { forall v :: v in c && v in rs ==> RangeVars(rs[v]) <= c }

  /** The variables of vs, and those that their ranges depend on, are in range. */
  ghost predicate InClosure(vs: set<nat>, rs: Ranges, env: Env) {
    exists c: set<nat> :: vs <= c && Closed(c, rs) && InRanges(c, rs, env)
  }

  lemma {:induction false} ClosureAll(vs: set<nat>, rs: Ranges, env: Env)
    requires InAll(rs, env)
    ensures InClosure(vs, rs, env)
  {
    var c := vs + AllRangeVars(rs);
    assert vs <= c && Closed(c, rs) && InRanges(c, rs, env);
  }

  lemma {:induction false} ClosurePart(vs: set<nat>, ws: set<nat>, rs: Ranges, env: Env)
    requires InClosure(ws, rs, env) && vs <= ws
    ensures InClosure(vs, rs, env)
  {
    var c :| ws <= c && Closed(c, rs) && InRanges(c, rs, env);
    assert vs <= c;
  }

  /** The variables of ws are among those of vs and the ones that their ranges depend on. */
  ghost predicate Reached(ws: set<nat>, vs: set<nat>, rs: Ranges) {
    forall c: set<nat> :: vs <= c && Closed(c, rs) ==> ws <= c
  }

  lemma {:induction false} ReachedClosure(ws: set<nat>, vs: set<nat>, rs: Ranges, env: Env)
    requires Reached(ws, vs, rs) && InClosure(vs, rs, env)
    ensures InClosure(ws, rs, env)
  {
    var c :| vs <= c && Closed(c, rs) && InRanges(c, rs, env);
    assert ws <= c;
  }

  lemma {:induction false} ReachedAll(ws: set<nat>, vs: set<nat>, rs: Ranges)
    requires Reached(ws, vs, rs)
    ensures ws <= vs + AllRangeVars(rs)
  {
    var c := vs + AllRangeVars(rs);
    assert vs <= c && Closed(c, rs);
  }

  lemma {:induction false} ReachedPart(ws: set<nat>, vs: set<nat>, us: set<nat>, rs: Ranges)
    requires Reached(ws, vs, rs) && vs <= us
    ensures Reached(ws, us, rs)
  {}

  lemma {:induction false} ReachedNothing(ws: set<nat>, vs: set<nat>)
    requires Reached(ws, vs, map[])
    ensures ws <= vs
  {
    assert vs <= vs && Closed(vs, map[]);
  }

  /** All the conditions hold. */
  ghost predicate AllHold(conds: seq<Expr>, env: Env) {
    forall i :: 0 <= i < |conds| ==> Holds(conds[i], env)
  }

  lemma {:induction false} AllHoldAppend(conds: seq<Expr>, more: seq<Expr>, env: Env)
    ensures AllHold(conds + more, env) <==> AllHold(conds, env) && AllHold(more, env)
  {
    var all := conds + more;
    if AllHold(all, env) {
      forall i | 0 <= i < |conds| ensures Holds(conds[i], env) { assert Holds(all[i], env); }
      forall i | 0 <= i < |more| ensures Holds(more[i], env) { assert Holds(all[|conds| + i], env); }
    }
  }

  datatype IntConstraints = IntConstraints(variables: seq<nat>, ranges: Ranges, relations: seq<Expr>)

  ghost predicate Satisfies(c: IntConstraints, env: Env) {
    InRanges(c.ranges.Keys, c.ranges, env) && AllHold(c.relations, env)
  }

  datatype IntConstraintsTransform = IntConstraintsTransform(
    src: IntConstraints, dst: IntConstraints, srcToDst: Subst, dstToSrc: Subst)

  /** Every solution of c, carried by the map to the variables of c', solves c', and the way
      back returns every variable of c to its value. */
  ghost predicate CarriesSolutions(c: IntConstraints, c': IntConstraints, there: Subst, back: Subst) {
    forall env: Env :: Satisfies(c, env) ==>
      var env' := Through(there, env);
      Satisfies(c', env') &&
      forall v :: v in c.variables ==> v in back && Eval(back[v], env') == Get(env, v)
  }

  /** The transform is a bijection between the solutions of its two systems. */
  ghost predicate IsBijection(t: IntConstraintsTransform) {
    && CarriesSolutions(t.src, t.dst, t.dstToSrc, t.srcToDst)
    && CarriesSolutions(t.dst, t.src, t.srcToDst, t.dstToSrc)
  }

  /** The variables of vs already have the values that the map gives them. */
  ghost predicate Settled(vs: set<nat>, s: Subst, env: Env) {
    forall v :: v in vs && v in s ==> Get(env, v) == Eval(s[v], env)
  }

  /** Every solution of the source carries over and comes back, and so does every solution of the
      destination that settles the solved variables its source's ranges mention. */
  ghost predicate IsSettledBijection(t: IntConstraintsTransform) {
    && CarriesSolutions(t.src, t.dst, t.dstToSrc, t.srcToDst)
    && forall env: Env :: Satisfies(t.dst, env) && Settled(AllRangeVars(t.src.ranges), t.srcToDst, env) ==>
         var env' := Through(t.srcToDst, env);
         Satisfies(t.src, env') &&
         forall z :: z in t.dst.variables ==> z in t.dstToSrc && Eval(t.dstToSrc[z], env') == Get(env, z)
  }

  /** A solution of the destination returns to one of the source exactly when the source's ranges
      hold there, and then comes back. */
  ghost predicate ReturnsInRange(t: IntConstraintsTransform, env: Env) {
    var env' := Through(t.srcToDst, env);
    (Satisfies(t.src, env') <==> InAll(t.src.ranges, env')) &&
    (InAll(t.src.ranges, env') ==>
       forall z :: z in t.dst.variables ==> z in t.dstToSrc && Eval(t.dstToSrc[z], env') == Get(env, z))
  }

  predicate Below(vs: set<nat>, limit: nat) { forall v :: v in vs ==> v < limit }

  // ----- the simplifier as an oracle -------------------------------------------------------

  type Simplifier = (Ranges, Expr) -> Expr

  /** Simplification under bound ranges keeps the value wherever the variables of the expression,
      and those that their ranges depend on, respect their ranges; it introduces no others. */
  ghost predicate SimplifierSound(simplify: Simplifier) {
    forall rs: Ranges, e: Expr ::
      Reached(FreeVars(simplify(rs, e)), FreeVars(e), rs) &&
      forall env: Env :: InClosure(FreeVars(e), rs, env) ==> Eval(simplify(rs, e), env) == Eval(e, env)
  }

  lemma {:induction false} Simplified(simplify: Simplifier, rs: Ranges, e: Expr, env: Env)
    requires SimplifierSound(simplify) && InClosure(FreeVars(e), rs, env)
    ensures Eval(simplify(rs, e), env) == Eval(e, env)
  {}

  lemma {:induction false} SimplifiedVars(simplify: Simplifier, rs: Ranges, e: Expr)
    requires SimplifierSound(simplify)
    ensures Reached(FreeVars(simplify(rs, e)), FreeVars(e), rs)
    ensures FreeVars(simplify(rs, e)) <= FreeVars(e) + AllRangeVars(rs)
    ensures rs == map[] ==> FreeVars(simplify(rs, e)) <= FreeVars(e)
  {
    ReachedAll(FreeVars(simplify(rs, e)), FreeVars(e), rs);
    if rs == map[] { ReachedNothing(FreeVars(simplify(rs, e)), FreeVars(e)); }
  }

  // ----- the prover as an oracle -----------------------------------------------------------

  /** What is proved holds on such valuations. */
  ghost predicate ProverSound(prove: (Ranges, Expr) -> bool) {
    forall rs: Ranges, e: Expr, env: Env :: prove(rs, e) && InClosure(FreeVars(e), rs, env) ==> Holds(e, env)
  }

  lemma {:induction false} SimplifiedInAll(simplify: Simplifier, rs: Ranges, e: Expr, env: Env)
    requires SimplifierSound(simplify) && InAll(rs, env)
    ensures Eval(simplify(rs, e), env) == Eval(e, env)
  {
    ClosureAll(FreeVars(e), rs, env);
  }

  lemma {:induction false} ProvedInAll(prove: (Ranges, Expr) -> bool, rs: Ranges, e: Expr, env: Env)
    requires ProverSound(prove) && InAll(rs, env) && prove(rs, e)
    ensures Holds(e, env)
  {
    ClosureAll(FreeVars(e), rs, env);
  }
}
