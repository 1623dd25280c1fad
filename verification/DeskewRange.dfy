/** Solved inequalities as a transform to zero-based variables (SolveInequalitiesDeskewRange in
    src/arith/solve_linear_inequality.cc). */
module DeskewRange {
  import opened PrimExprs
  import opened Wrappers
  import opened IntConstraintSystems
  import opened SolveLinearInequality
  import opened BestRange
  import opened InequalityRanges

  /** The transform under construction: both maps, the new variables (last first), their ranges,
      and the next fresh variable. */
  datatype Deskew = Deskew(toDst: Subst, toSrc: Subst, variables: seq<nat>, ranges: Ranges, next: nat)

  /** The ranges the analyzer has bound. */
  function Bound(sys: IntConstraints, d: Deskew): Ranges { sys.ranges + d.ranges }

  /** Variables of the source that are not solved for, or that ranges mention: ranges are not
      substituted, so these still occur in the result. */
  function Outer(sys: IntConstraints, limit: nat): set<nat> { set u: nat | u < limit && Occurs(sys, u) }

  predicate Occurs(sys: IntConstraints, u: nat) { u !in sys.variables || u in AllRangeVars(sys.ranges) }

  /** These variables are in range. */
  ghost predicate KnownInRange(sys: IntConstraints, env: Env) {
    forall u :: u in sys.ranges && Occurs(sys, u) ==> InRange(sys.ranges[u], Get(env, u), env)
  }

  ghost predicate Limits(sys: IntConstraints, limit: nat) {
    && (forall v :: v in sys.variables ==> v < limit)
    && Below(sys.ranges.Keys, limit)
    && Below(AllRangeVars(sys.ranges), limit)
  }

  /** limit is above every variable of the system and of its solved conditions. */
  ghost predicate AboveAll(sys: IntConstraints, bounds: Solved, other: seq<Expr>, limit: nat)
    requires forall i :: 0 <= i < |sys.variables| ==> sys.variables[i] in bounds
  {
    && Limits(sys, limit)
    && Below(VarsOf(AsConditions(sys.variables, bounds, other)), limit)
  }

  // ----- the invariants ----------------------------------------------------------------------

  /** What is mapped after the variables from k on. */
  ghost predicate Mapped(sys: IntConstraints, k: nat, d: Deskew, limit: nat)
    requires k <= |sys.variables|
  {
    && limit <= d.next
    && (forall v :: v in d.toDst <==> v in sys.variables[k..])
    && (forall z :: z in d.toSrc <==> z in d.variables)
    && (forall z :: z in d.ranges ==> z in d.toSrc && limit <= z < d.next)
    && (forall z :: z in d.toSrc ==> z in d.ranges || Kept(sys, d, z))
  }

  /** Which variables occur where. */
  ghost predicate Scoped(sys: IntConstraints, d: Deskew, limit: nat) {
    && (forall z :: z in d.toSrc ==> Below(FreeVars(d.toSrc[z]), limit))
    && (forall v :: v in d.toDst ==> FreeVars(d.toDst[v]) <= d.toSrc.Keys + Outer(sys, limit))
    && (forall z :: z in d.ranges ==> RangeVars(d.ranges[z]) <= d.toSrc.Keys + Outer(sys, limit))
  }

  ghost predicate Shape(sys: IntConstraints, k: nat, d: Deskew, limit: nat)
    requires k <= |sys.variables|
  {
    Mapped(sys, k, d, limit) && Scoped(sys, d, limit)
  }

  /** A variable without a range stands for itself on both sides. */
  ghost predicate Kept(sys: IntConstraints, d: Deskew, z: nat) {
    z in d.toSrc && z in d.toDst && z in sys.variables && z !in sys.ranges &&
    d.toSrc[z] == Var(z) && d.toDst[z] == Var(z)
  }

  /** A source solution carried over respects all ranges, and comes back. */
  ghost predicate CarriesOver(sys: IntConstraints, d: Deskew, env: Env) {
    var env' := Through(d.toSrc, env);
    InAll(Bound(sys, d), env') && forall v :: v in d.toDst ==> Eval(d.toDst[v], env') == Get(env, v)
  }

  /** env is what env' maps to, on the outer variables and the variables solved so far. */
  ghost predicate MapsTo(sys: IntConstraints, d: Deskew, limit: nat, env': Env, env: Env) {
    && Agree(Outer(sys, limit), env, env')
    && (forall v :: v in d.toDst ==> Get(env, v) == Eval(d.toDst[v], env'))
    && InAll(sys.ranges, env)
  }

  /** The way back recovers the new variables. */
  ghost predicate Recovers(sys: IntConstraints, d: Deskew, limit: nat) {
    forall env': Env, env: Env, z :: MapsTo(sys, d, limit, env', env) && z in d.toSrc ==>
      Eval(d.toSrc[z], env) == Get(env', z)
  }

  ghost predicate Invariant(sys: IntConstraints, k: nat, d: Deskew, limit: nat)
    requires k <= |sys.variables|
  {
    && Shape(sys, k, d, limit)
    && (forall env: Env :: Satisfies(sys, env) ==> CarriesOver(sys, d, env))
    && Recovers(sys, d, limit)
  }

  // ----- substituted bounds ------------------------------------------------------------------

  function SubstituteBounds(b: GroupBounds, s: Subst): GroupBounds {
    GroupBounds(b.coef, ApplyAll(b.lower, s), ApplyAll(b.equal, s), ApplyAll(b.upper, s))
  }

  /** Below the limit, the carried valuation is the source's. */
  lemma {:induction false} CarriedKeeps(sys: IntConstraints, k: nat, d: Deskew, limit: nat, env: Env, u: nat)
    requires k <= |sys.variables| && Shape(sys, k, d, limit) && u < limit
    ensures Get(Through(d.toSrc, env), u) == Get(env, u)
  {
    if u in d.toSrc {
      assert Kept(sys, d, u);
      assert Eval(Var(u), env) == Get(env, u);
    }
  }

  /** Going there and back gives the source's value of whatever the mapped variables determine. */
  lemma {:induction false} ThereAndBack(sys: IntConstraints, k: nat, d: Deskew, limit: nat, env: Env, e: Expr)
    requires k <= |sys.variables| && Shape(sys, k, d, limit) && CarriesOver(sys, d, env)
    requires Below(FreeVars(e), limit)
    ensures Eval(Substitute(e, d.toDst), Through(d.toSrc, env)) == Eval(e, env)
  {
    var env' := Through(d.toSrc, env);
    SubstituteEval(e, d.toDst, env');
    forall u | u in FreeVars(e) ensures Get(Through(d.toDst, env'), u) == Get(env, u) {
      if u !in d.toDst { CarriedKeeps(sys, k, d, limit, env, u); }
    }
    EvalAgree(e, Through(d.toDst, env'), env);
  }

  lemma {:induction false} SubstitutedBoundsHold(sys: IntConstraints, k: nat, d: Deskew, limit: nat, env: Env,
      b: GroupBounds, x: int)
    requires k <= |sys.variables| && Shape(sys, k, d, limit) && CarriesOver(sys, d, env)
    requires Below(BoundsVars(b), limit) && BoundsHold(b, x, env)
    ensures BoundsHold(SubstituteBounds(b, d.toDst), x, Through(d.toSrc, env))
  {
    forall e | e in b.equal || e in b.lower || e in b.upper
      ensures Eval(Substitute(e, d.toDst), Through(d.toSrc, env)) == Eval(e, env)
    {
      assert FreeVars(e) <= BoundsVars(b);
      ThereAndBack(sys, k, d, limit, env, e);
    }
    var s := SubstituteBounds(b, d.toDst);
    assert forall i :: 0 <= i < |b.equal| ==> s.equal[i] == Substitute(b.equal[i], d.toDst) && b.equal[i] in b.equal;
    assert forall i :: 0 <= i < |b.lower| ==> s.lower[i] == Substitute(b.lower[i], d.toDst) && b.lower[i] in b.lower;
    assert forall i :: 0 <= i < |b.upper| ==> s.upper[i] == Substitute(b.upper[i], d.toDst) && b.upper[i] in b.upper;
  }

  /** The variables of a range do not change between the two valuations. */
  lemma {:induction false} OuterRangeHolds(sys: IntConstraints, k: nat, d: Deskew, limit: nat, env: Env, r: Range,
      x: int)
    requires k <= |sys.variables| && Shape(sys, k, d, limit) && Below(RangeVars(r), limit)
    ensures InRange(r, x, Through(d.toSrc, env)) <==> InRange(r, x, env)
  {
    var env' := Through(d.toSrc, env);
    forall u | u in RangeVars(r) ensures Get(env', u) == Get(env, u) { CarriedKeeps(sys, k, d, limit, env, u); }
    EvalAgree(r.min, env', env);
    EvalAgree(r.extent, env', env);
  }

  // ----- one variable ------------------------------------------------------------------------

  /** Valuations equal below the next fresh variable look the same. */
  lemma {:induction false} LookTheSame(sys: IntConstraints, k: nat, d: Deskew, limit: nat, env1: Env, env2: Env)
    requires k <= |sys.variables| && Shape(sys, k, d, limit)
    requires Limits(sys, limit)
    requires forall u: nat :: u < d.next ==> Get(env1, u) == Get(env2, u)
    requires InAll(Bound(sys, d), env1)
    ensures InAll(Bound(sys, d), env2)
    ensures forall v :: v in d.toDst ==> Eval(d.toDst[v], env1) == Eval(d.toDst[v], env2)
  {
    var rs := Bound(sys, d);
    forall z | z in rs ensures InRange(rs[z], Get(env2, z), env2) {
      assert InRange(rs[z], Get(env1, z), env1);
      assert z < d.next && Below(RangeVars(rs[z]), d.next) by {
        if z in d.ranges {
          TargetsBelow(sys, k, d, limit, RangeVars(d.ranges[z]));
        } else {
          assert RangeVars(rs[z]) <= AllRangeVars(sys.ranges);
        }
      }
      EvalAgree(rs[z].min, env1, env2);
      EvalAgree(rs[z].extent, env1, env2);
    }
    forall v | v in d.toDst ensures Eval(d.toDst[v], env1) == Eval(d.toDst[v], env2) {
      TargetsBelow(sys, k, d, limit, FreeVars(d.toDst[v]));
      EvalAgree(d.toDst[v], env1, env2);
    }
  }

  lemma {:induction false} TargetsBelow(sys: IntConstraints, k: nat, d: Deskew, limit: nat, vs: set<nat>)
    requires k <= |sys.variables| && Shape(sys, k, d, limit) && vs <= d.toSrc.Keys + Outer(sys, limit)
    requires Limits(sys, limit)
    ensures Below(vs, d.next)
  {
    forall u | u in vs ensures u < d.next {
      if u in d.toSrc && u !in d.ranges { assert Kept(sys, d, u); }
    }
  }

  /** v is replaced by an expression over the new variables. */
  function Replace(d: Deskew, v: nat, e: Expr): Deskew { d.(toDst := d.toDst[v := e]) }

  lemma {:induction false} ReplaceKeeps(sys: IntConstraints, k: nat, d: Deskew, limit: nat, e: Expr)
    requires NoRepeats(sys.variables) && Limits(sys, limit) && k < |sys.variables| && Invariant(sys, k + 1, d, limit)
    requires FreeVars(e) <= d.toSrc.Keys + Outer(sys, limit)
    requires forall env: Env :: Satisfies(sys, env) ==> Eval(e, Through(d.toSrc, env)) == Get(env, sys.variables[k])
    ensures Invariant(sys, k, Replace(d, sys.variables[k], e), limit)
  {
    var v := sys.variables[k];
    var d' := Replace(d, v, e);
    NotMapped(sys, k, d, limit);
    ReplaceMapped(sys, k, d, limit, e);
    forall env: Env | Satisfies(sys, env) ensures CarriesOver(sys, d', env) {
      assert CarriesOver(sys, d, env);
    }
    forall env': Env, env: Env, z | MapsTo(sys, d', limit, env', env) && z in d'.toSrc
      ensures Eval(d'.toSrc[z], env) == Get(env', z)
    {
      LessMapped(sys, d, d', limit, env', env);
    }
  }

  lemma {:induction false} ReplaceMapped(sys: IntConstraints, k: nat, d: Deskew, limit: nat, e: Expr)
    requires k < |sys.variables| && Mapped(sys, k + 1, d, limit) && sys.variables[k] !in d.toDst
    ensures Mapped(sys, k, Replace(d, sys.variables[k], e), limit)
  {
    var v := sys.variables[k];
    var d' := Replace(d, v, e);
    assert sys.variables[k..] == [v] + sys.variables[k + 1..];
    forall z | z in d'.toSrc ensures z in d'.ranges || Kept(sys, d', z) {
      if z !in d.ranges { assert Kept(sys, d, z); }
    }
  }

  lemma {:induction false} LessMapped(sys: IntConstraints, d: Deskew, d': Deskew, limit: nat, env': Env, env: Env)
    requires MapsTo(sys, d', limit, env', env)
    requires forall v :: v in d.toDst ==> v in d'.toDst && d'.toDst[v] == d.toDst[v]
    ensures MapsTo(sys, d, limit, env', env)
  {}

  /** v stays a variable of the result. */
  function Keep(d: Deskew, v: nat): Deskew {
    d.(toDst := d.toDst[v := Var(v)], toSrc := d.toSrc[v := Var(v)], variables := d.variables + [v])
  }

  lemma {:induction false} KeepKeeps(sys: IntConstraints, k: nat, d: Deskew, limit: nat)
    requires NoRepeats(sys.variables) && Limits(sys, limit) && k < |sys.variables| && Invariant(sys, k + 1, d, limit)
    requires sys.variables[k] !in sys.ranges
    ensures Invariant(sys, k, Keep(d, sys.variables[k]), limit)
  {
    var v := sys.variables[k];
    var d' := Keep(d, v);
    NotMapped(sys, k, d, limit);
    KeepMapped(sys, k, d, limit);
    KeepScoped(sys, d, limit, v);
    forall env: Env | Satisfies(sys, env) ensures CarriesOver(sys, d', env) {
      KeepCarries(sys, k, d, limit, env);
    }
    KeepRecovers(sys, d, limit, v);
  }

  lemma {:induction false} KeepCarries(sys: IntConstraints, k: nat, d: Deskew, limit: nat, env: Env)
    requires Limits(sys, limit) && k < |sys.variables| && Shape(sys, k + 1, d, limit) && CarriesOver(sys, d, env)
    requires sys.variables[k] !in d.toSrc
    ensures CarriesOver(sys, Keep(d, sys.variables[k]), env)
  {
    var v := sys.variables[k];
    SameValues(d.toSrc, v, env);
    LookTheSame(sys, k + 1, d, limit, Through(d.toSrc, env), Through(Keep(d, v).toSrc, env));
  }

  lemma {:induction false} SameValues(s: Subst, v: nat, env: Env)
    requires v !in s
    ensures forall u: nat :: Get(Through(s[v := Var(v)], env), u) == Get(Through(s, env), u)
    ensures Eval(Var(v), Through(s[v := Var(v)], env)) == Get(env, v)
  {
    assert Eval(Var(v), env) == Get(env, v);
  }

  lemma {:induction false} KeepRecovers(sys: IntConstraints, d: Deskew, limit: nat, v: nat)
    requires Recovers(sys, d, limit) && v !in d.toDst
    ensures Recovers(sys, Keep(d, v), limit)
  {
    var d' := Keep(d, v);
    forall env': Env, env: Env, z | MapsTo(sys, d', limit, env', env) && z in d'.toSrc
      ensures Eval(d'.toSrc[z], env) == Get(env', z)
    {
      LessMapped(sys, d, d', limit, env', env);
      assert v in d'.toDst && d'.toDst[v] == Var(v);
      assert Get(env, v) == Eval(Var(v), env') && Eval(Var(v), env) == Get(env, v);
    }
  }

  lemma {:induction false} NotMapped(sys: IntConstraints, k: nat, d: Deskew, limit: nat)
    requires NoRepeats(sys.variables) && Limits(sys, limit) && k < |sys.variables| && Shape(sys, k + 1, d, limit)
    ensures sys.variables[k] !in d.toDst && sys.variables[k] !in d.toSrc && sys.variables[k] !in d.ranges
  {
    var v := sys.variables[k];
    assert v in sys.variables && v !in sys.variables[k + 1..];
    assert !Kept(sys, d, v);
  }

  lemma {:induction false} KeepMapped(sys: IntConstraints, k: nat, d: Deskew, limit: nat)
    requires k < |sys.variables| && Mapped(sys, k + 1, d, limit)
    requires sys.variables[k] !in sys.ranges && sys.variables[k] !in d.toSrc
    ensures Mapped(sys, k, Keep(d, sys.variables[k]), limit)
  {
    var v := sys.variables[k];
    var d' := Keep(d, v);
    assert sys.variables[k..] == [v] + sys.variables[k + 1..];
    forall z | z in d'.toSrc ensures z in d'.ranges || Kept(sys, d', z) {
      if z != v && z !in d.ranges { assert Kept(sys, d, z); }
    }
  }

  lemma {:induction false} KeepScoped(sys: IntConstraints, d: Deskew, limit: nat, v: nat)
    requires Scoped(sys, d, limit) && v < limit
    ensures Scoped(sys, Keep(d, v), limit)
  {
    assert FreeVars(Var(v)) == {v};
  }

  /** v is a new zero-based variable plus the lower end of its range. */
  function Shift(simplify: Simplifier, sys: IntConstraints, d: Deskew, v: nat, r: Range): Deskew {
    var z := d.next;
    Deskew(
      d.toDst[v := Bin(Add, Var(z), r.min)],
      d.toSrc[z := simplify(Bound(sys, d), Offset(d, v, r))],
      d.variables + [z],
      d.ranges[z := Range(IntImm(0), r.extent)],
      z + 1)
  }

  function Offset(d: Deskew, v: nat, r: Range): Expr { Bin(Sub, Var(v), Substitute(r.min, d.toSrc)) }

  /** The range speaks of the new variables and outer ones only. */
  ghost predicate RangeScoped(sys: IntConstraints, d: Deskew, limit: nat, r: Range) {
    RangeVars(r) <= d.toSrc.Keys + Outer(sys, limit) && Below(RangeVars(r), d.next)
  }

  lemma {:induction false} OffsetVars(sys: IntConstraints, d: Deskew, limit: nat, v: nat, r: Range)
    requires Scoped(sys, d, limit) && RangeScoped(sys, d, limit, r) && v < limit
    ensures Below(FreeVars(Offset(d, v, r)), limit)
  {
    var below := (set z, u | z in d.toSrc && u in FreeVars(d.toSrc[z]) :: u) + Outer(sys, limit);
    forall u | u in FreeVars(r.min) ensures if u in d.toSrc then FreeVars(d.toSrc[u]) <= below else u in below {
      if u !in d.toSrc { assert u in Outer(sys, limit); }
    }
    SubstituteVars(r.min, d.toSrc, below);
    assert FreeVars(Var(v)) == {v};
  }

  /** Source variables depend on the ranges of source variables only. */
  lemma {:induction false} SourceClosure(sys: IntConstraints, k: nat, d: Deskew, limit: nat, vs: set<nat>, env: Env)
    requires Limits(sys, limit) && k <= |sys.variables| && Mapped(sys, k, d, limit)
    requires Below(vs, limit) && InAll(sys.ranges, env)
    ensures InClosure(vs, Bound(sys, d), env)
  {
    var rs, c := Bound(sys, d), vs + AllRangeVars(sys.ranges);
    forall v | v in c && v in rs ensures RangeVars(rs[v]) <= c && InRange(rs[v], Get(env, v), env) {
      assert v < limit && v !in d.ranges && v in sys.ranges && rs[v] == sys.ranges[v];
    }
    assert vs <= c && Closed(c, rs) && InRanges(c, rs, env);
  }

  /** So simplifying an expression over source variables gives another one. */
  lemma {:induction false} SourceReached(simplify: Simplifier, sys: IntConstraints, k: nat, d: Deskew, limit: nat,
      e: Expr)
    requires SimplifierSound(simplify) && Limits(sys, limit) && k <= |sys.variables| && Mapped(sys, k, d, limit)
    requires Below(FreeVars(e), limit)
    ensures Below(FreeVars(simplify(Bound(sys, d), e)), limit)
  {
    var rs, c := Bound(sys, d), FreeVars(e) + AllRangeVars(sys.ranges);
    forall v | v in c && v in rs ensures RangeVars(rs[v]) <= c {
      assert v < limit && v !in d.ranges && v in sys.ranges && rs[v] == sys.ranges[v];
    }
    SimplifiedVars(simplify, rs, e);
    assert FreeVars(e) <= c && Closed(c, rs);
  }

  /** Where the source's ranges hold, the new variable's expression is the offset of v. */
  lemma {:induction false} OffsetValue(simplify: Simplifier, sys: IntConstraints, k: nat, d: Deskew, limit: nat, v: nat,
      r: Range, env: Env)
    requires SimplifierSound(simplify) && Limits(sys, limit) && k <= |sys.variables| && Shape(sys, k, d, limit)
    requires RangeScoped(sys, d, limit, r) && v < limit && InAll(sys.ranges, env)
    ensures Below(FreeVars(simplify(Bound(sys, d), Offset(d, v, r))), limit)
    ensures Eval(simplify(Bound(sys, d), Offset(d, v, r)), env) == Get(env, v) - Eval(r.min, Through(d.toSrc, env))
  {
    var e := Offset(d, v, r);
    OffsetVars(sys, d, limit, v, r);
    SourceClosure(sys, k, d, limit, FreeVars(e), env);
    SourceReached(simplify, sys, k, d, limit, e);
    Simplified(simplify, Bound(sys, d), e, env);
    SubstituteEval(r.min, d.toSrc, env);
    assert Eval(Var(v), env) == Get(env, v);
  }

  lemma {:induction false} ShiftMapped(simplify: Simplifier, sys: IntConstraints, k: nat, d: Deskew, limit: nat,
      r: Range)
    requires k < |sys.variables| && Mapped(sys, k + 1, d, limit) && sys.variables[k] !in d.toDst
    ensures Mapped(sys, k, Shift(simplify, sys, d, sys.variables[k], r), limit)
  {
    var v := sys.variables[k];
    var d' := Shift(simplify, sys, d, v, r);
    assert sys.variables[k..] == [v] + sys.variables[k + 1..];
    forall x | x in d'.toSrc ensures x in d'.ranges || Kept(sys, d', x) {
      if x != d.next && x !in d.ranges { assert Kept(sys, d, x); }
    }
  }

  lemma {:induction false} ShiftScoped(simplify: Simplifier, sys: IntConstraints, k: nat, d: Deskew, limit: nat, v: nat,
      r: Range)
    requires SimplifierSound(simplify) && Limits(sys, limit) && k <= |sys.variables| && Shape(sys, k, d, limit)
    requires RangeScoped(sys, d, limit, r) && v < limit
    ensures Scoped(sys, Shift(simplify, sys, d, v, r), limit)
  {
    var d' := Shift(simplify, sys, d, v, r);
    var z := d.next;
    OffsetVars(sys, d, limit, v, r);
    SourceReached(simplify, sys, k, d, limit, Offset(d, v, r));
    assert d'.toSrc[z] == simplify(Bound(sys, d), Offset(d, v, r));
    ShiftedVars(z, r);
    assert d'.toSrc.Keys == d.toSrc.Keys + {z};
  }

  lemma {:induction false} ShiftedVars(z: nat, r: Range)
    ensures FreeVars(Bin(Add, Var(z), r.min)) == {z} + FreeVars(r.min)
    ensures RangeVars(Range(IntImm(0), r.extent)) == FreeVars(r.extent)
  {
    assert FreeVars(Var(z)) == {z} && FreeVars(IntImm(0)) == {};
  }

  lemma {:induction false} ShiftCarries(simplify: Simplifier, sys: IntConstraints, k: nat, d: Deskew, limit: nat,
      r: Range, env: Env)
    requires SimplifierSound(simplify) && Limits(sys, limit) && k < |sys.variables| && Shape(sys, k + 1, d, limit)
    requires RangeScoped(sys, d, limit, r) && CarriesOver(sys, d, env) && InAll(sys.ranges, env)
    requires InRange(r, Get(env, sys.variables[k]), Through(d.toSrc, env))
    ensures CarriesOver(sys, Shift(simplify, sys, d, sys.variables[k], r), env)
  {
    var v, z := sys.variables[k], d.next;
    var d' := Shift(simplify, sys, d, v, r);
    var env1, env2 := Through(d.toSrc, env), Through(d'.toSrc, env);
    assert v in sys.variables;
    OffsetValue(simplify, sys, k + 1, d, limit, v, r, env);
    ShiftValues(d.toSrc, z, d'.toSrc[z], env);
    LookTheSame(sys, k + 1, d, limit, env1, env2);
    ShiftedRange(sys, d, d', v, r, env1, env2, Get(env, v));
  }

  lemma {:induction false} ShiftValues(s: Subst, z: nat, e: Expr, env: Env)
    ensures forall u: nat :: u < z ==> Get(Through(s, env), u) == Get(Through(s[z := e], env), u)
    ensures Get(Through(s[z := e], env), z) == Eval(e, env)
  {}

  lemma {:induction false} ShiftedRange(sys: IntConstraints, d: Deskew, d': Deskew, v: nat, r: Range, env1: Env,
      env2: Env, x: int)
    requires d'.ranges == d.ranges[d.next := Range(IntImm(0), r.extent)]
    requires d'.toDst == d.toDst[v := Bin(Add, Var(d.next), r.min)]
    requires Below(FreeVars(r.min) + FreeVars(r.extent), d.next)
    requires forall u: nat :: u < d.next ==> Get(env1, u) == Get(env2, u)
    requires InRange(r, x, env1) && Get(env2, d.next) == x - Eval(r.min, env1)
    requires InAll(Bound(sys, d), env2)
    ensures InAll(Bound(sys, d'), env2) && Eval(d'.toDst[v], env2) == x
  {
    EvalAgree(r.min, env1, env2);
    EvalAgree(r.extent, env1, env2);
    ShiftInRange(sys, d, d', d.next, r.extent, env2);
    assert Eval(Var(d.next), env2) == Get(env2, d.next);
  }

  lemma {:induction false} ShiftInRange(sys: IntConstraints, d: Deskew, d': Deskew, z: nat, extent: Expr, env: Env)
    requires d'.ranges == d.ranges[z := Range(IntImm(0), extent)]
    requires InAll(Bound(sys, d), env) && 0 <= Get(env, z) < Eval(extent, env)
    ensures InAll(Bound(sys, d'), env)
  {
    assert Eval(IntImm(0), env) == 0;
    var rs, rs' := Bound(sys, d), Bound(sys, d');
    forall u | u in rs' ensures InRange(rs'[u], Get(env, u), env) {
      if u != z { assert u in rs && rs[u] == rs'[u]; }
    }
  }

  lemma {:induction false} ShiftRecovers(simplify: Simplifier, sys: IntConstraints, k: nat, d: Deskew, limit: nat,
      r: Range)
    requires SimplifierSound(simplify) && k < |sys.variables| && Shape(sys, k + 1, d, limit) && Limits(sys, limit)
    requires RangeScoped(sys, d, limit, r) && Recovers(sys, d, limit) && sys.variables[k] !in d.toDst
    ensures Recovers(sys, Shift(simplify, sys, d, sys.variables[k], r), limit)
  {
    var v, z := sys.variables[k], d.next;
    var d' := Shift(simplify, sys, d, v, r);
    forall env': Env, env: Env, x | MapsTo(sys, d', limit, env', env) && x in d'.toSrc
      ensures Eval(d'.toSrc[x], env) == Get(env', x)
    {
      LessMapped(sys, d, d', limit, env', env);
      if x == z { ShiftRecovered(simplify, sys, k, d, limit, r, env', env); }
    }
  }

  lemma {:induction false} ShiftRecovered(simplify: Simplifier, sys: IntConstraints, k: nat, d: Deskew, limit: nat,
      r: Range, env': Env, env: Env)
    requires SimplifierSound(simplify) && k < |sys.variables| && Shape(sys, k + 1, d, limit) && Limits(sys, limit)
    requires RangeScoped(sys, d, limit, r) && Recovers(sys, d, limit)
    requires MapsTo(sys, d, limit, env', env)
    requires Get(env, sys.variables[k]) == Eval(Bin(Add, Var(d.next), r.min), env')
    ensures Eval(simplify(Bound(sys, d), Offset(d, sys.variables[k], r)), env) == Get(env', d.next)
  {
    var v := sys.variables[k];
    assert v in sys.variables;
    OffsetValue(simplify, sys, k + 1, d, limit, v, r, env);
    var back := Through(d.toSrc, env);
    forall u | u in FreeVars(r.min) ensures Get(back, u) == Get(env', u) {
      if u !in d.toSrc { assert u in Outer(sys, limit); }
    }
    EvalAgree(r.min, back, env');
    assert Eval(Var(d.next), env') == Get(env', d.next);
  }

  lemma {:induction false} ShiftKeeps(simplify: Simplifier, sys: IntConstraints, k: nat, d: Deskew, limit: nat,
      r: Range)
    requires NoRepeats(sys.variables) && Limits(sys, limit) && SimplifierSound(simplify)
    requires k < |sys.variables| && Invariant(sys, k + 1, d, limit) && RangeScoped(sys, d, limit, r)
    requires forall env: Env :: Satisfies(sys, env) ==> InRange(r, Get(env, sys.variables[k]), Through(d.toSrc, env))
    ensures Invariant(sys, k, Shift(simplify, sys, d, sys.variables[k], r), limit)
  {
    assert sys.variables[k] in sys.variables;
    NotMapped(sys, k, d, limit);
    ShiftMapped(simplify, sys, k, d, limit, r);
    ShiftScoped(simplify, sys, k + 1, d, limit, sys.variables[k], r);
    forall env: Env | Satisfies(sys, env) ensures CarriesOver(sys, Shift(simplify, sys, d, sys.variables[k], r), env) {
      ShiftCarries(simplify, sys, k, d, limit, r, env);
    }
    ShiftRecovers(simplify, sys, k, d, limit, r);
  }

  // ----- the bounds of one variable in terms of the new ones ---------------------------------

  ghost function Targets(sys: IntConstraints, d: Deskew, limit: nat): set<nat> { d.toSrc.Keys + Outer(sys, limit) }

  function NewBounds(simplify: Simplifier, sys: IntConstraints, d: Deskew, b: GroupBounds, v: nat): GroupBounds {
    WithOwnRange(simplify, SubstituteBounds(b, d.toDst), v, Bound(sys, d))
  }

  lemma {:induction false} SubstitutedVars(sys: IntConstraints, k: nat, d: Deskew, limit: nat, e: Expr)
    requires k <= |sys.variables| && Shape(sys, k, d, limit) && Below(FreeVars(e), limit)
    requires forall u :: u in sys.variables[..k] && u in FreeVars(e) ==> u in AllRangeVars(sys.ranges)
    ensures FreeVars(Substitute(e, d.toDst)) <= Targets(sys, d, limit)
  {
    forall u | u in FreeVars(e)
      ensures if u in d.toDst then FreeVars(d.toDst[u]) <= Targets(sys, d, limit) else u in Targets(sys, d, limit)
    {
      if u !in d.toDst {
        assert sys.variables == sys.variables[..k] + sys.variables[k..];
        assert u in Outer(sys, limit);
      }
    }
    SubstituteVars(e, d.toDst, Targets(sys, d, limit));
  }

  lemma {:induction false} SubstitutedBoundsVars(sys: IntConstraints, k: nat, d: Deskew, limit: nat, b: GroupBounds)
    requires k <= |sys.variables| && Shape(sys, k, d, limit) && Below(BoundsVars(b), limit)
    requires BoundsAvoid(b, Unmentioned(sys.variables[..k], sys.ranges))
    ensures BoundsVars(SubstituteBounds(b, d.toDst)) <= Targets(sys, d, limit)
  {
    forall e | e in b.equal || e in b.lower || e in b.upper
      ensures FreeVars(Substitute(e, d.toDst)) <= Targets(sys, d, limit)
    {
      assert FreeVars(e) <= BoundsVars(b);
      SubstitutedVars(sys, k, d, limit, e);
    }
    SubstitutedListVars(b.equal, d.toDst, Targets(sys, d, limit));
    SubstitutedListVars(b.lower, d.toDst, Targets(sys, d, limit));
    SubstitutedListVars(b.upper, d.toDst, Targets(sys, d, limit));
  }

  lemma {:induction false} SubstitutedListVars(es: seq<Expr>, s: Subst, allowed: set<nat>)
    requires forall e :: e in es ==> FreeVars(Substitute(e, s)) <= allowed
    ensures VarsOf(ApplyAll(es, s)) <= allowed
  {
    forall i | 0 <= i < |es| ensures FreeVars(ApplyAll(es, s)[i]) <= allowed {
      assert es[i] in es;
    }
  }

  lemma {:induction false} WithRangeVars(simplify: Simplifier, b: GroupBounds, r: Range)
    requires SimplifierSound(simplify)
    ensures BoundsVars(WithRange(simplify, b, r)) <= BoundsVars(b) + RangeVars(r)
  {
    var lo, hi := ScaledLow(simplify, b.coef, r), ScaledHigh(simplify, b.coef, r);
    ScaledVars(simplify, b.coef, r);
    PrependVars(lo, b.equal);
    PrependVars(lo, b.lower);
    PrependVars(hi, b.upper);
  }

  lemma {:induction false} PrependVars(e: Expr, es: seq<Expr>)
    ensures VarsOf([e] + es) <= FreeVars(e) + VarsOf(es)
  {}

  lemma {:induction false} ScaledVars(simplify: Simplifier, c: int, r: Range)
    requires SimplifierSound(simplify)
    ensures FreeVars(ScaledLow(simplify, c, r)) <= RangeVars(r) && FreeVars(ScaledHigh(simplify, c, r)) <= RangeVars(r)
  {
    var lo := Bin(Mul, r.min, IntImm(c));
    var last := Bin(Sub, Bin(Add, r.min, r.extent), IntImm(1));
    assert FreeVars(IntImm(c)) == {} && FreeVars(IntImm(1)) == {};
    assert FreeVars(Bin(Add, r.min, r.extent)) == RangeVars(r);
    assert FreeVars(last) == RangeVars(r);
    SimplifiedVars(simplify, map[], lo);
    SimplifiedVars(simplify, map[], Bin(Mul, last, IntImm(c)));
  }

  lemma {:induction false} NewBoundsVars(simplify: Simplifier, sys: IntConstraints, k: nat, d: Deskew, limit: nat,
      b: GroupBounds)
    requires SimplifierSound(simplify) && NoRepeats(sys.variables) && Limits(sys, limit)
    requires k < |sys.variables| && Shape(sys, k + 1, d, limit) && Below(BoundsVars(b), limit)
    requires BoundsAvoid(b, Unmentioned(sys.variables[..k + 1], sys.ranges))
    ensures BoundsVars(NewBounds(simplify, sys, d, b, sys.variables[k])) <= Targets(sys, d, limit)
  {
    var v := sys.variables[k];
    SubstitutedBoundsVars(sys, k + 1, d, limit, b);
    NotMapped(sys, k, d, limit);
    if v in sys.ranges {
      WithRangeVars(simplify, SubstituteBounds(b, d.toDst), sys.ranges[v]);
      OuterRange(sys, limit, v);
    }
  }

  lemma {:induction false} OuterRange(sys: IntConstraints, limit: nat, v: nat)
    requires NoRepeats(sys.variables) && Limits(sys, limit) && v in sys.ranges
    ensures RangeVars(sys.ranges[v]) <= Outer(sys, limit)
  {
    forall u | u in RangeVars(sys.ranges[v]) ensures u in Outer(sys, limit) {
      assert u in AllRangeVars(sys.ranges);
    }
  }

  /** A carried solution is within the new bounds. */
  lemma {:induction false} NewBoundsHold(simplify: Simplifier, sys: IntConstraints, k: nat, d: Deskew, limit: nat,
      b: GroupBounds, env: Env)
    requires SimplifierSound(simplify) && NoRepeats(sys.variables) && Limits(sys, limit) && b.coef > 0
    requires k < |sys.variables| && Shape(sys, k + 1, d, limit) && Below(BoundsVars(b), limit)
    requires CarriesOver(sys, d, env) && InAll(sys.ranges, env) && BoundsHold(b, Get(env, sys.variables[k]), env)
    ensures BoundsHold(NewBounds(simplify, sys, d, b, sys.variables[k]), Get(env, sys.variables[k]),
              Through(d.toSrc, env))
    ensures BoundsHold(SubstituteBounds(b, d.toDst), Get(env, sys.variables[k]), Through(d.toSrc, env))
  {
    var v := sys.variables[k];
    SubstitutedBoundsHold(sys, k + 1, d, limit, env, b, Get(env, v));
    NotMapped(sys, k, d, limit);
    if v in sys.ranges {
      OuterRange(sys, limit, v);
      OuterRangeHolds(sys, k + 1, d, limit, env, sys.ranges[v], Get(env, v));
      WithRangeExact(simplify, SubstituteBounds(b, d.toDst), sys.ranges[v], Get(env, v), Through(d.toSrc, env));
    }
  }

  lemma {:induction false} BoundRangeVars(sys: IntConstraints, k: nat, d: Deskew, limit: nat)
    requires NoRepeats(sys.variables) && Limits(sys, limit) && k <= |sys.variables| && Shape(sys, k, d, limit)
    ensures AllRangeVars(Bound(sys, d)) <= Targets(sys, d, limit)
  {
    var rs := Bound(sys, d);
    forall u | u in AllRangeVars(rs) ensures u in Targets(sys, d, limit) {
      var z :| z in rs && u in RangeVars(rs[z]);
      if z in d.ranges { assert rs[z] == d.ranges[z]; } else { OuterRange(sys, limit, z); }
    }
  }

  // ----- the transform -----------------------------------------------------------------------

  /** Where the variables that occur on both sides are in range, a destination solution returns to a
      source solution exactly if its image is in range, which for ordered ranges it is. And if it
      settles the solved variables that ranges mention it returns nowhere else, and then back to
      itself. */
  ghost predicate Returns(t: IntConstraintsTransform, env': Env) {
    var env := Through(t.srcToDst, env');
    && (KnownInRange(t.src, env') ==> (Satisfies(t.src, env) <==> InAll(t.src.ranges, env)))
    && (KnownInRange(t.src, env') && OrderedRanges(t.src.ranges, t.src.variables) ==> Satisfies(t.src, env))
    && (Settled(AllRangeVars(t.src.ranges), t.srcToDst, env') && Satisfies(t.src, env) ==>
          KnownInRange(t.src, env') &&
          forall z :: z in t.dst.variables ==> z in t.dstToSrc && Eval(t.dstToSrc[z], env) == Get(env', z))
  }

  /** Deskewing as a transform. The destination has no range for outer variables, so it maps into
      the source only where those are in range. Solved variables that ranges mention are left in
      the destination. */
  ghost predicate DeskewBijection(t: IntConstraintsTransform) {
    && CarriesSolutions(t.src, t.dst, t.dstToSrc, t.srcToDst)
    && forall env': Env :: Satisfies(t.dst, env') ==> Returns(t, env')
  }

  /** For ordered ranges a destination solution that settles the solved variables which ranges mention
      returns exactly where these and the outer variables are in range. */
  lemma {:induction false} OrderedReturns(t: IntConstraintsTransform, env': Env)
    requires DeskewBijection(t) && Satisfies(t.dst, env') && OrderedRanges(t.src.ranges, t.src.variables)
    requires Settled(AllRangeVars(t.src.ranges), t.srcToDst, env')
    ensures Satisfies(t.src, Through(t.srcToDst, env')) <==> KnownInRange(t.src, env')
  {
    assert Returns(t, env');
  }

  /** If ranges mention no variable that is solved for, every destination solution returns exactly
      where the outer variables are in range. */
  lemma {:induction false} ApartReturns(t: IntConstraintsTransform, env': Env)
    requires DeskewBijection(t) && (forall v :: v in t.srcToDst ==> v in t.src.variables)
    requires forall v :: v in t.src.variables ==> v !in AllRangeVars(t.src.ranges)
    requires Satisfies(t.dst, env')
    ensures Satisfies(t.src, Through(t.srcToDst, env')) <==> OthersInRange(t.src.variables, t.src.ranges, env')
  {
    assert forall u :: u in t.src.ranges ==> RangeVars(t.src.ranges[u]) <= AllRangeVars(t.src.ranges);
    assert OrderedRanges(t.src.ranges, t.src.variables);
    OrderedReturns(t, env');
  }

  /** What is known of the solved system throughout. */
  ghost predicate Context(sys: IntConstraints, bounds: Solved, other: seq<Expr>, limit: nat) {
    && NoRepeats(sys.variables) && SameInRange(sys, bounds, other)
    && (OrderedRanges(sys.ranges, sys.variables) ==> Lossless(sys, bounds, other))
    && Confined(sys.variables, |sys.variables|, bounds, sys.ranges) && AboveAll(sys, bounds, other, limit)
  }

  lemma {:induction false} BoundsInConditions(variables: seq<nat>, bounds: Solved, other: seq<Expr>, j: nat,
      b: GroupBounds)
    requires forall i :: 0 <= i < |variables| ==> variables[i] in bounds
    requires j < |variables| && b == bounds[variables[j]]
    ensures BoundsVars(b) <= VarsOf(AsConditions(variables, bounds, other))
  {
    FirstConditions(variables, bounds, other);
    if j == 0 {
      BoundConditionVars(variables[0], b);
    } else {
      BoundsInConditions(variables[1..], bounds, other, j - 1, b);
    }
  }

  lemma {:induction false} FirstConditions(variables: seq<nat>, bounds: Solved, other: seq<Expr>)
    requires (forall i :: 0 <= i < |variables| ==> variables[i] in bounds) && |variables| > 0
    ensures VarsOf(BoundConditions(variables[0], bounds[variables[0]])) <=
            VarsOf(AsConditions(variables, bounds, other))
    ensures VarsOf(AsConditions(variables[1..], bounds, other)) <= VarsOf(AsConditions(variables, bounds, other))
  {
    VarsOfConcat(BoundConditions(variables[0], bounds[variables[0]]), AsConditions(variables[1..], bounds, other));
  }

  lemma {:induction false} VarsOfConcat(es: seq<Expr>, fs: seq<Expr>)
    ensures VarsOf(es + fs) == VarsOf(es) + VarsOf(fs)
  {
    var all := es + fs;
    forall i | 0 <= i < |es| ensures FreeVars(es[i]) <= VarsOf(all) { assert all[i] == es[i]; }
    forall i | 0 <= i < |fs| ensures FreeVars(fs[i]) <= VarsOf(all) { assert all[|es| + i] == fs[i]; }
  }

  lemma {:induction false} BoundConditionVars(v: nat, b: GroupBounds)
    ensures BoundsVars(b) <= VarsOf(BoundConditions(v, b))
  {
    var lhs := Scale(b.coef, Var(v));
    CompareVars(EQ, lhs, b.equal);
    CompareVars(GE, lhs, b.lower);
    CompareVars(LE, lhs, b.upper);
    VarsOfConcat(Compare(EQ, lhs, b.equal), Compare(GE, lhs, b.lower));
    VarsOfConcat(Compare(EQ, lhs, b.equal) + Compare(GE, lhs, b.lower), Compare(LE, lhs, b.upper));
  }

  lemma {:induction false} CompareVars(op: BinOp, lhs: Expr, rhs: seq<Expr>)
    ensures VarsOf(rhs) <= VarsOf(Compare(op, lhs, rhs))
  {
    forall i | 0 <= i < |rhs| ensures FreeVars(rhs[i]) <= VarsOf(Compare(op, lhs, rhs)) {
      assert FreeVars(Compare(op, lhs, rhs)[i]) == FreeVars(lhs) + FreeVars(rhs[i]);
    }
  }

  /** Carried solutions have the variable at k within its bounds b, with and without its range, and
      these are bounds in terms of the new variables. */
  ghost predicate Ready(simplify: Simplifier, sys: IntConstraints, limit: nat, k: nat, d: Deskew, b: GroupBounds)
    requires k < |sys.variables|
  {
    var v := sys.variables[k];
    && b.coef > 0
    && BoundsVars(SubstituteBounds(b, d.toDst)) <= Targets(sys, d, limit)
    && BoundsVars(NewBounds(simplify, sys, d, b, v)) <= Targets(sys, d, limit)
    && CarriedWithin(sys, d, v, NewBounds(simplify, sys, d, b, v))
    && CarriedWithin(sys, d, v, SubstituteBounds(b, d.toDst))
  }

  // ----- what becomes of the variables -------------------------------------------------------

  /** A variable with an equation is replaced, one that a side leaves unbounded is kept, and others are
      replaced by the lower end of their best range or shifted to start from it. */
  ghost predicate StepFor(ro: RangeOracle, sys: IntConstraints, d: Deskew, v: nat, bnd: GroupBounds, d': Deskew) {
    if HasEquation(bnd) then d' == Replace(d, v, Substitute(bnd.equal[0], d.toDst))
    else
      var b := NewBounds(ro.simplify, sys, d, bnd, v);
      if OneSided(b) then d' == Keep(d, v)
      else
        exists r: Range :: IsBest(ro, Bound(sys, d), b, r) &&
          d' == if r.extent == IntImm(1) then Replace(d, v, r.min) else Shift(ro.simplify, sys, d, v, r)
  }

  /** The variable is kept exactly if it had no range and a side leaves it unbounded. */
  ghost predicate KeptAt(sys: IntConstraints, bounds: Solved, d: Deskew, j: nat)
    requires j < |sys.variables|
  {
    var v := sys.variables[j];
    v in bounds && (v in d.toSrc <==> v !in sys.ranges && OneSided(bounds[v]))
  }

  /** How many variables have no equation. */
  function WithoutEquation(variables: seq<nat>, bounds: Solved): nat {
    if |variables| == 0 then 0
    else (if variables[0] in bounds && HasEquation(bounds[variables[0]]) then 0 else 1) +
         WithoutEquation(variables[1..], bounds)
  }

  /** New variables start from zero and take more than one value, the unbounded ones are kept, and there
      are no more variables than those without an equation. */
  ghost predicate Deskewed(sys: IntConstraints, bounds: Solved, k: nat, d: Deskew)
    requires k <= |sys.variables|
  {
    && (forall z :: z in d.ranges ==> d.ranges[z].min == IntImm(0) && d.ranges[z].extent != IntImm(1))
    && (forall j :: k <= j < |sys.variables| ==> KeptAt(sys, bounds, d, j))
    && |d.variables| <= WithoutEquation(sys.variables[k..], bounds)
  }

  lemma {:induction false} SubstitutedSides(b: GroupBounds, s: Subst)
    ensures OneSided(SubstituteBounds(b, s)) <==> OneSided(b)
    ensures HasEquation(SubstituteBounds(b, s)) <==> HasEquation(b)
    ensures HasEquation(b) ==> !OneSided(b)
  {}

  lemma {:induction false} StepDeskews(ro: RangeOracle, sys: IntConstraints, bounds: Solved, limit: nat, k: nat,
      d: Deskew, d': Deskew)
    requires NoRepeats(sys.variables) && Limits(sys, limit) && k < |sys.variables| && Shape(sys, k + 1, d, limit)
    requires sys.variables[k] in bounds && Deskewed(sys, bounds, k + 1, d)
    requires StepFor(ro, sys, d, sys.variables[k], bounds[sys.variables[k]], d')
    ensures Deskewed(sys, bounds, k, d')
  {
    StepKeeps(ro, sys, bounds, limit, k, d, d');
    StepRanges(ro, sys, d, sys.variables[k], bounds[sys.variables[k]], d');
    assert sys.variables[k..][0] == sys.variables[k] && sys.variables[k..][1..] == sys.variables[k + 1..];
  }

  /** A step adds at most one variable, none for an equation, and only zero-based ranges. */
  lemma {:induction false} StepRanges(ro: RangeOracle, sys: IntConstraints, d: Deskew, v: nat, bnd: GroupBounds,
      d': Deskew)
    requires StepFor(ro, sys, d, v, bnd, d')
    ensures |d'.variables| <= |d.variables| + if HasEquation(bnd) then 0 else 1
    ensures forall z :: z in d'.ranges ==>
              (z in d.ranges && d'.ranges[z] == d.ranges[z]) ||
              (d'.ranges[z].min == IntImm(0) && d'.ranges[z].extent != IntImm(1))
  {}

  lemma {:induction false} StepKeeps(ro: RangeOracle, sys: IntConstraints, bounds: Solved, limit: nat, k: nat,
      d: Deskew, d': Deskew)
    requires NoRepeats(sys.variables) && Limits(sys, limit) && k < |sys.variables| && Shape(sys, k + 1, d, limit)
    requires sys.variables[k] in bounds && forall j :: k + 1 <= j < |sys.variables| ==> KeptAt(sys, bounds, d, j)
    requires StepFor(ro, sys, d, sys.variables[k], bounds[sys.variables[k]], d')
    ensures forall j :: k <= j < |sys.variables| ==> KeptAt(sys, bounds, d', j)
  {
    var v := sys.variables[k];
    NotMapped(sys, k, d, limit);
    SubstitutedSides(bounds[v], d.toDst);
    OwnRangeSides(ro.simplify, SubstituteBounds(bounds[v], d.toDst), v, Bound(sys, d));
    forall j: nat | k <= j < |sys.variables| ensures KeptAt(sys, bounds, d', j) {
      assert sys.variables[j] in sys.variables;
      if j > k { assert KeptAt(sys, bounds, d, j) && sys.variables[j] != v; }
    }
  }

  /** One step of the loop: maps the variable at k, or finds that there is no solution. */
  method MapVariable(ro: RangeOracle, sys: IntConstraints, limit: nat, k: nat, d: Deskew, bnd: GroupBounds)
    returns (d': Deskew, solvable: bool)
    requires RangeOracleSound(ro) && NoRepeats(sys.variables) && Limits(sys, limit)
    requires k < |sys.variables| && Invariant(sys, k + 1, d, limit) && Ready(ro.simplify, sys, limit, k, d, bnd)
    ensures solvable ==> Invariant(sys, k, d', limit) && StepFor(ro, sys, d, sys.variables[k], bnd, d')
    ensures !solvable ==> forall env: Env :: !Satisfies(sys, env)
  {
    var v := sys.variables[k];
    var b := SubstituteBounds(bnd, d.toDst);
    SubstitutedSides(bnd, d.toDst);
    d', solvable := d, true;
    if b.coef == 1 && |b.equal| > 0 {
      EqualStep(sys, k, d, limit, b);
      d' := Replace(d, v, b.equal[0]);
    } else {
      var b' := WithOwnRange(ro.simplify, b, v, Bound(sys, d));
      var best := FindBestRange(ro, Bound(sys, d), b');
      if best.None? {
        OwnRangeSides(ro.simplify, b, v, Bound(sys, d));
        KeepKeeps(sys, k, d, limit);
        d' := Keep(d, v);
      } else {
        var r := best.value;
        FoundRange(sys, k, d, limit, b', r);
        if r.extent == IntImm(1) {
          UnitStep(sys, k, d, limit, r);
          d' := Replace(d, v, r.min);
        } else if ro.prove(Bound(sys, d), Emptiness(r)) {
          NoSolution(ro, sys, d, v, r);
          solvable := false;
        } else {
          ShiftKeeps(ro.simplify, sys, k, d, limit, r);
          d' := Shift(ro.simplify, sys, d, v, r);
        }
      }
    }
  }

  lemma {:induction false} StepContext(simplify: Simplifier, sys: IntConstraints, bounds: Solved, other: seq<Expr>,
      limit: nat, k: nat, d: Deskew)
    requires SimplifierSound(simplify) && Context(sys, bounds, other, limit)
    requires k < |sys.variables| && Invariant(sys, k + 1, d, limit)
    ensures sys.variables[k] in bounds && Ready(simplify, sys, limit, k, d, bounds[sys.variables[k]])
  {
    var v := sys.variables[k];
    assert ConfinedAt(bounds[v], sys.variables, k, sys.ranges);
    BoundsInConditions(sys.variables, bounds, other, k, bounds[v]);
    NewBoundsVars(simplify, sys, k, d, limit, bounds[v]);
    SubstitutedBoundsVars(sys, k + 1, d, limit, bounds[v]);
    forall env: Env | Satisfies(sys, env)
      ensures BoundsHold(NewBounds(simplify, sys, d, bounds[v], v), Get(env, v), Through(d.toSrc, env))
      ensures BoundsHold(SubstituteBounds(bounds[v], d.toDst), Get(env, v), Through(d.toSrc, env))
    {
      SolutionBounds(sys, bounds, other, env, k);
      NewBoundsHold(simplify, sys, k, d, limit, bounds[v], env);
    }
  }

  /** Every carried solution has v within the bounds, or in the range. */
  ghost predicate CarriedWithin(sys: IntConstraints, d: Deskew, v: nat, b: GroupBounds) {
    forall env: Env :: Satisfies(sys, env) ==> BoundsHold(b, Get(env, v), Through(d.toSrc, env))
  }

  ghost predicate CarriedInRange(sys: IntConstraints, d: Deskew, v: nat, r: Range) {
    forall env: Env :: Satisfies(sys, env) ==> InRange(r, Get(env, v), Through(d.toSrc, env))
  }

  lemma {:induction false} EqualStep(sys: IntConstraints, k: nat, d: Deskew, limit: nat, b: GroupBounds)
    requires NoRepeats(sys.variables) && Limits(sys, limit) && k < |sys.variables| && Invariant(sys, k + 1, d, limit)
    requires b.coef == 1 && |b.equal| > 0 && BoundsVars(b) <= Targets(sys, d, limit)
    requires CarriedWithin(sys, d, sys.variables[k], b)
    ensures Invariant(sys, k, Replace(d, sys.variables[k], b.equal[0]), limit)
  {
    var v := sys.variables[k];
    forall env: Env | Satisfies(sys, env) ensures Eval(b.equal[0], Through(d.toSrc, env)) == Get(env, v) {
      assert BoundsHold(b, Get(env, v), Through(d.toSrc, env));
      assert b.coef * Get(env, v) == Eval(b.equal[0], Through(d.toSrc, env));
    }
    assert FreeVars(b.equal[0]) <= BoundsVars(b);
    ReplaceKeeps(sys, k, d, limit, b.equal[0]);
  }

  lemma {:induction false} FoundRange(sys: IntConstraints, k: nat, d: Deskew, limit: nat, b: GroupBounds, r: Range)
    requires NoRepeats(sys.variables) && Limits(sys, limit) && k < |sys.variables| && Invariant(sys, k + 1, d, limit)
    requires CarriedWithin(sys, d, sys.variables[k], b) && Encloses(r, b, Bound(sys, d))
    requires BoundsVars(b) <= Targets(sys, d, limit)
    requires RangeVars(r) <= BoundsVars(b) + AllRangeVars(Bound(sys, d))
    ensures RangeScoped(sys, d, limit, r) && CarriedInRange(sys, d, sys.variables[k], r)
  {
    BoundRangeVars(sys, k + 1, d, limit);
    TargetsBelow(sys, k + 1, d, limit, RangeVars(r));
    forall env: Env | Satisfies(sys, env) ensures InRange(r, Get(env, sys.variables[k]), Through(d.toSrc, env)) {
      assert CarriesOver(sys, d, env);
    }
  }

  lemma {:induction false} UnitStep(sys: IntConstraints, k: nat, d: Deskew, limit: nat, r: Range)
    requires NoRepeats(sys.variables) && Limits(sys, limit) && k < |sys.variables| && Invariant(sys, k + 1, d, limit)
    requires RangeScoped(sys, d, limit, r) && CarriedInRange(sys, d, sys.variables[k], r) && r.extent == IntImm(1)
    ensures Invariant(sys, k, Replace(d, sys.variables[k], r.min), limit)
  {
    forall env: Env | Satisfies(sys, env) ensures Eval(r.min, Through(d.toSrc, env)) == Get(env, sys.variables[k]) {
      assert InRange(r, Get(env, sys.variables[k]), Through(d.toSrc, env));
      assert Eval(IntImm(1), Through(d.toSrc, env)) == 1;
    }
    ReplaceKeeps(sys, k, d, limit, r.min);
  }

  lemma {:induction false} NoSolution(ro: RangeOracle, sys: IntConstraints, d: Deskew, v: nat, r: Range)
    requires RangeOracleSound(ro) && (forall env: Env :: Satisfies(sys, env) ==> CarriesOver(sys, d, env))
    requires CarriedInRange(sys, d, v, r) && ro.prove(Bound(sys, d), Emptiness(r))
    ensures forall env: Env :: !Satisfies(sys, env)
  {
    forall env: Env | Satisfies(sys, env) ensures false {
      assert CarriesOver(sys, d, env);
      EmptyRange(ro, Bound(sys, d), r, Get(env, v), Through(d.toSrc, env));
    }
  }

  /** A variable number above all of vs. */
  method FreshAbove(vs: set<nat>) returns (limit: nat)
    ensures Below(vs, limit)
  {
    limit := 0;
    var todo := vs;
    while todo != {}
      invariant todo <= vs && forall v :: v in vs && v !in todo ==> v < limit
      decreases todo
    {
      var v :| v in todo;
      if v >= limit { limit := v + 1; }
      todo := todo - {v};
    }
  }

  /** The substituted conditions mention only in-range variables. */
  ghost predicate SubstitutedInRange(conds: seq<Expr>, s: Subst, rs: Ranges, env: Env) {
    forall i :: 0 <= i < |conds| ==> InClosure(FreeVars(Substitute(conds[i], s)), rs, env)
  }

  /** The conditions in terms of the new variables, without those that simplify to true. */
  method NewRelations(simplify: Simplifier, rs: Ranges, conds: seq<Expr>, s: Subst) returns (rels: seq<Expr>)
    requires SimplifierSound(simplify)
    ensures SameRelations(conds, s, rs, rels) && IntImm(1) !in rels
  {
    rels := [];
    var all := ApplyAll(conds, s);
    for i := 0 to |conds|
      invariant forall env: Env :: SubstitutedInRange(conds, s, rs, env) ==>
                (AllHold(rels, env) <==> AllHold(all[..i], env))
      invariant IntImm(1) !in rels
    {
      var c := simplify(rs, Substitute(conds[i], s));
      var rels' := if c == IntImm(1) then rels else rels + [c];
      forall env: Env | SubstitutedInRange(conds, s, rs, env)
        ensures AllHold(rels', env) <==> AllHold(all[..i + 1], env)
      {
        assert all[..i + 1] == all[..i] + [all[i]];
        AllHoldAppend(all[..i], [all[i]], env);
        AllHoldAppend(rels, [c], env);
        Simplified(simplify, rs, all[i], env);
        assert AllHold([all[i]], env) <==> Holds([all[i]][0], env);
        assert AllHold([c], env) <==> Holds([c][0], env);
      }
      rels := rels';
    }
    assert all[..|conds|] == all;
  }

  /** Variables from limit on are fresh. */
  method FreshLimit(sys: IntConstraints, bounds: Solved, other: seq<Expr>, conds: seq<Expr>) returns (limit: nat)
    requires forall i :: 0 <= i < |sys.variables| ==> sys.variables[i] in bounds
    requires conds == AsConditions(sys.variables, bounds, other)
    ensures AboveAll(sys, bounds, other, limit)
  {
    var variables := set v | v in sys.variables;
    var known := variables + sys.ranges.Keys + AllRangeVars(sys.ranges) + VarsOf(conds);
    limit := FreshAbove(known);
    assert forall v :: v in sys.variables ==> v in variables;
    BelowPart(variables, known, limit);
    BelowPart(sys.ranges.Keys, known, limit);
    BelowPart(AllRangeVars(sys.ranges), known, limit);
    BelowPart(VarsOf(conds), known, limit);
  }

  /** The loop over the variables, last first. */
  method MapVariables(ro: RangeOracle, sys: IntConstraints, bounds: Solved, ghost other: seq<Expr>, limit: nat)
    returns (d: Deskew, solvable: bool)
    requires RangeOracleSound(ro) && Context(sys, bounds, other, limit)
    ensures solvable ==> Invariant(sys, 0, d, limit) && Deskewed(sys, bounds, 0, d)
    ensures !solvable ==> forall env: Env :: !Satisfies(sys, env)
  {
    d, solvable := Deskew(map[], map[], [], map[], limit), true;
    Start(sys, limit);
    var n := |sys.variables|;
    for k := n downto 0
      invariant Invariant(sys, k, d, limit) && Deskewed(sys, bounds, k, d)
    {
      StepContext(ro.simplify, sys, bounds, other, limit, k, d);
      ghost var before := d;
      d, solvable := MapVariable(ro, sys, limit, k, d, bounds[sys.variables[k]]);
      if !solvable { return; }
      StepDeskews(ro, sys, bounds, limit, k, before, d);
    }
    solvable := true;
  }

  /** A variable that stays: it has no range, and a side leaves it unbounded. */
  predicate Stays(sys: IntConstraints, bounds: Solved, v: nat) {
    v in sys.variables && v !in sys.ranges && v in bounds && OneSided(bounds[v])
  }

  /** The destination has zero-based variables that take more than one value and, of the source's, those
      that stay; no relation of it is true as it stands. */
  ghost predicate ZeroBased(t: IntConstraintsTransform, bounds: Solved) {
    && (forall z :: z in t.dst.ranges ==> t.dst.ranges[z].min == IntImm(0) && t.dst.ranges[z].extent != IntImm(1))
    && (forall z :: z in t.dst.variables ==> z in t.dst.ranges || Stays(t.src, bounds, z))
    && (forall v :: Stays(t.src, bounds, v) ==> v in t.dst.variables)
    && |t.dst.variables| <= WithoutEquation(t.src.variables, bounds)
    && IntImm(1) !in t.dst.relations
  }

  lemma {:induction false} DeskewedStays(sys: IntConstraints, bounds: Solved, limit: nat, d: Deskew, v: nat)
    requires Shape(sys, 0, d, limit) && Deskewed(sys, bounds, 0, d) && v in sys.variables
    ensures v in d.toSrc <==> Stays(sys, bounds, v)
  {
    var i :| 0 <= i < |sys.variables| && sys.variables[i] == v;
    assert KeptAt(sys, bounds, d, i);
  }

  lemma {:induction false} DeskewedIsZeroBased(sys: IntConstraints, bounds: Solved, limit: nat, d: Deskew,
      rels: seq<Expr>)
    requires Shape(sys, 0, d, limit) && Deskewed(sys, bounds, 0, d) && IntImm(1) !in rels
    ensures var dst := IntConstraints(Reversed(d.variables), d.ranges, rels);
            ZeroBased(IntConstraintsTransform(sys, dst, d.toDst, d.toSrc), bounds)
  {
    assert sys.variables[0..] == sys.variables;
    forall z | z in d.variables ensures z in d.ranges || Stays(sys, bounds, z) {
      if z !in d.ranges {
        assert Kept(sys, d, z);
        DeskewedStays(sys, bounds, limit, d, z);
      }
    }
    forall v | Stays(sys, bounds, v) ensures v in d.variables { DeskewedStays(sys, bounds, limit, d, v); }
  }

  /** SolveInequalitiesDeskewRange: the two maps are mutually inverse on the solutions, and the result is
      empty or zero-based. */
  method SolveInequalitiesDeskewRange(o: Oracle, ro: RangeOracle, sys: IntConstraints)
    returns (t: IntConstraintsTransform, ghost bounds: Solved, ghost other: seq<Expr>)
    requires Sound(o) && RangeOracleSound(ro) && NoRepeats(sys.variables)
    ensures t.src == sys && DeskewBijection(t) && forall v :: v in t.srcToDst ==> v in sys.variables
    ensures SolvedSystem(o, sys, bounds, other) && (t.dst == Unsatisfiable || ZeroBased(t, bounds))
  {
    var solved, rest := SolveLinearInequalities(o, sys);
    bounds, other := solved, rest;
    var conds := CollectConditions(sys.variables, solved, rest);
    var limit := FreshLimit(sys, solved, rest, conds);
    var d, solvable := MapVariables(ro, sys, solved, rest, limit);
    if solvable {
      var rels := NewRelations(ro.simplify, Bound(sys, d), conds, d.toDst);
      var dst := IntConstraints(Reversed(d.variables), d.ranges, rels);
      t := IntConstraintsTransform(sys, dst, d.toDst, d.toSrc);
      DeskewDone(sys, solved, rest, limit, d, dst);
      DeskewedIsZeroBased(sys, solved, limit, d, rels);
    } else {
      t := IntConstraintsTransform(sys, Unsatisfiable, map[], map[]);
      UnsolvableTransform(sys);
    }
  }

  /** The transform built: the mapped variables, their ranges and the conditions in them. */
  ghost predicate Built(sys: IntConstraints, bounds: Solved, other: seq<Expr>, limit: nat, d: Deskew,
      dst: IntConstraints)
  {
    && Context(sys, bounds, other, limit) && Invariant(sys, 0, d, limit) && dst.ranges == d.ranges
    && SameRelations(AsConditions(sys.variables, bounds, other), d.toDst, Bound(sys, d), dst.relations)
    && forall z :: z in dst.variables <==> z in d.variables
  }

  lemma {:induction false} DeskewDone(sys: IntConstraints, bounds: Solved, other: seq<Expr>, limit: nat, d: Deskew,
      dst: IntConstraints)
    requires Built(sys, bounds, other, limit, d, dst)
    ensures DeskewBijection(IntConstraintsTransform(sys, dst, d.toDst, d.toSrc))
  {
    forall env: Env | Satisfies(sys, env) ensures CarriedTo(sys, dst, d, env) {
      SolutionCarried(sys, bounds, other, limit, d, dst, env);
    }
    var t := IntConstraintsTransform(sys, dst, d.toDst, d.toSrc);
    forall env': Env | Satisfies(dst, env') ensures Returns(t, env') {
      SolutionReturned(sys, bounds, other, limit, d, dst, env');
    }
  }

  ghost predicate CarriedTo(sys: IntConstraints, dst: IntConstraints, d: Deskew, env: Env) {
    Satisfies(dst, Through(d.toSrc, env)) &&
    forall v :: v in sys.variables ==> v in d.toDst && Eval(d.toDst[v], Through(d.toSrc, env)) == Get(env, v)
  }

  function Reversed(vs: seq<nat>): (r: seq<nat>)
    ensures |r| == |vs| && forall z :: z in r <==> z in vs
  {
    if |vs| == 0 then [] else Reversed(vs[1..]) + [vs[0]]
  }

  lemma {:induction false} Start(sys: IntConstraints, limit: nat)
    ensures Invariant(sys, |sys.variables|, Deskew(map[], map[], [], map[], limit), limit)
  {
    var d := Deskew(map[], map[], [], map[], limit);
    forall env: Env | Satisfies(sys, env) ensures CarriesOver(sys, d, env) {
      assert Bound(sys, d) == sys.ranges;
      assert Through(map[], env).Keys == env.Keys;
      assert Through(map[], env) == env;
    }
  }

  /** The relations of the destination are the conditions in the new variables. */
  ghost predicate SameRelations(conds: seq<Expr>, s: Subst, rs: Ranges, rels: seq<Expr>) {
    forall env: Env :: SubstitutedInRange(conds, s, rs, env) ==>
      (AllHold(rels, env) <==> AllHold(ApplyAll(conds, s), env))
  }

  lemma {:induction false} SolutionCarried(sys: IntConstraints, bounds: Solved, other: seq<Expr>, limit: nat, d: Deskew,
      dst: IntConstraints, env: Env)
    requires Built(sys, bounds, other, limit, d, dst) && Satisfies(sys, env)
    ensures CarriedTo(sys, dst, d, env)
  {
    var env', conds := Through(d.toSrc, env), AsConditions(sys.variables, bounds, other);
    assert CarriesOver(sys, d, env);
    assert sys.variables[0..] == sys.variables;
    assert OthersInRange(sys.variables, sys.ranges, env);
    assert AllHold(conds, env);
    ConditionsCarried(sys, conds, limit, d, env);
    forall i | 0 <= i < |conds| ensures InClosure(FreeVars(Substitute(conds[i], d.toDst)), Bound(sys, d), env') {
      ClosureAll(FreeVars(Substitute(conds[i], d.toDst)), Bound(sys, d), env');
    }
    assert SubstitutedInRange(conds, d.toDst, Bound(sys, d), env');
    forall z | z in d.ranges ensures InRange(d.ranges[z], Get(env', z), env') {
      assert z in Bound(sys, d) && Bound(sys, d)[z] == d.ranges[z];
    }
  }

  lemma {:induction false} ConditionsCarried(sys: IntConstraints, conds: seq<Expr>, limit: nat, d: Deskew, env: Env)
    requires Shape(sys, 0, d, limit) && CarriesOver(sys, d, env) && Below(VarsOf(conds), limit) && AllHold(conds, env)
    ensures AllHold(ApplyAll(conds, d.toDst), Through(d.toSrc, env))
  {
    forall i | 0 <= i < |conds| ensures Holds(ApplyAll(conds, d.toDst)[i], Through(d.toSrc, env)) {
      assert FreeVars(conds[i]) <= VarsOf(conds);
      ThereAndBack(sys, 0, d, limit, env, conds[i]);
    }
  }

  lemma {:induction false} SolutionReturned(sys: IntConstraints, bounds: Solved, other: seq<Expr>, limit: nat,
      d: Deskew, dst: IntConstraints, env': Env)
    requires Built(sys, bounds, other, limit, d, dst) && Satisfies(dst, env')
    ensures Returns(IntConstraintsTransform(sys, dst, d.toDst, d.toSrc), env')
  {
    if KnownInRange(sys, env') { KnownReturned(sys, bounds, other, limit, d, dst, env'); }
    var env := Through(d.toDst, env');
    if Settled(AllRangeVars(sys.ranges), d.toDst, env') && Satisfies(sys, env) {
      assert sys.variables[0..] == sys.variables;
      OuterSame(sys, d, limit, env');
      assert InAll(sys.ranges, env);
      assert MapsTo(sys, d, limit, env', env);
    }
  }

  lemma {:induction false} KnownReturned(sys: IntConstraints, bounds: Solved, other: seq<Expr>, limit: nat, d: Deskew,
      dst: IntConstraints, env': Env)
    requires Built(sys, bounds, other, limit, d, dst) && Satisfies(dst, env') && KnownInRange(sys, env')
    ensures Satisfies(sys, Through(d.toDst, env')) <==> InAll(sys.ranges, Through(d.toDst, env'))
    ensures OrderedRanges(sys.ranges, sys.variables) ==> Satisfies(sys, Through(d.toDst, env'))
  {
    var conds := AsConditions(sys.variables, bounds, other);
    assert sys.variables[0..] == sys.variables;
    ReturnedInRange(sys, conds, limit, d, env');
    ConditionsReturned(conds, d.toDst, env');
    if OrderedRanges(sys.ranges, sys.variables) { OthersReturned(sys, d, env'); }
  }

  /** Ordered ranges of outer variables mention no solved variable, so they look the same from both sides. */
  lemma {:induction false} OthersReturned(sys: IntConstraints, d: Deskew, env': Env)
    requires OrderedRanges(sys.ranges, sys.variables) && (forall v :: v in d.toDst <==> v in sys.variables)
    requires KnownInRange(sys, env')
    ensures OthersInRange(sys.variables, sys.ranges, Through(d.toDst, env'))
  {
    var env := Through(d.toDst, env');
    forall u | u in sys.ranges && u !in sys.variables ensures InRange(sys.ranges[u], Get(env, u), env) {
      assert Occurs(sys, u) && InRange(sys.ranges[u], Get(env', u), env');
      assert forall j :: 0 <= j < |sys.variables| ==> sys.variables[j] !in RangeVars(sys.ranges[u]);
      EvalAgree(sys.ranges[u].min, env, env');
      EvalAgree(sys.ranges[u].extent, env, env');
    }
  }

  lemma {:induction false} ConditionsReturned(conds: seq<Expr>, s: Subst, env': Env)
    ensures AllHold(ApplyAll(conds, s), env') <==> AllHold(conds, Through(s, env'))
  {
    forall i | 0 <= i < |conds| ensures Holds(ApplyAll(conds, s)[i], env') <==> Holds(conds[i], Through(s, env')) {
      SubstituteEval(conds[i], s, env');
    }
    if AllHold(ApplyAll(conds, s), env') {
      forall i | 0 <= i < |conds|
        ensures Holds(conds[i], Through(s, env'))
      {
        assert Holds(ApplyAll(conds, s)[i], env');
      }
    }
  }

  /** The outer variables and their ranges look the same from both sides. */
  lemma {:induction false} OuterSame(sys: IntConstraints, d: Deskew, limit: nat, env': Env)
    requires NoRepeats(sys.variables) && Limits(sys, limit) && (forall v :: v in d.toDst <==> v in sys.variables)
    requires Settled(AllRangeVars(sys.ranges), d.toDst, env')
    ensures KnownInRange(sys, Through(d.toDst, env')) <==> KnownInRange(sys, env')
    ensures Agree(Outer(sys, limit), Through(d.toDst, env'), env')
  {
    var env := Through(d.toDst, env');
    forall u | u in sys.ranges && Occurs(sys, u)
      ensures InRange(sys.ranges[u], Get(env, u), env) <==> InRange(sys.ranges[u], Get(env', u), env')
    {
      assert RangeVars(sys.ranges[u]) <= AllRangeVars(sys.ranges);
      EvalAgree(sys.ranges[u].min, env, env');
      EvalAgree(sys.ranges[u].extent, env, env');
    }
  }

  lemma {:induction false} ReturnedInRange(sys: IntConstraints, conds: seq<Expr>, limit: nat, d: Deskew, env': Env)
    requires NoRepeats(sys.variables) && Limits(sys, limit) && Shape(sys, 0, d, limit) && Below(VarsOf(conds), limit)
    requires InAll(d.ranges, env') && KnownInRange(sys, env')
    ensures SubstitutedInRange(conds, d.toDst, Bound(sys, d), env')
  {
    var rs, c := Bound(sys, d), Targets(sys, d, limit);
    BoundRangeVars(sys, 0, d, limit);
    forall u | u in c && u in rs ensures RangeVars(rs[u]) <= c && InRange(rs[u], Get(env', u), env') {
      assert RangeVars(rs[u]) <= AllRangeVars(rs);
      TargetInRange(sys, limit, d, env', u);
    }
    assert Closed(c, rs) && InRanges(c, rs, env');
    forall i | 0 <= i < |conds| ensures InClosure(FreeVars(Substitute(conds[i], d.toDst)), rs, env') {
      assert FreeVars(conds[i]) <= VarsOf(conds);
      SubstitutedVars(sys, 0, d, limit, conds[i]);
      assert FreeVars(Substitute(conds[i], d.toDst)) <= c;
    }
  }

  lemma {:induction false} TargetInRange(sys: IntConstraints, limit: nat, d: Deskew, env': Env, u: nat)
    requires Shape(sys, 0, d, limit) && InAll(d.ranges, env') && KnownInRange(sys, env')
    requires u in Targets(sys, d, limit) && u in Bound(sys, d)
    ensures InRange(Bound(sys, d)[u], Get(env', u), env')
  {
    if u !in d.ranges {
      assert !Kept(sys, d, u);
      assert u in Outer(sys, limit);
    }
  }

  lemma {:induction false} UnsolvableTransform(sys: IntConstraints)
    requires forall env: Env :: !Satisfies(sys, env)
    ensures DeskewBijection(IntConstraintsTransform(sys, Unsatisfiable, map[], map[]))
  {
    forall env: Env ensures !Satisfies(Unsatisfiable, env) { UnsatisfiableHasNone(env); }
  }

  lemma {:induction false} BelowPart(vs: set<nat>, ws: set<nat>, limit: nat)
    requires vs <= ws && Below(ws, limit)
    ensures Below(vs, limit)
  {}
}
