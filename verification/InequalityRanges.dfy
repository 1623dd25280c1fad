/** Solved inequalities as ranges (SolveInequalitiesToRange in
    src/arith/solve_linear_inequality.cc). */
module InequalityRanges {
  import opened PrimExprs
  import opened Wrappers
  import opened IntConstraintSystems
  import opened SolveLinearInequality
  import opened BestRange

  lemma {:induction false} SolutionBounds(sys: IntConstraints, bounds: Solved, other: seq<Expr>, env: Env, j: nat)
    requires SameInRange(sys, bounds, other) && j < |sys.variables| && Satisfies(sys, env)
    ensures var v := sys.variables[j]; v in bounds && BoundsHold(bounds[v], Get(env, v), env)
  {
    assert InAll(sys.ranges, env);
    AsConditionsHold(sys.variables, bounds, other, env);
  }

  /** The bounds of v with its own range, if it has one. */
  function WithOwnRange(simplify: Simplifier, b: GroupBounds, v: nat, rs: Ranges): GroupBounds {
    if v in rs then WithRange(simplify, b, rs[v]) else b
  }

  function Emptiness(r: Range): Expr { Bin(GE, Negated(r.extent), IntImm(0)) }

  lemma {:induction false} EmptyRange(o: RangeOracle, rs: Ranges, r: Range, x: int, env: Env)
    requires RangeOracleSound(o) && InAll(rs, env) && o.prove(rs, Emptiness(r))
    ensures !InRange(r, x, env)
  {
    ProvedInAll(o.prove, rs, Emptiness(r), env);
    assert Eval(Negated(r.extent), env) == -Eval(r.extent, env);
  }

  const Unsatisfiable := IntConstraints([], map[], [IntImm(0)])

  lemma {:induction false} UnsatisfiableHasNone(env: Env)
    ensures !Satisfies(Unsatisfiable, env)
  {
    assert !Holds(Unsatisfiable.relations[0], env);
  }

  /** Every solution respects the ranges. */
  ghost predicate SolutionsInRange(sys: IntConstraints, rs: Ranges) {
    forall env: Env :: Satisfies(sys, env) ==> InAll(rs, env)
  }

  /** A range found for the variable at k keeps every solution in range. */
  lemma {:induction false} RangeKeepsSolutions(o: RangeOracle, sys: IntConstraints, bounds: Solved, other: seq<Expr>,
      k: nat, rs: Ranges, r: Range)
    requires RangeOracleSound(o) && SameInRange(sys, bounds, other) && k < |sys.variables|
    requires sys.variables[k] in rs ==>
             sys.variables[k] in sys.ranges && rs[sys.variables[k]] == sys.ranges[sys.variables[k]]
    requires sys.variables[k] in bounds
    requires Encloses(r, WithOwnRange(o.simplify, bounds[sys.variables[k]], sys.variables[k], rs), rs)
    requires SolutionsInRange(sys, rs)
    ensures SolutionsInRange(sys, rs[sys.variables[k] := r])
    ensures o.prove(rs, Emptiness(r)) ==> forall env: Env :: !Satisfies(sys, env)
  {
    var v := sys.variables[k];
    forall env: Env | Satisfies(sys, env) ensures InAll(rs[v := r], env) && !o.prove(rs, Emptiness(r)) {
      SolutionBounds(sys, bounds, other, env, k);
      if v in rs { WithRangeExact(o.simplify, bounds[v], rs[v], Get(env, v), env); }
      assert InRange(r, Get(env, v), env);
      if o.prove(rs, Emptiness(r)) { EmptyRange(o, rs, r, Get(env, v), env); }
    }
  }

  /** The ranges kept so far: those of the system, and what was found for the later variables. */
  ghost predicate Tracks(sys: IntConstraints, k: nat, found: Ranges, rs: Ranges)
    requires k <= |sys.variables|
  {
    && rs == sys.ranges + found
    && (forall v :: v in found ==> v in sys.variables[k..])
    && (forall v :: v in sys.variables[k..] && v in sys.ranges ==> v in found)
  }

  /** There is an equation for the variable itself. */
  predicate HasEquation(b: GroupBounds) { b.coef == 1 && |b.equal| > 0 }

  /** The ranges of the system, with those found for the variables from k on. */
  function Later(sys: IntConstraints, found: Ranges, k: nat): Ranges
    requires k <= |sys.variables|
  {
    sys.ranges + map u | u in found && u in sys.variables[k..] :: found[u]
  }

  /** r is the value of an equation for v, or the best range of its bounds. */
  ghost predicate RangeFor(ro: RangeOracle, rs: Ranges, b: GroupBounds, v: nat, r: Range) {
    if HasEquation(b) then r == FromEnds(b.equal[0], ro.simplify(rs, Bin(Add, b.equal[0], IntImm(1))))
    else IsBest(ro, rs, WithOwnRange(ro.simplify, b, v, rs), r)
  }

  /** The variable has a range exactly if it had one or is bounded on both sides, and it is the best one
      given those of the later variables. */
  ghost predicate RangedAt(ro: RangeOracle, sys: IntConstraints, bounds: Solved, found: Ranges, j: nat)
    requires j < |sys.variables|
  {
    var v := sys.variables[j];
    && v in bounds
    && (v in found <==> v in sys.ranges || !OneSided(bounds[v]))
    && (v in found ==> RangeFor(ro, Later(sys, found, j + 1), bounds[v], v, found[v]))
  }

  ghost predicate Ranged(ro: RangeOracle, sys: IntConstraints, bounds: Solved, k: nat, found: Ranges) {
    forall j :: k <= j < |sys.variables| ==> RangedAt(ro, sys, bounds, found, j)
  }

  lemma {:induction false} LaterKeeps(sys: IntConstraints, found: Ranges, k: nat, r: Range, j: nat)
    requires NoRepeats(sys.variables) && k <= j < |sys.variables|
    ensures Later(sys, found[sys.variables[k] := r], j + 1) == Later(sys, found, j + 1)
  {}

  lemma {:induction false} LaterAll(sys: IntConstraints, k: nat, found: Ranges, rs: Ranges)
    requires k <= |sys.variables| && Tracks(sys, k, found, rs)
    ensures Later(sys, found, k) == rs
  {
    assert (map u | u in found && u in sys.variables[k..] :: found[u]) == found;
  }

  lemma {:induction false} RangedNext(ro: RangeOracle, sys: IntConstraints, bounds: Solved, k: nat, found: Ranges,
      rs: Ranges, r: Range)
    requires NoRepeats(sys.variables) && k < |sys.variables| && sys.variables[k] in bounds
    requires Ranged(ro, sys, bounds, k + 1, found) && Tracks(sys, k + 1, found, rs)
    requires RangeFor(ro, rs, bounds[sys.variables[k]], sys.variables[k], r)
    requires sys.variables[k] in sys.ranges || !OneSided(bounds[sys.variables[k]])
    ensures Ranged(ro, sys, bounds, k, found[sys.variables[k] := r])
  {
    LaterAll(sys, k + 1, found, rs);
    var found' := found[sys.variables[k] := r];
    forall j: nat | k <= j < |sys.variables| ensures RangedAt(ro, sys, bounds, found', j) {
      LaterKeeps(sys, found, k, r, j);
      if j > k { assert RangedAt(ro, sys, bounds, found, j); }
    }
  }

  /** Adding the variable's range gives bounds on both sides. */
  lemma {:induction false} OwnRangeSides(simplify: Simplifier, b: GroupBounds, v: nat, rs: Ranges)
    ensures OneSided(WithOwnRange(simplify, b, v, rs)) <==> v !in rs && OneSided(b)
  {}

  /** Goes from the last variable to the first; the ranges found keep every solution, or there is none. */
  method FindRanges(ro: RangeOracle, sys: IntConstraints, bounds: Solved, ghost other: seq<Expr>)
    returns (found: Ranges, rs: Ranges, solvable: bool)
    requires RangeOracleSound(ro) && NoRepeats(sys.variables) && SameInRange(sys, bounds, other)
    requires forall i :: 0 <= i < |sys.variables| ==> sys.variables[i] in bounds && bounds[sys.variables[i]].coef > 0
    ensures solvable ==> Tracks(sys, 0, found, rs) && SolutionsInRange(sys, rs) && Ranged(ro, sys, bounds, 0, found)
    ensures !solvable ==> forall env: Env :: !Satisfies(sys, env)
  {
    found, rs, solvable := map[], sys.ranges, true;
    var n := |sys.variables|;
    for k := n downto 0
      invariant Tracks(sys, k, found, rs) && SolutionsInRange(sys, rs) && Ranged(ro, sys, bounds, k, found)
    {
      var v := sys.variables[k];
      var b := bounds[v];
      NotYetFound(sys, k, found, rs);
      if b.coef == 1 && |b.equal| > 0 {
        var r := FromEnds(b.equal[0], ro.simplify(rs, Bin(Add, b.equal[0], IntImm(1))));
        EqualEncloses(ro, rs, b, v);
        RangeKeepsSolutions(ro, sys, bounds, other, k, rs, r);
        TracksNext(sys, k, found, rs, r);
        RangedNext(ro, sys, bounds, k, found, rs, r);
        found, rs := found[v := r], rs[v := r];
      } else {
        var best := FindBestRange(ro, rs, WithOwnRange(ro.simplify, b, v, rs));
        OwnRangeSides(ro.simplify, b, v, rs);
        if best.Some? {
          RangeKeepsSolutions(ro, sys, bounds, other, k, rs, best.value);
          TracksNext(sys, k, found, rs, best.value);
          if ro.prove(rs, Emptiness(best.value)) {
            solvable := false;
            return;
          }
          RangedNext(ro, sys, bounds, k, found, rs, best.value);
          found, rs := found[v := best.value], rs[v := best.value];
        } else {
          assert v !in sys.ranges;
        }
      }
    }
  }

  /** The conditions that the ranges do not prove. */
  function Unproved(o: RangeOracle, rs: Ranges, conds: seq<Expr>): seq<Expr> {
    if |conds| == 0 then []
    else (if o.prove(rs, conds[0]) then [] else [conds[0]]) + Unproved(o, rs, conds[1..])
  }

  /** The variables with their best ranges, and the conditions that these do not prove. */
  ghost predicate RangedSystem(ro: RangeOracle, sys: IntConstraints, bounds: Solved, other: seq<Expr>,
      res: IntConstraints)
  {
    && res.variables == sys.variables
    && Ranged(ro, sys, bounds, 0, res.ranges)
    && (forall v :: v in res.ranges ==> v in sys.variables)
    && (forall i :: 0 <= i < |sys.variables| ==> sys.variables[i] in bounds)
    && res.relations == Unproved(ro, sys.ranges + res.ranges, AsConditions(sys.variables, bounds, other))
  }

  /** SolveInequalitiesToRange: every solution of the system is one of the result, and for ordered
      ranges both have the same solutions on valuations whose outer variables are in range. The result is
      empty, or has the best ranges and only the conditions that these do not prove. */
  method SolveInequalitiesToRange(o: Oracle, ro: RangeOracle, sys: IntConstraints)
    returns (res: IntConstraints, ghost bounds: Solved, ghost other: seq<Expr>)
    requires Sound(o) && RangeOracleSound(ro) && NoRepeats(sys.variables)
    ensures forall env: Env :: Satisfies(sys, env) ==> Satisfies(res, env)
    ensures OrderedRanges(sys.ranges, sys.variables) ==>
              forall env: Env :: OthersInRange(sys.variables, sys.ranges, env) && Satisfies(res, env) ==>
                Satisfies(sys, env)
    ensures SolvedSystem(o, sys, bounds, other)
    ensures res == Unsatisfiable || RangedSystem(ro, sys, bounds, other, res)
  {
    var solved, rest := SolveLinearInequalities(o, sys);
    bounds, other := solved, rest;
    var found, rs, solvable := FindRanges(ro, sys, solved, rest);
    if !solvable {
      res := Unsatisfiable;
      forall env: Env ensures !Satisfies(res, env) { UnsatisfiableHasNone(env); }
      return;
    }
    var conds := CollectConditions(sys.variables, solved, rest);
    var kept := KeepUnproved(ro, rs, conds);
    res := IntConstraints(sys.variables, found, kept);
    RangesExact(sys, bounds, other, found, rs, res);
  }

  lemma {:induction false} RangesExact(sys: IntConstraints, bounds: Solved, other: seq<Expr>, found: Ranges,
      rs: Ranges, res: IntConstraints)
    requires Tracks(sys, 0, found, rs) && SolutionsInRange(sys, rs) && SameInRange(sys, bounds, other)
    requires res.ranges == found && forall env: Env :: InAll(rs, env) ==>
               (AllHold(res.relations, env) <==> AllHold(AsConditions(sys.variables, bounds, other), env))
    ensures forall env: Env :: Satisfies(sys, env) ==> Satisfies(res, env)
    ensures Lossless(sys, bounds, other) ==>
              forall env: Env :: OthersInRange(sys.variables, sys.ranges, env) && Satisfies(res, env) ==>
                Satisfies(sys, env)
  {
    forall env: Env | OthersInRange(sys.variables, sys.ranges, env)
      ensures Satisfies(sys, env) ==> Satisfies(res, env)
      ensures Lossless(sys, bounds, other) && Satisfies(res, env) ==> Satisfies(sys, env)
    {
      SameSolutions(sys, found, rs, env);
    }
    forall env: Env | Satisfies(sys, env) ensures Satisfies(res, env) {
      assert OthersInRange(sys.variables, sys.ranges, env);
    }
  }

  lemma {:induction false} NotYetFound(sys: IntConstraints, k: nat, found: Ranges, rs: Ranges)
    requires NoRepeats(sys.variables) && k < |sys.variables| && Tracks(sys, k + 1, found, rs)
    ensures var v := sys.variables[k];
            v !in found && (v in rs <==> v in sys.ranges) && (v in rs ==> rs[v] == sys.ranges[v])
  {}

  lemma {:induction false} TracksNext(sys: IntConstraints, k: nat, found: Ranges, rs: Ranges, r: Range)
    requires k < |sys.variables| && Tracks(sys, k + 1, found, rs)
    ensures Tracks(sys, k, found[sys.variables[k] := r], rs[sys.variables[k] := r])
  {
    assert sys.variables[k..] == [sys.variables[k]] + sys.variables[k + 1..];
  }

  lemma {:induction false} EqualEncloses(o: RangeOracle, rs: Ranges, b: GroupBounds, v: nat)
    requires RangeOracleSound(o) && b.coef == 1 && |b.equal| > 0
    ensures Encloses(FromEnds(b.equal[0], o.simplify(rs, Bin(Add, b.equal[0], IntImm(1)))),
              WithOwnRange(o.simplify, b, v, rs), rs)
  {
    var e := b.equal[0];
    var r := FromEnds(e, o.simplify(rs, Bin(Add, e, IntImm(1))));
    var b' := WithOwnRange(o.simplify, b, v, rs);
    forall env: Env, x: int | InAll(rs, env) && BoundsHold(b', x, env) ensures InRange(r, x, env) {
      if v in rs { WithRangeExact(o.simplify, b, rs[v], x, env); }
      assert b.coef * x == Eval(e, env);
      SimplifiedInAll(o.simplify, rs, Bin(Add, e, IntImm(1)), env);
      FromEndsInRange(e, o.simplify(rs, Bin(Add, e, IntImm(1))), x, env);
    }
  }

  /** Drops the conditions that the ranges prove. */
  method KeepUnproved(o: RangeOracle, rs: Ranges, conds: seq<Expr>) returns (kept: seq<Expr>)
    requires RangeOracleSound(o)
    ensures kept == Unproved(o, rs, conds)
    ensures forall env: Env :: InAll(rs, env) ==> (AllHold(kept, env) <==> AllHold(conds, env))
  {
    kept := [];
    for i := 0 to |conds|
      invariant kept + Unproved(o, rs, conds[i..]) == Unproved(o, rs, conds)
    {
      var c := conds[i];
      assert conds[i..][1..] == conds[i + 1..];
      if !o.prove(rs, c) { kept := kept + [c]; }
    }
    forall env: Env | InAll(rs, env) ensures AllHold(Unproved(o, rs, conds), env) <==> AllHold(conds, env) {
      UnprovedHold(o, rs, conds, env);
    }
  }

  /** Where the ranges hold, the conditions that they prove add nothing. */
  lemma {:induction false} UnprovedHold(o: RangeOracle, rs: Ranges, conds: seq<Expr>, env: Env)
    requires RangeOracleSound(o) && InAll(rs, env)
    ensures AllHold(Unproved(o, rs, conds), env) <==> AllHold(conds, env)
  {
    if |conds| > 0 {
      var c, rest := conds[0], conds[1..];
      UnprovedHold(o, rs, rest, env);
      assert conds == [c] + rest;
      AllHoldAppend([c], rest, env);
      AllHoldAppend([c], Unproved(o, rs, rest), env);
      assert AllHold([c], env) <==> Holds([c][0], env);
      if o.prove(rs, c) {
        ProvedInAll(o.prove, rs, c, env);
        assert Unproved(o, rs, conds) == Unproved(o, rs, rest);
      }
    }
  }

  lemma {:induction false} SameSolutions(sys: IntConstraints, found: Ranges, rs: Ranges, env: Env)
    requires Tracks(sys, 0, found, rs) && SolutionsInRange(sys, rs) && OthersInRange(sys.variables, sys.ranges, env)
    ensures InAll(rs, env) <==> InAll(found, env)
    ensures Satisfies(sys, env) ==> InAll(found, env)
  {
    assert sys.variables[0..] == sys.variables;
    assert forall v :: v in found ==> v in rs && rs[v] == found[v];
    if InAll(found, env) {
      forall v | v in rs ensures InRange(rs[v], Get(env, v), env) {
        if v !in found { assert v in sys.ranges && v !in sys.variables; }
      }
    }
  }
}
