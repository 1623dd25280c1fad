/** Scoped constraints of the bound and modular analyzers (ConstraintContext in
    src/arith/analyzer.cc, EnterConstraint in src/arith/const_int_bound.cc and
    src/arith/modular_set.cc). */
module ConstraintScope {
  import opened PrimExprs
  import opened Wrappers
  import Bounds = ConstIntBound
  import Classes = ModularSet

  /** How to leave a scope: the sizes of the bound stack, and the variable's former class. */
  datatype Recovery = Recovery(sizes: Option<(nat, nat)>, former: Option<(nat, Classes.Entry)>)

  /** The remainders compared in a constraint have positive moduli. */
  predicate PositiveModulus(c: Expr) {
    Classes.DetectClass(c).Some? ==> Classes.DetectClass(c).value.1 > 0
  }

  class Analyzer {
    const bits: nat
    var vars: Bounds.Bindings
    var infos: seq<Bounds.BoundInfo>
    var classes: Classes.Classes

    constructor (bits: nat, vars: Bounds.Bindings, classes: Classes.Classes)
      ensures this.bits == bits && this.vars == vars && this.classes == classes && infos == []
    {
      this.bits, this.vars, this.infos, this.classes := bits, vars, [], classes;
    }

    // ----- queries ---------------------------------------------------------------------------

    function BoundOf(e: Expr): Option<Bounds.Entry>
      reads this
    {
      Bounds.Visit(e, vars, infos, bits)
    }

    function ClassOf(e: Expr): Option<Classes.Entry>
      reads this
    {
      Classes.Visit(e, classes, NonNegative(vars, infos, bits))
    }

    /** What the analyzer holds is true of env. */
    ghost predicate Represents(env: Env)
      reads this
    {
      Bounds.KnownVars(vars, env) && Bounds.KnownInfos(infos, env) && Classes.KnownClasses(classes, env)
    }

    /** It is true of all the given valuations. */
    ghost predicate SoundFor(valuations: iset<Env>)
      reads this
    {
      forall env :: env in valuations ==> Represents(env)
    }

    /** Both queries are right about every expression, at every valuation the state represents. */
    lemma {:induction false} QuerySound(e: Expr, env: Env)
      requires bits >= 2 && Represents(env) && Bounds.Proper(e, env, bits)
      ensures BoundOf(e).Some? && Bounds.Covers(BoundOf(e).value, Eval(e, env))
      ensures ClassOf(e).Some? && Classes.In(ClassOf(e).value, Eval(e, env))
    {
      Bounds.VisitSound(e, vars, infos, bits, env);
      ProperIsDefined(e, vars, infos, bits, env);
      Classes.VisitSound(e, classes, NonNegative(vars, infos, bits), env);
    }

    // ----- scopes ----------------------------------------------------------------------------

    /** The bound analyzer pushes what it detects. */
    method EnterBound(c: Expr) returns (sizes: Option<(nat, nat)>)
      modifies this
      ensures vars == old(vars) && classes == old(classes) && infos == old(infos) + Bounds.DetectBoundInfo(c)
      ensures sizes == if Bounds.DetectBoundInfo(c) == [] then None else Some((|old(infos)|, |infos|))
    {
      var detected := Bounds.DetectBoundInfo(c);
      if |detected| == 0 {
        sizes := None;
      } else {
        sizes := Some((|infos|, |infos| + |detected|));
        infos := infos + detected;
      }
    }

    /** The modular analyzer narrows the class of the variable. */
    method EnterClass(c: Expr) returns (former: Option<(nat, Classes.Entry)>)
      requires PositiveModulus(c)
      modifies this
      ensures vars == old(vars) && infos == old(infos)
      ensures Classes.DetectClass(c).None? ==> former.None? && classes == old(classes)
      ensures Classes.DetectClass(c).Some? ==>
                var (v, coeff, base) := Classes.DetectClass(c).value;
                former == Some((v, Classes.Lookup(old(classes), v))) &&
                classes == old(classes)[v := Classes.Narrowed(old(classes), v, coeff, base)]
    {
      var found := Classes.DetectClass(c);
      if found.None? {
        former := None;
      } else {
        var (v, coeff, base) := found.value;
        former := Some((v, Classes.Lookup(classes, v)));
        classes := classes[v := Classes.Narrowed(classes, v, coeff, base)];
      }
    }

    /** Leaving a bound scope; the size must be what entering made it. */
    method ExitBound(sizes: Option<(nat, nat)>)
      requires sizes.Some? ==> |infos| == sizes.value.1 && sizes.value.0 <= sizes.value.1
      modifies this
      ensures vars == old(vars) && classes == old(classes)
      ensures infos == if sizes.Some? then old(infos)[..sizes.value.0] else old(infos)
    {
      if sizes.Some? { infos := infos[..sizes.value.0]; }
    }

    method ExitClass(former: Option<(nat, Classes.Entry)>)
      modifies this
      ensures vars == old(vars) && infos == old(infos)
      ensures classes == if former.Some? then old(classes)[former.value.0 := former.value.1] else old(classes)
    {
      if former.Some? { classes := classes[former.value.0 := former.value.1]; }
    }
  }

  /** CanProveGreaterEqual(e, 0) from the bounds. */
  function NonNegative(vars: Bounds.Bindings, infos: seq<Bounds.BoundInfo>, bits: nat): Expr -> bool {
    e => var r := Bounds.Visit(e, vars, infos, bits); r.Some? && r.value.min >= 0
  }

  lemma {:induction false} ProperIsDefined(e: Expr, vars: Bounds.Bindings, infos: seq<Bounds.BoundInfo>, bits: nat,
      env: Env)
    requires bits >= 2 && Bounds.Proper(e, env, bits) && Bounds.KnownVars(vars, env) && Bounds.KnownInfos(infos, env)
    ensures Classes.Defined(e, env, NonNegative(vars, infos, bits))
  {
    match e
    case Bin(op, x, y) =>
      if Bounds.Arithmetic(op) {
        ProperIsDefined(x, vars, infos, bits, env);
        ProperIsDefined(y, vars, infos, bits, env);
        Bounds.VisitSound(x, vars, infos, bits, env);
      }
    case Select(_, t, f) =>
      ProperIsDefined(t, vars, infos, bits, env);
      ProperIsDefined(f, vars, infos, bits, env);
    case _ =>
  }

  // ----- well-nested runs --------------------------------------------------------------------

  /** A well-nested run: scopes one after the other, each with a run inside. */
  datatype Run = Finished | Scope(constraint: Expr, inner: Run, rest: Run)

  predicate PositiveModuli(r: Run) {
    r.Scope? ==> PositiveModulus(r.constraint) && PositiveModuli(r.inner) && PositiveModuli(r.rest)
  }

  /** The valuations among these where the constraint holds. */
  ghost function Constrained(valuations: iset<Env>, c: Expr): iset<Env> {
    iset env | env in valuations && Holds(c, env) && Bounds.ProperConstraint(c, env)
  }

  /** The same answers to every query. */
  ghost predicate SameAnswers(infos: seq<Bounds.BoundInfo>, classes: Classes.Classes, infos': seq<Bounds.BoundInfo>,
      classes': Classes.Classes)
  {
    infos == infos' && forall v :: Classes.Lookup(classes, v) == Classes.Lookup(classes', v)
  }

  /** ConstraintContext: entering stores how to leave. */
  class ConstraintContext {
    const analyzer: Analyzer
    const constraint: Expr
    var exit: Option<Recovery>

    constructor (analyzer: Analyzer, constraint: Expr)
      ensures this.analyzer == analyzer && this.constraint == constraint && exit.None?
    {
      this.analyzer, this.constraint, this.exit := analyzer, constraint, None;
    }

    method EnterWithScope(ghost valuations: iset<Env>)
      requires exit.None? && PositiveModulus(constraint) && analyzer.SoundFor(valuations)
      modifies this, analyzer
      ensures analyzer.vars == old(analyzer.vars) && analyzer.SoundFor(Constrained(valuations, constraint))
      ensures exit.Some? && Entered(exit.value, constraint, old(analyzer.infos), old(analyzer.classes), analyzer.infos,
                analyzer.classes)
    {
      ghost var infos0, classes0, vars0 := analyzer.infos, analyzer.classes, analyzer.vars;
      var sizes := analyzer.EnterBound(constraint);
      var former := analyzer.EnterClass(constraint);
      exit := Some(Recovery(sizes, former));
      forall env | env in Constrained(valuations, constraint) ensures analyzer.Represents(env) {
        EnteredKnown(constraint, infos0, classes0, analyzer.infos, analyzer.classes, env);
      }
    }

    /** The size check passes, and every query answers as before the scope. */
    method ExitWithScope(ghost infos0: seq<Bounds.BoundInfo>, ghost classes0: Classes.Classes,
        ghost classes1: Classes.Classes)
      requires exit.Some? && Entered(exit.value, constraint, infos0, classes0, analyzer.infos, classes1)
      requires forall v :: Classes.Lookup(classes1, v) == Classes.Lookup(analyzer.classes, v)
      modifies analyzer
      ensures analyzer.vars == old(analyzer.vars) && SameAnswers(infos0, classes0, analyzer.infos, analyzer.classes)
    {
      ghost var infos1, now := analyzer.infos, analyzer.classes;
      ExitRestores(exit.value, constraint, infos0, classes0, infos1, classes1, now);
      analyzer.ExitClass(exit.value.former);
      analyzer.ExitBound(exit.value.sizes);
    }
  }

  /** The state after entering a scope, and what to leave it with. */
  ghost predicate Entered(r: Recovery, c: Expr, infos: seq<Bounds.BoundInfo>, classes: Classes.Classes,
      infos': seq<Bounds.BoundInfo>, classes': Classes.Classes)
  {
    && infos' == infos + Bounds.DetectBoundInfo(c)
    && r.sizes == (if Bounds.DetectBoundInfo(c) == [] then None else Some((|infos|, |infos'|)))
    && (Classes.DetectClass(c).None? ==> r.former.None? && classes' == classes)
    && (Classes.DetectClass(c).Some? ==>
          var (v, coeff, base) := Classes.DetectClass(c).value;
          coeff > 0 && r.former == Some((v, Classes.Lookup(classes, v))) &&
          classes' == classes[v := Classes.Narrowed(classes, v, coeff, base)])
  }

  function Popped(r: Recovery, infos: seq<Bounds.BoundInfo>): seq<Bounds.BoundInfo>
    requires r.sizes.Some? ==> r.sizes.value.0 <= |infos|
  {
    if r.sizes.Some? then infos[..r.sizes.value.0] else infos
  }

  function Restored(r: Recovery, classes: Classes.Classes): Classes.Classes {
    if r.former.Some? then classes[r.former.value.0 := r.former.value.1] else classes
  }

  /** Leaving undoes entering, up to entries that say nothing. */
  lemma {:induction false} ExitRestores(r: Recovery, c: Expr, infos: seq<Bounds.BoundInfo>, classes: Classes.Classes,
      infos': seq<Bounds.BoundInfo>, classes': Classes.Classes, now: Classes.Classes)
    requires Entered(r, c, infos, classes, infos', classes')
    requires forall v :: Classes.Lookup(classes', v) == Classes.Lookup(now, v)
    ensures r.sizes.Some? ==> r.sizes.value.0 <= |infos'| == r.sizes.value.1
    ensures SameAnswers(infos, classes, Popped(r, infos'), Restored(r, now))
  {
    forall v ensures Classes.Lookup(classes, v) == Classes.Lookup(Restored(r, now), v) {
      assert Classes.Lookup(classes', v) == Classes.Lookup(now, v);
    }
  }

  /** What is true of the classes is true of any classes with the same lookups. */
  lemma {:induction false} KnownLookup(classes: Classes.Classes, classes': Classes.Classes, env: Env)
    requires Classes.KnownClasses(classes, env) && forall v :: Classes.Lookup(classes, v) == Classes.Lookup(classes', v)
    ensures Classes.KnownClasses(classes', env)
  {
    forall v | v in classes' ensures Classes.In(classes'[v], Get(env, v)) {
      assert classes'[v] == Classes.Lookup(classes', v) == Classes.Lookup(classes, v);
      Classes.EverythingIn(Get(env, v));
    }
  }

  lemma {:induction false} SameAnswersTrans(i1: seq<Bounds.BoundInfo>, c1: Classes.Classes, i2: seq<Bounds.BoundInfo>,
      c2: Classes.Classes, i3: seq<Bounds.BoundInfo>, c3: Classes.Classes)
    requires SameAnswers(i1, c1, i2, c2) && SameAnswers(i2, c2, i3, c3)
    ensures SameAnswers(i1, c1, i3, c3)
  {
    forall v ensures Classes.Lookup(c1, v) == Classes.Lookup(c3, v) {
      assert Classes.Lookup(c1, v) == Classes.Lookup(c2, v);
    }
  }

  lemma {:induction false} EnteredKnown(c: Expr, infos: seq<Bounds.BoundInfo>, classes: Classes.Classes,
      infos': seq<Bounds.BoundInfo>, classes': Classes.Classes, env: Env)
    requires Bounds.KnownInfos(infos, env) && Classes.KnownClasses(classes, env)
    requires Holds(c, env) && Bounds.ProperConstraint(c, env) && PositiveModulus(c)
    requires infos' == infos + Bounds.DetectBoundInfo(c)
    requires Classes.DetectClass(c).None? ==> classes' == classes
    requires Classes.DetectClass(c).Some? ==>
               var (v, coeff, base) := Classes.DetectClass(c).value;
               classes' == classes[v := Classes.Narrowed(classes, v, coeff, base)]
    ensures Bounds.KnownInfos(infos', env) && Classes.KnownClasses(classes', env)
  {
    Bounds.DetectSound(c, env);
    if Classes.DetectClass(c).Some? { Classes.NarrowedSound(classes, c, env); }
  }

  /** Over every well-nested run no exit check fails, every scope is sound for the constraints that
      are active in it, and at the end all queries answer as at the start. */
  method Execute(a: Analyzer, r: Run, ghost valuations: iset<Env>)
    requires PositiveModuli(r) && a.SoundFor(valuations)
    modifies a
    ensures a.vars == old(a.vars) && SameAnswers(old(a.infos), old(a.classes), a.infos, a.classes)
    ensures forall e: Expr :: a.BoundOf(e) == old(a.BoundOf(e)) && a.ClassOf(e) == old(a.ClassOf(e))
    ensures a.SoundFor(valuations)
    decreases r
  {
    if r.Finished? { return; }
    ghost var infos0, classes0 := a.infos, a.classes;
    var ctx := new ConstraintContext(a, r.constraint);
    ctx.EnterWithScope(valuations);
    ghost var classes1 := a.classes;
    Execute(a, r.inner, Constrained(valuations, r.constraint));
    ctx.ExitWithScope(infos0, classes0, classes1);
    ghost var infos2, classes2 := a.infos, a.classes;
    forall env | env in valuations ensures a.Represents(env) { KnownLookup(classes0, classes2, env); }
    Execute(a, r.rest, valuations);
    SameAnswersTrans(infos0, classes0, infos2, classes2, a.infos, a.classes);
    forall env | env in valuations ensures a.Represents(env) { KnownLookup(classes0, a.classes, env); }
    forall e: Expr ensures a.BoundOf(e) == old(a.BoundOf(e)) && a.ClassOf(e) == old(a.ClassOf(e)) {
      Classes.VisitLookup(e, classes0, a.classes, NonNegative(a.vars, a.infos, a.bits));
    }
  }
}
