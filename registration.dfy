/**
 * The registration graph walk: choosing a constructor for a class, and
 * recording it after all the classes it depends on (Context.registerClassDependencies).
 * These functions specify the methods of `Container.Context`.
 */
module Registration {
  import opened Model

  /** The registry after a registration, and the error that stopped it, if any. */
  datatype RegOutcome = RegOutcome(registry: map<TypeId, Ctor>, failure: Option<Error>)

  /**
   * Chooses how `t` is built: a class without the injectable marker is refused;
   * a constructor marked for injection supplies the dependencies as its
   * parameter types; otherwise a zero-parameter constructor is required and the
   * fields marked for injection are the dependencies.
   */
  function Select(env: Env, t: TypeId): (r: Result<Strategy>)
    ensures r.Ok? ==> t in env.types && Info(env, t).injectable
    ensures r.Err? <==> !Info(env, t).injectable || (Info(env, t).injectCtor.None? && !Info(env, t).hasZeroArgCtor)
    ensures r.Err? ==> r.error == if Info(env, t).injectable then NoSuitableConstructor else UnsupportedClass
    ensures r.Ok? && Info(env, t).injectCtor.Some? ==>
              r.value.ctor.params == Info(env, t).injectCtor.value && r.value.deps == r.value.ctor.params
    ensures r.Ok? && Info(env, t).injectCtor.None? ==>
              r.value.ctor.params == [] && r.value.deps == Info(env, t).injectFields
  {
    var info := Info(env, t);
    if !info.injectable then Err(UnsupportedClass)
    else match info.injectCtor
      case Some(params) => Ok(Strategy(Ctor(params), params))
      case None =>
        if info.hasZeroArgCtor then Ok(Strategy(Ctor([]), info.injectFields))
        else Err(NoSuitableConstructor)
  }

  /** The classes `t` depends on, or none if `t` cannot be registered. */
  function Deps(env: Env, t: TypeId): seq<TypeId>
  {
    if Select(env, t).Ok? then Select(env, t).value.deps else []
  }

  /** `k` is recorded with the constructor chosen for it, and everything it depends on is recorded too. */
  ghost predicate Recorded(env: Env, reg: map<TypeId, Ctor>, k: TypeId)
    requires k in reg
  {
    && Select(env, k).Ok?
    && Select(env, k).value.ctor == reg[k]
    && forall d :: d in Deps(env, k) ==> d in reg
  }

  /** The registry invariant: every entry is recorded properly and the key set is closed under dependencies. */
  ghost predicate RegistryOk(env: Env, reg: map<TypeId, Ctor>)
  {
    forall k :: k in reg ==> Recorded(env, reg, k)
  }

  /**
   * Registers `t` and, before it, every class it depends on. `visiting` holds
   * the classes whose registration is under way; meeting one of them again is
   * a cycle.
   */
  function Register(env: Env, reg: map<TypeId, Ctor>, visiting: set<TypeId>, t: TypeId): (o: RegOutcome)
    decreases env.types.Keys - visiting, 0
    ensures Extends(reg, o.registry)
    ensures o.failure.None? ==> t in o.registry
    ensures t !in reg && o.failure.Some? ==> t !in o.registry
    ensures forall k :: k in visiting && k !in reg ==> k !in o.registry
    ensures RegistryOk(env, reg) ==> RegistryOk(env, o.registry)
  {
    match Select(env, t)
    case Err(e) => RegOutcome(reg, Some(e))
    case Ok(s) =>
      if t in reg then RegOutcome(reg, None)
      else if t in visiting then RegOutcome(reg, Some(CyclicDependency))
      else
        var o := RegisterEach(env, reg, visiting + {t}, s.deps);
        if o.failure.Some? then o
        else
          var reg' := o.registry[t := s.ctor];
          assert RegistryOk(env, o.registry) ==> RegistryOk(env, reg') by {
            if RegistryOk(env, o.registry) {
              forall k | k in reg' ensures Recorded(env, reg', k) {
                if k != t { assert Recorded(env, o.registry, k); }
              }
            }
          }
          RegOutcome(reg', None)
  }

  /** Registers, left to right, every class of `deps` not registered yet; stops at the first failure. */
  function RegisterEach(env: Env, reg: map<TypeId, Ctor>, visiting: set<TypeId>, deps: seq<TypeId>): (o: RegOutcome)
    decreases env.types.Keys - visiting, 1, |deps|
    ensures Extends(reg, o.registry)
    ensures o.failure.None? ==> forall d :: d in deps ==> d in o.registry
    ensures forall k :: k in visiting && k !in reg ==> k !in o.registry
    ensures RegistryOk(env, reg) ==> RegistryOk(env, o.registry)
  {
    if deps == [] then RegOutcome(reg, None)
    else if deps[0] in reg then RegisterEach(env, reg, visiting, deps[1..])
    else
      var o := Register(env, reg, visiting, deps[0]);
      if o.failure.Some? then o
      else RegisterEach(env, o.registry, visiting, deps[1..])
  }

  /** Registers every class the scanner found, in its order, each walk starting afresh; stops at the first failure. */
  function RegisterAll(env: Env, reg: map<TypeId, Ctor>, types: seq<TypeId>): (o: RegOutcome)
    decreases |types|
    ensures Extends(reg, o.registry)
    ensures o.failure.None? ==> forall t :: t in types ==> t in o.registry
    ensures RegistryOk(env, reg) ==> RegistryOk(env, o.registry)
  {
    if types == [] then RegOutcome(reg, None)
    else
      var o := Register(env, reg, {}, types[0]);
      if o.failure.Some? then o
      else RegisterAll(env, o.registry, types[1..])
  }

  // ---------------------------------------------------------------------------
  // Properties of registration
  // ---------------------------------------------------------------------------

  /** A class without the injectable marker is refused before the registry is touched. */
  lemma RegisterRejectsUnmarked(env: Env, reg: map<TypeId, Ctor>, visiting: set<TypeId>, t: TypeId)
    requires !Info(env, t).injectable
    ensures Register(env, reg, visiting, t) == RegOutcome(reg, Some(UnsupportedClass))
  {
  }

  /** An injectable class with neither an injection constructor nor a zero-parameter one is refused, even if registered. */
  lemma RegisterRejectsWithoutConstructor(env: Env, reg: map<TypeId, Ctor>, visiting: set<TypeId>, t: TypeId)
    requires Info(env, t).injectable && Info(env, t).injectCtor.None? && !Info(env, t).hasZeroArgCtor
    ensures Register(env, reg, visiting, t) == RegOutcome(reg, Some(NoSuitableConstructor))
  {
  }

  /** Registering a class already in a well-formed registry changes nothing and succeeds. */
  lemma RegisterIdempotent(env: Env, reg: map<TypeId, Ctor>, visiting: set<TypeId>, t: TypeId)
    requires RegistryOk(env, reg) && t in reg
    ensures Register(env, reg, visiting, t) == RegOutcome(reg, None)
  {
    assert Recorded(env, reg, t);
  }

  /** After a successful registration, registering the same class again is a no-op. */
  lemma RegisterTwice(env: Env, reg: map<TypeId, Ctor>, visiting: set<TypeId>, visiting': set<TypeId>, t: TypeId)
    requires RegistryOk(env, reg)
    requires Register(env, reg, visiting, t).failure.None?
    ensures var reg' := Register(env, reg, visiting, t).registry;
            Register(env, reg', visiting', t) == RegOutcome(reg', None)
  {
    RegisterIdempotent(env, Register(env, reg, visiting, t).registry, visiting', t);
  }

  /** Each class of `p` is a dependency of the one before it. */
  ghost predicate IsDependencyPath(env: Env, p: seq<TypeId>)
  {
    forall i :: 0 <= i < |p| - 1 ==> p[i + 1] in Deps(env, p[i])
  }

  /** A well-formed registry holding the start of a dependency path holds the whole path. */
  lemma {:induction false} ClosedUnderDependencies(env: Env, reg: map<TypeId, Ctor>, p: seq<TypeId>)
    requires RegistryOk(env, reg)
    requires |p| > 0 && p[0] in reg && IsDependencyPath(env, p)
    ensures forall i :: 0 <= i < |p| ==> p[i] in reg
  {
    if |p| > 1 {
      assert Recorded(env, reg, p[0]);
      assert p[1] in Deps(env, p[0]);
      assert IsDependencyPath(env, p[1..]) by {
        forall i | 0 <= i < |p[1..]| - 1 ensures p[1..][i + 1] in Deps(env, p[1..][i]) {
          assert p[1..][i] == p[i + 1] && p[1..][i + 1] == p[i + 2];
        }
      }
      ClosedUnderDependencies(env, reg, p[1..]);
      forall i | 1 <= i < |p| ensures p[i] in reg {
        assert p[i] == p[1..][i - 1];
      }
    }
  }

  /** Post-order completion: after `t` is registered, so is every class it transitively depends on. */
  lemma RegisterCoversTransitiveDeps(env: Env, reg: map<TypeId, Ctor>, visiting: set<TypeId>, p: seq<TypeId>)
    requires RegistryOk(env, reg)
    requires |p| > 0 && IsDependencyPath(env, p)
    requires Register(env, reg, visiting, p[0]).failure.None?
    ensures forall i :: 0 <= i < |p| ==> p[i] in Register(env, reg, visiting, p[0]).registry
  {
    ClosedUnderDependencies(env, Register(env, reg, visiting, p[0]).registry, p);
  }

  /**
   * Post-order insertion: a successful registration of a new class first
   * registers its dependencies, leaving the class itself out, and only then
   * records the class.
   */
  lemma RegisterInsertsLast(env: Env, reg: map<TypeId, Ctor>, visiting: set<TypeId>, t: TypeId)
    requires t !in reg
    requires Register(env, reg, visiting, t).failure.None?
    ensures Select(env, t).Ok? && t !in visiting
    ensures var s := Select(env, t).value;
            var before := RegisterEach(env, reg, visiting + {t}, s.deps);
            && before.failure.None?
            && t !in before.registry
            && (forall d :: d in s.deps ==> d in before.registry)
            && Register(env, reg, visiting, t).registry == before.registry[t := s.ctor]
  {
  }

  /** A dependency without the injectable marker makes registration fail, and the dependent class is not recorded. */
  lemma UnmarkedDependencyFails(env: Env, reg: map<TypeId, Ctor>, visiting: set<TypeId>, t: TypeId, d: TypeId)
    requires RegistryOk(env, reg) && t !in reg
    requires d in Deps(env, t) && !Info(env, d).injectable
    ensures Register(env, reg, visiting, t).failure.Some?
    ensures t !in Register(env, reg, visiting, t).registry
  {
  }

  /** Walking `deps` whose first unregistered entry lacks the injectable marker fails with `UnsupportedClass` and registers nothing. */
  lemma {:induction false} RegisterEachStopsAtUnmarked(env: Env, reg: map<TypeId, Ctor>, visiting: set<TypeId>, deps: seq<TypeId>, i: nat)
    requires i < |deps|
    requires forall j :: 0 <= j < i ==> deps[j] in reg
    requires deps[i] !in reg && !Info(env, deps[i]).injectable
    ensures RegisterEach(env, reg, visiting, deps) == RegOutcome(reg, Some(UnsupportedClass))
  {
    if i > 0 {
      assert deps[0] in reg;
      RegisterEachStopsAtUnmarked(env, reg, visiting, deps[1..], i - 1);
    }
  }

  /** The error kind of a bad dependency: when the first unregistered dependency is unmarked, registration fails with `UnsupportedClass` and leaves the registry as it was. */
  lemma UnmarkedDependencyIsUnsupported(env: Env, reg: map<TypeId, Ctor>, visiting: set<TypeId>, t: TypeId, i: nat)
    requires t !in reg && t !in visiting && Select(env, t).Ok?
    requires i < |Deps(env, t)|
    requires forall j :: 0 <= j < i ==> Deps(env, t)[j] in reg
    requires Deps(env, t)[i] !in reg && !Info(env, Deps(env, t)[i]).injectable
    ensures Register(env, reg, visiting, t) == RegOutcome(reg, Some(UnsupportedClass))
  {
    RegisterEachStopsAtUnmarked(env, reg, visiting + {t}, Deps(env, t), i);
  }

  /** After a successful pass over the scanned classes, each of them and everything it transitively depends on is registered. */
  lemma RegisterAllCoversTransitiveDeps(env: Env, reg: map<TypeId, Ctor>, types: seq<TypeId>, p: seq<TypeId>)
    requires RegistryOk(env, reg)
    requires RegisterAll(env, reg, types).failure.None?
    requires |p| > 0 && p[0] in types && IsDependencyPath(env, p)
    ensures forall i :: 0 <= i < |p| ==> p[i] in RegisterAll(env, reg, types).registry
  {
    ClosedUnderDependencies(env, RegisterAll(env, reg, types).registry, p);
  }

  // ---------------------------------------------------------------------------
  // What a failed registration means
  // ---------------------------------------------------------------------------

  /** `p` is a dependency path that starts at `t`. */
  ghost predicate PathFrom(env: Env, t: TypeId, p: seq<TypeId>)
  {
    |p| > 0 && p[0] == t && IsDependencyPath(env, p)
  }

  /** A path from `t` whose last class is one in progress or one the path has already met. */
  ghost predicate ReturnsTo(env: Env, visiting: set<TypeId>, t: TypeId, p: seq<TypeId>)
  {
    PathFrom(env, t, p) && (p[|p| - 1] in visiting || p[|p| - 1] in p[..|p| - 1])
  }

  /** Putting a class in front of a path from one of its dependencies gives a path from that class. */
  lemma PrependPath(env: Env, t: TypeId, q: seq<TypeId>)
    requires |q| > 0 && PathFrom(env, q[0], q) && q[0] in Deps(env, t)
    ensures PathFrom(env, t, [t] + q)
    ensures ([t] + q)[|q|] == q[|q| - 1]
    ensures forall j :: 0 <= j < |q| - 1 ==> q[j] in ([t] + q)[..|q|]
  {
    var p := [t] + q;
    forall i | 0 <= i < |p| - 1 ensures p[i + 1] in Deps(env, p[i]) {
      if i > 0 { assert p[i] == q[i - 1] && p[i + 1] == q[i]; }
    }
    forall j | 0 <= j < |q| - 1 ensures q[j] in p[..|q|] {
      assert p[..|q|][j + 1] == q[j];
    }
  }

  /**
   * The cycle guard reports only real cycles: when registering `t` fails with
   * `CyclicDependency`, some dependency path from `t` ends at a class still in
   * progress or at a class it has already passed through.
   */
  lemma {:induction false} CycleIsReal(env: Env, reg: map<TypeId, Ctor>, visiting: set<TypeId>, t: TypeId)
    requires Register(env, reg, visiting, t).failure == Some(CyclicDependency)
    decreases env.types.Keys - visiting, 0
    ensures exists p :: ReturnsTo(env, visiting, t, p)
  {
    assert Select(env, t).Ok?;
    var s := Select(env, t).value;
    if t in visiting {
      assert ReturnsTo(env, visiting, t, [t]);
    } else {
      EachCycleIsReal(env, reg, visiting + {t}, s.deps);
      var d, q :| d in s.deps && ReturnsTo(env, visiting + {t}, d, q);
      PrependPath(env, t, q);
      var p := [t] + q;
      if q[|q| - 1] == t {
        assert p[0] in p[..|p| - 1];
      }
      assert ReturnsTo(env, visiting, t, p);
    }
  }

  /** A walk over `deps` that fails with `CyclicDependency` does so through a path from one of them. */
  lemma {:induction false} EachCycleIsReal(env: Env, reg: map<TypeId, Ctor>, visiting: set<TypeId>, deps: seq<TypeId>)
    requires RegisterEach(env, reg, visiting, deps).failure == Some(CyclicDependency)
    decreases env.types.Keys - visiting, 1, |deps|
    ensures exists d, p :: d in deps && ReturnsTo(env, visiting, d, p)
  {
    assert deps != [];
    if deps[0] in reg {
      EachCycleIsReal(env, reg, visiting, deps[1..]);
      var d, p :| d in deps[1..] && ReturnsTo(env, visiting, d, p);
      assert d in deps;
    } else {
      var o := Register(env, reg, visiting, deps[0]);
      if o.failure.Some? {
        CycleIsReal(env, reg, visiting, deps[0]);
      } else {
        EachCycleIsReal(env, o.registry, visiting, deps[1..]);
        var d, p :| d in deps[1..] && ReturnsTo(env, visiting, d, p);
        assert d in deps;
      }
    }
  }

  /** From an empty in-progress set, `CyclicDependency` means a class reachable from `t` depends on itself. */
  lemma CyclicDependencyMeansCycle(env: Env, reg: map<TypeId, Ctor>, t: TypeId)
    requires Register(env, reg, {}, t).failure == Some(CyclicDependency)
    ensures exists p :: PathFrom(env, t, p) && |p| > 1 && p[|p| - 1] in p[..|p| - 1]
  {
    CycleIsReal(env, reg, {}, t);
    var p :| ReturnsTo(env, {}, t, p);
    assert |p| > 1;
  }

  /**
   * Every other failure has its cause on a dependency path from `t`: the last
   * class of that path is refused by selection with exactly that error.
   */
  lemma {:induction false} FailureIsTraced(env: Env, reg: map<TypeId, Ctor>, visiting: set<TypeId>, t: TypeId)
    requires Register(env, reg, visiting, t).failure.Some?
    requires Register(env, reg, visiting, t).failure != Some(CyclicDependency)
    decreases env.types.Keys - visiting, 0
    ensures exists p :: PathFrom(env, t, p) && Select(env, p[|p| - 1]) == Err(Register(env, reg, visiting, t).failure.value)
  {
    if Select(env, t).Err? {
      assert PathFrom(env, t, [t]);
    } else {
      var s := Select(env, t).value;
      EachFailureIsTraced(env, reg, visiting + {t}, s.deps);
      var e := RegisterEach(env, reg, visiting + {t}, s.deps).failure.value;
      var d, q :| d in s.deps && PathFrom(env, d, q) && Select(env, q[|q| - 1]) == Err(e);
      PrependPath(env, t, q);
      assert PathFrom(env, t, [t] + q);
    }
  }

  /** A walk over `deps` that fails other than by a cycle does so at a class reachable from one of them. */
  lemma {:induction false} EachFailureIsTraced(env: Env, reg: map<TypeId, Ctor>, visiting: set<TypeId>, deps: seq<TypeId>)
    requires RegisterEach(env, reg, visiting, deps).failure.Some?
    requires RegisterEach(env, reg, visiting, deps).failure != Some(CyclicDependency)
    decreases env.types.Keys - visiting, 1, |deps|
    ensures exists d, p :: d in deps && PathFrom(env, d, p) &&
                           Select(env, p[|p| - 1]) == Err(RegisterEach(env, reg, visiting, deps).failure.value)
  {
    assert deps != [];
    var e := RegisterEach(env, reg, visiting, deps).failure.value;
    if deps[0] in reg {
      EachFailureIsTraced(env, reg, visiting, deps[1..]);
      var d, p :| d in deps[1..] && PathFrom(env, d, p) && Select(env, p[|p| - 1]) == Err(e);
      assert d in deps;
    } else {
      var o := Register(env, reg, visiting, deps[0]);
      if o.failure.Some? {
        FailureIsTraced(env, reg, visiting, deps[0]);
      } else {
        EachFailureIsTraced(env, o.registry, visiting, deps[1..]);
        var d, p :| d in deps[1..] && PathFrom(env, d, p) && Select(env, p[|p| - 1]) == Err(e);
        assert d in deps;
      }
    }
  }

  /**
   * A failed pass over the scanned classes is explained by one of them: either
   * it reaches a class that depends on itself and the error is
   * `CyclicDependency`, or it reaches a class that selection refuses with
   * exactly the reported error.
   */
  lemma {:induction false} RegisterAllFailureIsExplained(env: Env, reg: map<TypeId, Ctor>, types: seq<TypeId>)
    requires RegisterAll(env, reg, types).failure.Some?
    decreases |types|
    ensures var e := RegisterAll(env, reg, types).failure.value;
            exists t, p :: t in types && PathFrom(env, t, p) &&
              if e == CyclicDependency then |p| > 1 && p[|p| - 1] in p[..|p| - 1]
              else Select(env, p[|p| - 1]) == Err(e)
  {
    var o := Register(env, reg, {}, types[0]);
    var e := RegisterAll(env, reg, types).failure.value;
    if o.failure.Some? {
      if e == CyclicDependency {
        CyclicDependencyMeansCycle(env, reg, types[0]);
      } else {
        FailureIsTraced(env, reg, {}, types[0]);
      }
    } else {
      RegisterAllFailureIsExplained(env, o.registry, types[1..]);
      var t, p :| t in types[1..] && PathFrom(env, t, p) &&
                  if e == CyclicDependency then |p| > 1 && p[|p| - 1] in p[..|p| - 1]
                  else Select(env, p[|p| - 1]) == Err(e);
      assert t in types;
    }
  }
}
