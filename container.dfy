/**
 * The container object (Context.java): the registry of constructors, the
 * singleton cache and the factory registry as fields, changed in place by
 * registration and resolution. Each method is proved to leave the state the
 * corresponding function of `Registration`, `Factories` or `Resolution`
 * describes.
 */
module Container {
  import opened Model
  import opened Registration
  import opened Resolution
  import opened Factories

  /** State after `registerClasses`: registry, factory registry, store, and the error that stopped it, if any. */
  datatype Setup = Setup(
    registry: map<TypeId, Ctor>,
    definitions: Option<seq<Definition>>,
    store: Store,
    failure: Option<Error>)

  /**
   * Registers every scanned injectable class, then the factories. The first
   * failure aborts the rest: a failed class walk leaves the factories as they
   * were, and a factory that cannot be instantiated leaves the factory
   * registry unset.
   */
  function RegisterClassesSpec(env: Env, reg: map<TypeId, Ctor>, defs: Option<seq<Definition>>, st: Store): (s: Setup)
    requires StoreOk(st)
    ensures StoreOk(s.store) && Extends(st.heap, s.store.heap) && s.store.instances == st.instances
    ensures Extends(reg, s.registry) && (RegistryOk(env, reg) ==> RegistryOk(env, s.registry))
    ensures s.failure.None? <==> RegisterAll(env, reg, env.injectable).failure.None? && Instantiable(env, env.blueprints)
    ensures s.failure.None? ==> (forall t :: t in env.injectable ==> t in s.registry) && s.definitions.Some?
    ensures s.failure.Some? ==> s.definitions == defs
  {
    var r := RegisterAll(env, reg, env.injectable);
    HoldersSucceedExactly(env, st, env.blueprints);
    if r.failure.Some? then Setup(r.registry, defs, st, r.failure)
    else
      var h := CreateHolders(env, st, env.blueprints);
      if h.res.Err? then Setup(r.registry, defs, h.store, Some(h.res.error))
      else Setup(r.registry, Some(h.res.value), h.store, None)
  }

  class Context {
    /** The scanner and reflection the container consults; fixed for its lifetime. */
    const env: Env
    /** The constructor chosen for every registered class. */
    var registeredConstructors: map<TypeId, Ctor>
    /** The singleton cache: the one instance of each class built so far. */
    var instances: map<TypeId, Ref>
    /** Each factory holder with its producer methods; None until the factories are registered. */
    var registeredDefinitions: Option<seq<Definition>>
    /** The objects created so far, and the next free address. */
    var heap: map<Ref, Obj>
    var next: Ref

    /** The part of the state resolution changes. */
    function Snapshot(): Store
      reads this
    {
      Store(instances, heap, next)
    }

    ghost predicate Valid()
      reads this
    {
      RegistryOk(env, registeredConstructors) && StoreOk(Snapshot())
    }

    /** Every cached instance is wired to the cached instances of its dependencies. */
    ghost predicate IsWired()
      reads this
    {
      Wired(env, registeredConstructors, registeredDefinitions, Snapshot())
    }

    /** An empty container over the given scanner and reflection; the factory registry is not yet set. */
    constructor (env: Env)
      ensures Valid() && IsWired() && this.env == env
      ensures registeredConstructors == map[] && instances == map[] && registeredDefinitions == None
      ensures heap == map[] && next == 0
    {
      this.env := env;
      registeredConstructors := map[];
      instances := map[];
      registeredDefinitions := None;
      heap := map[];
      next := 0;
    }

    /** Registers every class the scanner marked injectable, then instantiates the factories. */
    method RegisterClasses() returns (failure: Option<Error>)
      requires Valid()
      modifies this`registeredConstructors, this`registeredDefinitions, this`heap, this`next
      ensures Valid() && instances == old(instances)
      ensures old(instances) == map[] ==> IsWired()
      ensures var s := RegisterClassesSpec(env, old(registeredConstructors), old(registeredDefinitions), old(Snapshot()));
              && registeredConstructors == s.registry && registeredDefinitions == s.definitions
              && Snapshot() == s.store && failure == s.failure
    {
      var i := 0;
      while i < |env.injectable|
        invariant 0 <= i <= |env.injectable|
        invariant RegistryOk(env, registeredConstructors)
        invariant Snapshot() == old(Snapshot()) && registeredDefinitions == old(registeredDefinitions)
        invariant RegisterAll(env, registeredConstructors, env.injectable[i..])
               == RegisterAll(env, old(registeredConstructors), env.injectable)
      {
        assert env.injectable[i..][1..] == env.injectable[i + 1..];
        failure := RegisterClassDependencies(env.injectable[i], {});
        if failure.Some? {
          return;
        }
        i := i + 1;
      }
      failure := RegisterFactories();
    }

    /** Instantiates every factory class through its zero-parameter constructor and records its producers. */
    method RegisterFactories() returns (failure: Option<Error>)
      requires StoreOk(Snapshot())
      modifies this`registeredDefinitions, this`heap, this`next
      ensures var o := CreateHolders(env, old(Snapshot()), env.blueprints);
              && Snapshot() == o.store
              && (o.res.Ok? ==> failure == None && registeredDefinitions == Some(o.res.value))
              && (o.res.Err? ==> failure == Some(o.res.error) && registeredDefinitions == old(registeredDefinitions))
    {
      ghost var whole := CreateHolders(env, Snapshot(), env.blueprints);
      var defs: seq<Definition> := [];
      var j := 0;
      assert env.blueprints[0..] == env.blueprints;
      PrependNothing(whole);
      while j < |env.blueprints|
        invariant 0 <= j <= |env.blueprints|
        invariant StoreOk(Snapshot()) && instances == old(instances)
        invariant registeredDefinitions == old(registeredDefinitions)
        invariant whole == Prepend(defs, CreateHolders(env, Snapshot(), env.blueprints[j..]))
      {
        assert env.blueprints[j..][0] == env.blueprints[j] && env.blueprints[j..][1..] == env.blueprints[j + 1..];
        CreateHoldersStep(env, Snapshot(), env.blueprints[j..]);
        var p := env.blueprints[j];
        if !(p in env.factories && env.factories[p].hasZeroArgCtor) {
          return Some(RuntimeFailure);
        }
        ghost var before := Snapshot();
        var holder := next;
        heap := heap[holder := Holder(p)];
        next := next + 1;
        assert Snapshot() == Alloc(before, Holder(p)).0;
        PrependTwice(defs, [Definition(holder, env.factories[p].producers)], CreateHolders(env, Snapshot(), env.blueprints[j + 1..]));
        defs := defs + [Definition(holder, env.factories[p].producers)];
        j := j + 1;
      }
      assert defs + [] == defs;
      registeredDefinitions := Some(defs);
      failure := None;
    }

    /**
     * Registers `t` after every class it depends on. `visiting` holds the
     * classes whose registration is under way further up the call chain.
     */
    method RegisterClassDependencies(t: TypeId, visiting: set<TypeId>) returns (failure: Option<Error>)
      modifies this`registeredConstructors
      decreases env.types.Keys - visiting, 0
      ensures var o := Register(env, old(registeredConstructors), visiting, t);
              registeredConstructors == o.registry && failure == o.failure
    {
      var s := Select(env, t);
      if s.Err? {
        return Some(s.error);
      }
      if t in registeredConstructors {
        return None;
      }
      if t in visiting {
        return Some(CyclicDependency);
      }
      var deps := s.value.deps;
      var i := 0;
      while i < |deps|
        invariant 0 <= i <= |deps|
        invariant RegisterEach(env, registeredConstructors, visiting + {t}, deps[i..])
               == RegisterEach(env, old(registeredConstructors), visiting + {t}, deps)
      {
        assert deps[i..][0] == deps[i] && deps[i..][1..] == deps[i + 1..];
        if deps[i] !in registeredConstructors {
          failure := RegisterClassDependencies(deps[i], visiting + {t});
          if failure.Some? {
            return;
          }
        }
        i := i + 1;
      }
      registeredConstructors := registeredConstructors[t := s.value.ctor];
      failure := None;
    }

    /**
     * Returns the instance of `t`: the cached one, or a new one built through
     * the registered constructor or taken from a producer, then cached.
     * `resolving` holds the classes being built further up the call chain;
     * a caller outside the container passes the empty set.
     */
    method Get(t: TypeId, resolving: set<TypeId>) returns (r: Result<Ref>)
      requires StoreOk(Snapshot()) && resolving <= registeredConstructors.Keys
      modifies this`instances, this`heap, this`next
      decreases registeredConstructors.Keys - resolving, 0
      ensures var o := Resolve(env, registeredConstructors, registeredDefinitions, old(Snapshot()), t, resolving);
              Snapshot() == o.store && r == o.res
      ensures old(IsWired()) ==> IsWired()
    {
      if IsWired() {
        ResolveKeepsWired(env, registeredConstructors, registeredDefinitions, Snapshot(), t, resolving);
      }
      if t in instances {
        return Ok(instances[t]);
      }
      if t in registeredConstructors {
        if t in resolving {
          return Err(CyclicDependency);
        }
        r := GetInjectable(t, registeredConstructors[t], resolving + {t});
      } else {
        r := GetFromDefinition(t);
      }
      if r.Ok? {
        instances := instances[t := r.value];
      }
    }

    /** Builds a registered class through its constructor when that has parameters, otherwise by field injection. */
    method GetInjectable(t: TypeId, ctor: Ctor, resolving: set<TypeId>) returns (r: Result<Ref>)
      requires StoreOk(Snapshot()) && resolving <= registeredConstructors.Keys
      modifies this`instances, this`heap, this`next
      decreases registeredConstructors.Keys - resolving, 4
      ensures var o := Build(env, registeredConstructors, registeredDefinitions, old(Snapshot()), t, ctor, resolving);
              Snapshot() == o.store && r == o.res
    {
      if |ctor.params| > 0 {
        r := GetInstanceThroughConstructor(t, ctor.params, resolving);
      } else {
        r := GetInstanceThroughReflection(t, resolving);
        if r.Err? {
          r := Err(RuntimeFailure);
        }
      }
    }

    /** Calls the zero-parameter constructor, then resolves each field marked for injection and assigns it. */
    method GetInstanceThroughReflection(t: TypeId, resolving: set<TypeId>) returns (r: Result<Ref>)
      requires StoreOk(Snapshot()) && resolving <= registeredConstructors.Keys
      modifies this`instances, this`heap, this`next
      decreases registeredConstructors.Keys - resolving, 3
      ensures var o := ThroughReflection(env, registeredConstructors, registeredDefinitions, old(Snapshot()), t, resolving);
              Snapshot() == o.store && r == o.res
    {
      ThroughReflectionUnfold(env, registeredConstructors, registeredDefinitions, Snapshot(), t, resolving);
      var obj := next;
      heap := heap[obj := FieldInjected(t, [])];
      next := next + 1;
      assert Snapshot() == Alloc(old(Snapshot()), FieldInjected(t, [])).0;
      r := InjectFieldsInto(obj, Info(env, t).injectFields, resolving);
    }

    /** Resolves each of `fields` in order and assigns the instance to the next field of object `obj`; stops at the first failure. */
    method InjectFieldsInto(obj: Ref, fields: seq<TypeId>, resolving: set<TypeId>) returns (r: Result<Ref>)
      requires StoreOk(Snapshot()) && resolving <= registeredConstructors.Keys
      requires obj in heap && heap[obj].FieldInjected?
      modifies this`instances, this`heap, this`next
      decreases registeredConstructors.Keys - resolving, 2
      ensures var o := InjectFields(env, registeredConstructors, registeredDefinitions, old(Snapshot()), obj, fields, resolving);
              Snapshot() == o.store && r == o.res
    {
      var i := 0;
      assert fields[0..] == fields;
      while i < |fields|
        invariant 0 <= i <= |fields|
        invariant StoreOk(Snapshot()) && obj in heap && heap[obj].FieldInjected?
        invariant InjectFields(env, registeredConstructors, registeredDefinitions, Snapshot(), obj, fields[i..], resolving)
               == InjectFields(env, registeredConstructors, registeredDefinitions, old(Snapshot()), obj, fields, resolving)
      {
        assert fields[i..][0] == fields[i] && fields[i..][1..] == fields[i + 1..];
        InjectFieldsStep(env, registeredConstructors, registeredDefinitions, Snapshot(), obj, fields[i..], resolving);
        var v := InjectField(obj, fields[i], resolving);
        if v.Err? {
          return Err(v.error);
        }
        i := i + 1;
      }
      r := Ok(obj);
    }

    /** Resolves the class of one injected field and assigns the instance to the next field of object `obj`. */
    method InjectField(obj: Ref, f: TypeId, resolving: set<TypeId>) returns (v: Result<Ref>)
      requires StoreOk(Snapshot()) && resolving <= registeredConstructors.Keys
      requires obj in heap && heap[obj].FieldInjected?
      modifies this`instances, this`heap, this`next
      decreases registeredConstructors.Keys - resolving, 1
      ensures var o := Resolve(env, registeredConstructors, registeredDefinitions, old(Snapshot()), f, resolving);
              && v == o.res
              && (o.res.Err? ==> Snapshot() == o.store)
              && (o.res.Ok? ==> obj in o.store.heap && o.store.heap[obj].FieldInjected? && Snapshot() == Assign(o.store, obj, o.res.value))
    {
      v := Get(f, resolving);
      if v.Ok? {
        ghost var resolved := Snapshot();
        heap := heap[obj := heap[obj].(fields := heap[obj].fields + [v.value])];
        assert Snapshot() == Assign(resolved, obj, v.value);
      }
    }

    /** Resolves the constructor's parameter types left to right, then calls it with the instances. */
    method GetInstanceThroughConstructor(t: TypeId, params: seq<TypeId>, resolving: set<TypeId>) returns (r: Result<Ref>)
      requires StoreOk(Snapshot()) && resolving <= registeredConstructors.Keys
      modifies this`instances, this`heap, this`next
      decreases registeredConstructors.Keys - resolving, 3
      ensures var o := ThroughConstructor(env, registeredConstructors, registeredDefinitions, old(Snapshot()), t, params, resolving);
              Snapshot() == o.store && r == o.res
    {
      var args: seq<Ref> := [];
      var i := 0;
      while i < |params|
        invariant 0 <= i <= |params|
        invariant registeredConstructors == old(registeredConstructors)
        invariant StoreOk(Snapshot())
        invariant ResolveArgs(env, registeredConstructors, registeredDefinitions, Snapshot(), params[i..], args, resolving)
               == ResolveArgs(env, registeredConstructors, registeredDefinitions, old(Snapshot()), params, [], resolving)
      {
        assert params[i..][0] == params[i] && params[i..][1..] == params[i + 1..];
        var a := Get(params[i], resolving);
        if a.Err? {
          return Err(a.error);
        }
        args := args + [a.value];
        i := i + 1;
      }
      var obj := next;
      heap := heap[obj := Constructed(t, args)];
      next := next + 1;
      r := Ok(obj);
    }

    /** Obtains an instance of `t` from the producer chosen for it and calls that producer. */
    method GetFromDefinition(t: TypeId) returns (r: Result<Ref>)
      requires StoreOk(Snapshot())
      modifies this`heap, this`next
      ensures var o := Produce(registeredDefinitions, old(Snapshot()), t);
              Snapshot() == o.store && r == o.res
    {
      if registeredDefinitions.None? {
        return Err(NullDefinitions);
      }
      var found := FindDefinition(registeredDefinitions.value, t);
      if found.None? {
        return Err(UnsupportedClass);
      }
      var obj := next;
      heap := heap[obj := Produced(t, found.value.0, found.value.1)];
      next := next + 1;
      r := Ok(obj);
    }
  }

  /**
   * Scans every holder's producers in order, keeping the last one whose
   * return type is `t`.
   */
  method FindDefinition(defs: seq<Definition>, t: TypeId) returns (found: Option<(Ref, Producer)>)
    ensures found == LastProducer(defs, t)
    ensures found.None? <==>
              forall i, j :: 0 <= i < |defs| && 0 <= j < |defs[i].producers| ==> defs[i].producers[j].returnType != t
    ensures found.Some? ==> found.value.1.returnType == t && Offers(defs, found.value.0, found.value.1)
  {
    found := None;
    var i := 0;
    while i < |defs|
      invariant 0 <= i <= |defs|
      invariant found == LastProducer(defs[..i], t)
    {
      var ps := defs[i].producers;
      var j := 0;
      while j < |ps|
        invariant 0 <= j <= |ps|
        invariant found == match LastIn(ps[..j], t)
                           case Some(p) => Some((defs[i].holder, p))
                           case None => LastProducer(defs[..i], t)
      {
        assert ps[..j + 1][..j] == ps[..j];
        if ps[j].returnType == t {
          found := Some((defs[i].holder, ps[j]));
        }
        j := j + 1;
      }
      assert ps[..j] == ps;
      assert defs[..i + 1][..i] == defs[..i];
      i := i + 1;
    }
    assert defs[..i] == defs;
  }
}
