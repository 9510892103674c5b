/**
 * Resolution with a singleton cache (Context.get and the helpers it calls):
 * a cached instance is returned as it is; a registered class is built through
 * its recorded constructor, its dependencies resolved first; any other class
 * is obtained from a producer method whose return type is that class. These
 * functions specify the methods of `Container.Context`.
 */
module Resolution {
  import opened Model

  // ---------------------------------------------------------------------------
  // How one store may turn into another during resolution
  // ---------------------------------------------------------------------------

  /** The cache only gains entries, and each new entry is an object allocated after `st`. */
  ghost predicate CacheGrows(st: Store, st': Store)
  {
    && st.next <= st'.next
    && Extends(st.instances, st'.instances)
    && (forall t :: t in st'.instances && t !in st.instances ==> st'.instances[t] >= st.next)
  }

  /** `st'` is well formed, every object of `st` is untouched, and the cache only grew. */
  ghost predicate Evolves(st: Store, st': Store)
  {
    StoreOk(st') && Extends(st.heap, st'.heap) && CacheGrows(st, st')
  }

  /** No class under construction gains a cache entry. */
  ghost predicate NoneCached(resolving: set<TypeId>, st: Store, st': Store)
  {
    forall t :: t in resolving && t !in st.instances ==> t !in st'.instances
  }

  /** `r` is an object of class `t` allocated after `st`. */
  ghost predicate FreshOf(st: Store, st': Store, t: TypeId, r: Ref)
  {
    r >= st.next && r in st'.heap && st'.heap[r].typ == t
  }

  /** `refs[i]` is the cached instance of `deps[i]`, for every i. */
  ghost predicate Matches(deps: seq<TypeId>, refs: seq<Ref>, cache: map<TypeId, Ref>)
  {
    |deps| == |refs| && forall i :: 0 <= i < |deps| ==> deps[i] in cache && cache[deps[i]] == refs[i]
  }

  /**
   * Object `r` of `st` was built by `ctor` with every dependency wired to the
   * cached instance of its class: the constructor's arguments when it has
   * parameters, otherwise the fields marked for injection.
   */
  ghost predicate BuiltBy(env: Env, ctor: Ctor, st: Store, r: Ref)
    requires r in st.heap
  {
    if |ctor.params| > 0 then
      st.heap[r].Constructed? && Matches(ctor.params, st.heap[r].args, st.instances)
    else
      st.heap[r].FieldInjected? && Matches(Info(env, st.heap[r].typ).injectFields, st.heap[r].fields, st.instances)
  }

  /** Holder `h` declares producer `p`. */
  ghost predicate Offers(defs: seq<Definition>, h: Ref, p: Producer)
  {
    exists i :: 0 <= i < |defs| && defs[i].holder == h && p in defs[i].producers
  }

  // ---------------------------------------------------------------------------
  // Producer lookup
  // ---------------------------------------------------------------------------

  /** The last producer of `ps` that returns `t`. */
  function LastIn(ps: seq<Producer>, t: TypeId): (r: Option<Producer>)
    ensures r.None? <==> forall j :: 0 <= j < |ps| ==> ps[j].returnType != t
    ensures r.Some? ==> r.value in ps && r.value.returnType == t
  {
    if ps == [] then None
    else if ps[|ps| - 1].returnType == t then Some(ps[|ps| - 1])
    else LastIn(ps[..|ps| - 1], t)
  }

  /**
   * The producer chosen for `t`: scanning holders and their producers in
   * order, each match overwrites the previous one, so the last match wins.
   */
  function LastProducer(defs: seq<Definition>, t: TypeId): (r: Option<(Ref, Producer)>)
    ensures r.None? <==>
              forall i, j :: 0 <= i < |defs| && 0 <= j < |defs[i].producers| ==> defs[i].producers[j].returnType != t
    ensures r.Some? ==> r.value.1.returnType == t && Offers(defs, r.value.0, r.value.1)
  {
    if defs == [] then None
    else
      var last := defs[|defs| - 1];
      match LastIn(last.producers, t)
      case Some(p) => Some((last.holder, p))
      case None =>
        var r := LastProducer(defs[..|defs| - 1], t);
        assert r.Some? ==> Offers(defs, r.value.0, r.value.1) by {
          if r.Some? {
            var i :| 0 <= i < |defs| - 1 && defs[..|defs| - 1][i].holder == r.value.0 && r.value.1 in defs[..|defs| - 1][i].producers;
            assert defs[i] == defs[..|defs| - 1][i];
          }
        }
        assert r.None? ==> forall i, j :: 0 <= i < |defs| && 0 <= j < |defs[i].producers| ==> defs[i].producers[j].returnType != t by {
          if r.None? {
            forall i, j | 0 <= i < |defs| && 0 <= j < |defs[i].producers| ensures defs[i].producers[j].returnType != t {
              if i < |defs| - 1 { assert defs[i] == defs[..|defs| - 1][i]; }
            }
          }
        }
        r
  }

  /**
   * Obtains an instance of `t` from a producer method; fails with
   * `UnsupportedClass` when no producer returns `t`, and with `NullDefinitions`
   * when the factories were never registered.
   */
  function Produce(defs: Option<seq<Definition>>, st: Store, t: TypeId): (o: Outcome<Ref>)
    requires StoreOk(st)
    ensures Evolves(st, o.store) && o.store.instances == st.instances
    ensures o.res.Ok? ==> FreshOf(st, o.store, t, o.res.value)
    ensures o.res.Ok? ==>
              var obj := o.store.heap[o.res.value];
              obj.Produced? && obj.producer.returnType == t && defs.Some? && Offers(defs.value, obj.holder, obj.producer)
  {
    match defs
    case None => Outcome(st, Err(NullDefinitions))
    case Some(ds) =>
      match LastProducer(ds, t)
      case None => Outcome(st, Err(UnsupportedClass))
      case Some(found) =>
        var (st', r) := Alloc(st, Produced(t, found.0, found.1));
        Outcome(st', Ok(r))
  }

  // ---------------------------------------------------------------------------
  // Resolution
  // ---------------------------------------------------------------------------

  /**
   * Returns the instance of `t`: the cached one if there is one; otherwise a
   * fresh one, built through the registered constructor or taken from a
   * producer, which is then cached. `resolving` holds the classes being built
   * further up the call chain; meeting one of them again is a cycle.
   */
  function Resolve(env: Env, reg: map<TypeId, Ctor>, defs: Option<seq<Definition>>,
                   st: Store, t: TypeId, resolving: set<TypeId>): (o: Outcome<Ref>)
    requires StoreOk(st) && resolving <= reg.Keys
    decreases reg.Keys - resolving, 0
    ensures Evolves(st, o.store) && NoneCached(resolving, st, o.store)
    ensures o.res.Ok? ==> t in o.store.instances && o.store.instances[t] == o.res.value
    ensures o.res.Err? && t !in st.instances ==> t !in o.store.instances
  {
    if t in st.instances then Outcome(st, Ok(st.instances[t]))
    else
      var o :=
        if t in reg then
          if t in resolving then Outcome(st, Err(CyclicDependency))
          else Build(env, reg, defs, st, t, reg[t], resolving + {t})
        else Produce(defs, st, t);
      if o.res.Err? then o
      else Outcome(o.store.(instances := o.store.instances[t := o.res.value]), o.res)
  }

  /** Builds a registered class: through its constructor when that has parameters, otherwise by field injection. */
  function Build(env: Env, reg: map<TypeId, Ctor>, defs: Option<seq<Definition>>,
                 st: Store, t: TypeId, ctor: Ctor, resolving: set<TypeId>): (o: Outcome<Ref>)
    requires StoreOk(st) && resolving <= reg.Keys
    decreases reg.Keys - resolving, 3
    ensures Evolves(st, o.store) && NoneCached(resolving, st, o.store)
    ensures o.res.Ok? ==> FreshOf(st, o.store, t, o.res.value) && BuiltBy(env, ctor, o.store, o.res.value)
  {
    if |ctor.params| > 0 then ThroughConstructor(env, reg, defs, st, t, ctor.params, resolving)
    else
      var o := ThroughReflection(env, reg, defs, st, t, resolving);
      // any failure while injecting fields surfaces as a bare runtime failure
      if o.res.Err? then Outcome(o.store, Err(RuntimeFailure)) else o
  }

  /** Resolves the parameter types left to right, then calls the constructor with the results. */
  function ThroughConstructor(env: Env, reg: map<TypeId, Ctor>, defs: Option<seq<Definition>>,
                              st: Store, t: TypeId, params: seq<TypeId>, resolving: set<TypeId>): (o: Outcome<Ref>)
    requires StoreOk(st) && resolving <= reg.Keys
    decreases reg.Keys - resolving, 2
    ensures Evolves(st, o.store) && NoneCached(resolving, st, o.store)
    ensures o.res.Ok? ==> FreshOf(st, o.store, t, o.res.value)
    ensures o.res.Ok? ==> o.store.heap[o.res.value].Constructed?
                          && Matches(params, o.store.heap[o.res.value].args, o.store.instances)
  {
    var o := ResolveArgs(env, reg, defs, st, params, [], resolving);
    if o.res.Err? then Outcome(o.store, Err(o.res.error))
    else
      var (st', r) := Alloc(o.store, Constructed(t, o.res.value));
      Outcome(st', Ok(r))
  }

  /** Resolves each of `deps` in order, appending the instances to `acc`; stops at the first failure. */
  function ResolveArgs(env: Env, reg: map<TypeId, Ctor>, defs: Option<seq<Definition>>,
                       st: Store, deps: seq<TypeId>, acc: seq<Ref>, resolving: set<TypeId>): (o: Outcome<seq<Ref>>)
    requires StoreOk(st) && resolving <= reg.Keys
    decreases reg.Keys - resolving, 1, |deps|
    ensures Evolves(st, o.store) && NoneCached(resolving, st, o.store)
    ensures o.res.Ok? ==> |o.res.value| == |acc| + |deps| && o.res.value[..|acc|] == acc
    ensures o.res.Ok? ==> Matches(deps, o.res.value[|acc|..], o.store.instances)
  {
    if deps == [] then Outcome(st, Ok(acc))
    else
      var o := Resolve(env, reg, defs, st, deps[0], resolving);
      if o.res.Err? then Outcome(o.store, Err(o.res.error))
      else
        var o' := ResolveArgs(env, reg, defs, o.store, deps[1..], acc + [o.res.value], resolving);
        EvolvesTransitive(st, o.store, o'.store);
        if o'.res.Ok? then
          AppendStep(deps, acc, o.res.value, o'.res.value, o.store.instances, o'.store.instances);
          o'
        else o'
  }

  /** Calls the zero-parameter constructor, then resolves and assigns every field marked for injection. */
  function ThroughReflection(env: Env, reg: map<TypeId, Ctor>, defs: Option<seq<Definition>>,
                             st: Store, t: TypeId, resolving: set<TypeId>): (o: Outcome<Ref>)
    requires StoreOk(st) && resolving <= reg.Keys
    decreases reg.Keys - resolving, 2
    ensures Evolves(st, o.store) && NoneCached(resolving, st, o.store)
    ensures o.res.Ok? ==> FreshOf(st, o.store, t, o.res.value)
    ensures o.res.Ok? ==> o.store.heap[o.res.value].FieldInjected?
                          && Matches(Info(env, t).injectFields, o.store.heap[o.res.value].fields, o.store.instances)
  {
    var (st1, r) := Alloc(st, FieldInjected(t, []));
    var o := InjectFields(env, reg, defs, st1, r, Info(env, t).injectFields, resolving);
    if o.res.Err? then Outcome(o.store, Err(o.res.error))
    else Outcome(o.store, Ok(r))
  }

  /** `st'` leaves every object of `st` but `r` untouched, and `r` stays a field-injected object of the same class. */
  ghost predicate AllButKept(st: Store, st': Store, r: Ref)
    requires r in st.heap
  {
    && (forall k :: k in st.heap && k != r ==> k in st'.heap && st'.heap[k] == st.heap[k])
    && r in st'.heap && st'.heap[r].FieldInjected? && st'.heap[r].typ == st.heap[r].typ
  }

  /** Resolves each of `fields` in order and assigns the instance to the next field of object `r`; stops at the first failure. */
  function InjectFields(env: Env, reg: map<TypeId, Ctor>, defs: Option<seq<Definition>>,
                        st: Store, r: Ref, fields: seq<TypeId>, resolving: set<TypeId>): (o: Outcome<Ref>)
    requires StoreOk(st) && resolving <= reg.Keys
    requires r in st.heap && st.heap[r].FieldInjected?
    decreases reg.Keys - resolving, 1, |fields|
    ensures StoreOk(o.store) && CacheGrows(st, o.store) && NoneCached(resolving, st, o.store)
    ensures AllButKept(st, o.store, r)
    ensures o.res.Ok? ==> o.res.value == r
    ensures o.res.Ok? ==>
              var done := st.heap[r].fields;
              var now := o.store.heap[r].fields;
              |now| == |done| + |fields| && now[..|done|] == done && Matches(fields, now[|done|..], o.store.instances)
  {
    if fields == [] then Outcome(st, Ok(r))
    else
      var o := Resolve(env, reg, defs, st, fields[0], resolving);
      if o.res.Err? then Outcome(o.store, Err(o.res.error))
      else
        var st' := Assign(o.store, r, o.res.value);
        var o' := InjectFields(env, reg, defs, st', r, fields[1..], resolving);
        InjectStep(st, o.store, st', o'.store, r);
        if o'.res.Ok? then
          AppendStep(fields, st.heap[r].fields, o.res.value, o'.store.heap[r].fields, o.store.instances, o'.store.instances);
          o'
        else o'
  }

  /** Appends `v` to the fields assigned so far in object `r`. */
  function Assign(st: Store, r: Ref, v: Ref): Store
    requires r in st.heap && st.heap[r].FieldInjected?
  {
    st.(heap := st.heap[r := st.heap[r].(fields := st.heap[r].fields + [v])])
  }

  /** `ThroughReflection` allocates the object at the next free address, then injects its fields. */
  lemma ThroughReflectionUnfold(env: Env, reg: map<TypeId, Ctor>, defs: Option<seq<Definition>>,
                                st: Store, t: TypeId, resolving: set<TypeId>)
    requires StoreOk(st) && resolving <= reg.Keys
    ensures var st1 := Alloc(st, FieldInjected(t, [])).0;
            var w := InjectFields(env, reg, defs, st1, st.next, Info(env, t).injectFields, resolving);
            ThroughReflection(env, reg, defs, st, t, resolving)
              == Outcome(w.store, if w.res.Err? then Err(w.res.error) else Ok(st.next))
  {
  }

  /** One step of `InjectFields`, as the loop of `getInstanceThroughReflection` takes it. */
  lemma InjectFieldsStep(env: Env, reg: map<TypeId, Ctor>, defs: Option<seq<Definition>>,
                         st: Store, r: Ref, fields: seq<TypeId>, resolving: set<TypeId>)
    requires StoreOk(st) && resolving <= reg.Keys
    requires r in st.heap && st.heap[r].FieldInjected? && fields != []
    ensures var o := Resolve(env, reg, defs, st, fields[0], resolving);
            && StoreOk(o.store) && r in o.store.heap && o.store.heap[r].FieldInjected?
            && (o.res.Err? ==> InjectFields(env, reg, defs, st, r, fields, resolving) == Outcome(o.store, Err(o.res.error)))
            && (o.res.Ok? ==>
                  var st' := Assign(o.store, r, o.res.value);
                  && StoreOk(st') && r in st'.heap && st'.heap[r].FieldInjected?
                  && InjectFields(env, reg, defs, st, r, fields, resolving) == InjectFields(env, reg, defs, st', r, fields[1..], resolving))
  {
    var o := Resolve(env, reg, defs, st, fields[0], resolving);
    if o.res.Ok? {
      InjectStep(st, o.store, Assign(o.store, r, o.res.value), Assign(o.store, r, o.res.value), r);
    }
  }

  // ---------------------------------------------------------------------------
  // Helper lemmas for the folds
  // ---------------------------------------------------------------------------

  lemma EvolvesTransitive(a: Store, b: Store, c: Store)
    requires Evolves(a, b) && Evolves(b, c)
    ensures Evolves(a, c)
  {
  }

  /** One step of a fold: `v` was resolved for `deps[0]`, and the rest was resolved after it. */
  lemma AppendStep(deps: seq<TypeId>, acc: seq<Ref>, v: Ref, out: seq<Ref>, cache: map<TypeId, Ref>, cache': map<TypeId, Ref>)
    requires |deps| > 0 && deps[0] in cache && cache[deps[0]] == v && Extends(cache, cache')
    requires |out| == |acc| + 1 + |deps[1..]| && out[..|acc + [v]|] == acc + [v]
    requires Matches(deps[1..], out[|acc + [v]|..], cache')
    ensures |out| == |acc| + |deps| && out[..|acc|] == acc && Matches(deps, out[|acc|..], cache')
  {
    assert out[..|acc|] == out[..|acc| + 1][..|acc|];
    assert out[|acc|] == out[..|acc| + 1][|acc|];
    forall i | 0 <= i < |deps|
      ensures deps[i] in cache' && cache'[deps[i]] == out[|acc|..][i]
    {
      if i > 0 { assert deps[i] == deps[1..][i - 1] && out[|acc|..][i] == out[|acc| + 1..][i - 1]; }
    }
  }

  /** The frame of one field assignment composed with the frame of the rest of the fold. */
  lemma InjectStep(st: Store, st1: Store, st2: Store, st3: Store, r: Ref)
    requires r in st.heap && Evolves(st, st1)
    requires st2.instances == st1.instances && st2.next == st1.next
    requires r in st1.heap && r in st2.heap && st2.heap == st1.heap[r := st2.heap[r]] && st2.heap[r].FieldInjected? && st2.heap[r].typ == st1.heap[r].typ
    requires CacheGrows(st2, st3) && AllButKept(st2, st3, r)
    ensures StoreOk(st2) && CacheGrows(st, st3) && AllButKept(st, st3, r)
  {
  }

  // ---------------------------------------------------------------------------
  // Wiring: every cached object is connected to the cached instances of its dependencies
  // ---------------------------------------------------------------------------

  /**
   * The cached instance of `t` was made the way `t` is resolved: built by its
   * registered constructor with each dependency wired to the cached instance
   * of that dependency's class, or, for an unregistered class, returned by a
   * producer that a registered holder declares and whose return type is `t`.
   */
  ghost predicate CachedOk(env: Env, reg: map<TypeId, Ctor>, defs: Option<seq<Definition>>, st: Store, t: TypeId)
    requires t in st.instances
  {
    var r := st.instances[t];
    && r in st.heap
    && if t in reg then BuiltBy(env, reg[t], st, r)
       else
         && st.heap[r].Produced? && st.heap[r].producer.returnType == t
         && defs.Some? && Offers(defs.value, st.heap[r].holder, st.heap[r].producer)
  }

  /** Every cached instance is correctly wired. */
  ghost predicate Wired(env: Env, reg: map<TypeId, Ctor>, defs: Option<seq<Definition>>, st: Store)
  {
    forall t :: t in st.instances ==> CachedOk(env, reg, defs, st, t)
  }

  /** Wiring of the old entries survives any step that keeps their objects and only adds cache entries. */
  lemma WiredKept(env: Env, reg: map<TypeId, Ctor>, defs: Option<seq<Definition>>, st: Store, st': Store)
    requires Wired(env, reg, defs, st) && StoreOk(st)
    requires Extends(st.instances, st'.instances)
    requires forall t :: t in st.instances ==> st.instances[t] in st'.heap && st'.heap[st.instances[t]] == st.heap[st.instances[t]]
    ensures forall t :: t in st.instances ==> CachedOk(env, reg, defs, st', t)
  {
    forall t | t in st.instances ensures CachedOk(env, reg, defs, st', t) {
      assert CachedOk(env, reg, defs, st, t);
      var r := st.instances[t];
      if t in reg && |reg[t].params| > 0 {
        MatchesKept(reg[t].params, st.heap[r].args, st.instances, st'.instances);
      } else if t in reg {
        MatchesKept(Info(env, st.heap[r].typ).injectFields, st.heap[r].fields, st.instances, st'.instances);
      }
    }
  }

  lemma MatchesKept(deps: seq<TypeId>, refs: seq<Ref>, cache: map<TypeId, Ref>, cache': map<TypeId, Ref>)
    requires Matches(deps, refs, cache) && Extends(cache, cache')
    ensures Matches(deps, refs, cache')
  {
  }

  /** Resolution keeps every cached instance correctly wired, and wires the ones it adds. */
  lemma {:induction false} ResolveKeepsWired(env: Env, reg: map<TypeId, Ctor>, defs: Option<seq<Definition>>,
                                             st: Store, t: TypeId, resolving: set<TypeId>)
    requires StoreOk(st) && resolving <= reg.Keys && Wired(env, reg, defs, st)
    decreases reg.Keys - resolving, 0
    ensures Wired(env, reg, defs, Resolve(env, reg, defs, st, t, resolving).store)
  {
    if t !in st.instances && !(t in reg && t in resolving) {
      var o :=
        if t in reg then Build(env, reg, defs, st, t, reg[t], resolving + {t})
        else Produce(defs, st, t);
      if t in reg {
        BuildKeepsWired(env, reg, defs, st, t, reg[t], resolving + {t});
      } else {
        WiredKept(env, reg, defs, st, o.store);
      }
      if o.res.Ok? {
        var st' := o.store.(instances := o.store.instances[t := o.res.value]);
        assert t !in o.store.instances;
        WiredKept(env, reg, defs, o.store, st');
        if t in reg && |reg[t].params| > 0 {
          MatchesKept(reg[t].params, o.store.heap[o.res.value].args, o.store.instances, st'.instances);
        } else if t in reg {
          MatchesKept(Info(env, t).injectFields, o.store.heap[o.res.value].fields, o.store.instances, st'.instances);
        }
        assert CachedOk(env, reg, defs, st', t);
      }
    }
  }

  lemma {:induction false} BuildKeepsWired(env: Env, reg: map<TypeId, Ctor>, defs: Option<seq<Definition>>,
                                           st: Store, t: TypeId, ctor: Ctor, resolving: set<TypeId>)
    requires StoreOk(st) && resolving <= reg.Keys && Wired(env, reg, defs, st)
    decreases reg.Keys - resolving, 3
    ensures Wired(env, reg, defs, Build(env, reg, defs, st, t, ctor, resolving).store)
  {
    if |ctor.params| > 0 {
      ThroughConstructorKeepsWired(env, reg, defs, st, t, ctor.params, resolving);
    } else {
      ThroughReflectionKeepsWired(env, reg, defs, st, t, resolving);
    }
  }

  lemma {:induction false} ThroughConstructorKeepsWired(env: Env, reg: map<TypeId, Ctor>, defs: Option<seq<Definition>>,
                                                        st: Store, t: TypeId, params: seq<TypeId>, resolving: set<TypeId>)
    requires StoreOk(st) && resolving <= reg.Keys && Wired(env, reg, defs, st)
    decreases reg.Keys - resolving, 2
    ensures Wired(env, reg, defs, ThroughConstructor(env, reg, defs, st, t, params, resolving).store)
  {
    ResolveArgsKeepsWired(env, reg, defs, st, params, [], resolving);
    var o := ResolveArgs(env, reg, defs, st, params, [], resolving);
    if o.res.Ok? {
      WiredKept(env, reg, defs, o.store, ThroughConstructor(env, reg, defs, st, t, params, resolving).store);
    }
  }

  lemma {:induction false} ResolveArgsKeepsWired(env: Env, reg: map<TypeId, Ctor>, defs: Option<seq<Definition>>,
                                                 st: Store, deps: seq<TypeId>, acc: seq<Ref>, resolving: set<TypeId>)
    requires StoreOk(st) && resolving <= reg.Keys && Wired(env, reg, defs, st)
    decreases reg.Keys - resolving, 1, |deps|
    ensures Wired(env, reg, defs, ResolveArgs(env, reg, defs, st, deps, acc, resolving).store)
  {
    if deps != [] {
      ResolveKeepsWired(env, reg, defs, st, deps[0], resolving);
      var o := Resolve(env, reg, defs, st, deps[0], resolving);
      if o.res.Ok? {
        ResolveArgsKeepsWired(env, reg, defs, o.store, deps[1..], acc + [o.res.value], resolving);
      }
    }
  }

  lemma {:induction false} ThroughReflectionKeepsWired(env: Env, reg: map<TypeId, Ctor>, defs: Option<seq<Definition>>,
                                                       st: Store, t: TypeId, resolving: set<TypeId>)
    requires StoreOk(st) && resolving <= reg.Keys && Wired(env, reg, defs, st)
    decreases reg.Keys - resolving, 2
    ensures Wired(env, reg, defs, ThroughReflection(env, reg, defs, st, t, resolving).store)
  {
    var (st1, r) := Alloc(st, FieldInjected(t, []));
    WiredKept(env, reg, defs, st, st1);
    InjectFieldsKeepsWired(env, reg, defs, st1, r, Info(env, t).injectFields, resolving);
  }

  lemma {:induction false} InjectFieldsKeepsWired(env: Env, reg: map<TypeId, Ctor>, defs: Option<seq<Definition>>,
                                                  st: Store, r: Ref, fields: seq<TypeId>, resolving: set<TypeId>)
    requires StoreOk(st) && resolving <= reg.Keys && Wired(env, reg, defs, st)
    requires r in st.heap && st.heap[r].FieldInjected?
    requires forall k :: k in st.instances ==> st.instances[k] != r
    decreases reg.Keys - resolving, 1, |fields|
    ensures Wired(env, reg, defs, InjectFields(env, reg, defs, st, r, fields, resolving).store)
  {
    if fields != [] {
      ResolveKeepsWired(env, reg, defs, st, fields[0], resolving);
      var o := Resolve(env, reg, defs, st, fields[0], resolving);
      if o.res.Ok? {
        var obj := o.store.heap[r];
        var st' := o.store.(heap := o.store.heap[r := obj.(fields := obj.fields + [o.res.value])]);
        assert forall k :: k in o.store.instances ==> o.store.instances[k] != r;
        WiredKept(env, reg, defs, o.store, st');
        InjectFieldsKeepsWired(env, reg, defs, st', r, fields[1..], resolving);
      }
    }
  }

  // ---------------------------------------------------------------------------
  // Properties of resolution
  // ---------------------------------------------------------------------------

  /** Cache identity: a class with a cached instance gets that instance back, and nothing is built. */
  lemma ResolveCached(env: Env, reg: map<TypeId, Ctor>, defs: Option<seq<Definition>>,
                      st: Store, t: TypeId, resolving: set<TypeId>)
    requires StoreOk(st) && resolving <= reg.Keys && t in st.instances
    ensures Resolve(env, reg, defs, st, t, resolving) == Outcome(st, Ok(st.instances[t]))
  {
  }

  /** After a successful resolution of `t`, resolving `t` again returns the same instance and leaves the store as it is. */
  lemma ResolveIdempotent(env: Env, reg: map<TypeId, Ctor>, defs: Option<seq<Definition>>,
                          st: Store, t: TypeId, resolving: set<TypeId>, resolving': set<TypeId>)
    requires StoreOk(st) && resolving <= reg.Keys && resolving' <= reg.Keys
    requires Resolve(env, reg, defs, st, t, resolving).res.Ok?
    ensures var o := Resolve(env, reg, defs, st, t, resolving);
            Resolve(env, reg, defs, o.store, t, resolving') == o
  {
  }

  /**
   * Producer dispatch: an unregistered, uncached class resolves exactly when
   * some registered producer returns it; the instance is then a fresh object
   * made by such a producer, and otherwise resolution fails with
   * `UnsupportedClass` and changes nothing.
   */
  lemma ResolveThroughProducer(env: Env, reg: map<TypeId, Ctor>, defs: seq<Definition>,
                               st: Store, t: TypeId, resolving: set<TypeId>)
    requires StoreOk(st) && resolving <= reg.Keys && t !in st.instances && t !in reg
    ensures var o := Resolve(env, reg, Some(defs), st, t, resolving);
            && (o.res.Ok? <==>
                  exists i, j :: 0 <= i < |defs| && 0 <= j < |defs[i].producers| && defs[i].producers[j].returnType == t)
            && (o.res.Err? ==> o == Outcome(st, Err(UnsupportedClass)))
            && (o.res.Ok? ==>
                  var obj := o.store.heap[o.res.value];
                  && o.res.value == st.next && obj.Produced? && obj.typ == t
                  && obj.producer.returnType == t && Offers(defs, obj.holder, obj.producer))
  {
  }

  /** Before the factories are registered, an unregistered, uncached class cannot be resolved. */
  lemma ResolveBeforeFactories(env: Env, reg: map<TypeId, Ctor>, st: Store, t: TypeId, resolving: set<TypeId>)
    requires StoreOk(st) && resolving <= reg.Keys && t !in st.instances && t !in reg
    ensures Resolve(env, reg, None, st, t, resolving) == Outcome(st, Err(NullDefinitions))
  {
  }

  /** A class met again while it is being built is a cycle, reported before anything is built. */
  lemma ResolveDetectsCycle(env: Env, reg: map<TypeId, Ctor>, defs: Option<seq<Definition>>,
                            st: Store, t: TypeId, resolving: set<TypeId>)
    requires StoreOk(st) && resolving <= reg.Keys && t !in st.instances && t in resolving
    ensures Resolve(env, reg, defs, st, t, resolving) == Outcome(st, Err(CyclicDependency))
  {
  }

  /** For a class built by field injection, every failure below it is reported as a bare runtime failure. */
  lemma FieldInjectionFailureIsRuntime(env: Env, reg: map<TypeId, Ctor>, defs: Option<seq<Definition>>,
                                       st: Store, t: TypeId, resolving: set<TypeId>)
    requires StoreOk(st) && resolving <= reg.Keys
    requires t !in st.instances && t in reg && t !in resolving && |reg[t].params| == 0
    ensures Resolve(env, reg, defs, st, t, resolving).res.Err? ==>
              Resolve(env, reg, defs, st, t, resolving).res.error == RuntimeFailure
  {
  }

  /**
   * Singleton sharing, field injection: in a wired store, the i-th injected
   * field of the cached instance of `t` is exactly what resolving the field's
   * class returns, and that resolution changes nothing.
   */
  lemma InjectedFieldIsShared(env: Env, reg: map<TypeId, Ctor>, defs: Option<seq<Definition>>,
                              st: Store, t: TypeId, i: nat, resolving: set<TypeId>)
    requires StoreOk(st) && resolving <= reg.Keys && Wired(env, reg, defs, st)
    requires t in st.instances && t in reg && |reg[t].params| == 0
    requires i < |Info(env, t).injectFields|
    ensures var obj := st.heap[st.instances[t]];
            && obj.FieldInjected? && |obj.fields| == |Info(env, t).injectFields|
            && Resolve(env, reg, defs, st, Info(env, t).injectFields[i], resolving) == Outcome(st, Ok(obj.fields[i]))
  {
    assert CachedOk(env, reg, defs, st, t);
  }

  /**
   * Singleton sharing, constructor injection: in a wired store, the i-th
   * constructor argument of the cached instance of `t` is exactly what
   * resolving the parameter's class returns, and that resolution changes nothing.
   */
  lemma ConstructorArgumentIsShared(env: Env, reg: map<TypeId, Ctor>, defs: Option<seq<Definition>>,
                                    st: Store, t: TypeId, i: nat, resolving: set<TypeId>)
    requires StoreOk(st) && resolving <= reg.Keys && Wired(env, reg, defs, st)
    requires t in st.instances && t in reg && i < |reg[t].params|
    ensures var obj := st.heap[st.instances[t]];
            && obj.Constructed? && |obj.args| == |reg[t].params|
            && Resolve(env, reg, defs, st, reg[t].params[i], resolving) == Outcome(st, Ok(obj.args[i]))
  {
    assert CachedOk(env, reg, defs, st, t);
  }

  /**
   * End to end: resolving a field-injected class from a wired store yields an
   * object each of whose injected fields is what a later resolution of that
   * field's class returns.
   */
  lemma ResolvedFieldsAreShared(env: Env, reg: map<TypeId, Ctor>, defs: Option<seq<Definition>>,
                                st: Store, t: TypeId, i: nat)
    requires StoreOk(st) && Wired(env, reg, defs, st)
    requires Resolve(env, reg, defs, st, t, {}).res.Ok?
    requires t in reg && |reg[t].params| == 0 && i < |Info(env, t).injectFields|
    ensures var o := Resolve(env, reg, defs, st, t, {});
            var obj := o.store.heap[o.res.value];
            && obj.FieldInjected?
            && Resolve(env, reg, defs, o.store, Info(env, t).injectFields[i], {}) == Outcome(o.store, Ok(obj.fields[i]))
  {
    ResolveKeepsWired(env, reg, defs, st, t, {});
    InjectedFieldIsShared(env, reg, defs, Resolve(env, reg, defs, st, t, {}).store, t, i, {});
  }


  /**
   * End to end: resolving a constructor-injected class from a wired store
   * yields an object each of whose constructor arguments is what a later
   * resolution of that parameter's class returns.
   */
  lemma ResolvedArgumentsAreShared(env: Env, reg: map<TypeId, Ctor>, defs: Option<seq<Definition>>,
                                   st: Store, t: TypeId, i: nat)
    requires StoreOk(st) && Wired(env, reg, defs, st)
    requires Resolve(env, reg, defs, st, t, {}).res.Ok?
    requires t in reg && i < |reg[t].params|
    ensures var o := Resolve(env, reg, defs, st, t, {});
            var obj := o.store.heap[o.res.value];
            && obj.Constructed?
            && Resolve(env, reg, defs, o.store, reg[t].params[i], {}) == Outcome(o.store, Ok(obj.args[i]))
  {
    ResolveKeepsWired(env, reg, defs, st, t, {});
    ConstructorArgumentIsShared(env, reg, defs, Resolve(env, reg, defs, st, t, {}).store, t, i, {});
  }

}
