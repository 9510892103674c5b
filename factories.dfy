/**
 * The factory registry (second half of Context.registerClasses): one holder
 * per factory class, created through its zero-parameter constructor, paired
 * with the producer methods its class declares.
 */
module Factories {
  import opened Model

  /** Prefixes `acc` to a successful outcome; a failure is passed on unchanged. */
  function Prepend(acc: seq<Definition>, o: Outcome<seq<Definition>>): Outcome<seq<Definition>>
  {
    if o.res.Err? then o else Outcome(o.store, Ok(acc + o.res.value))
  }

  /** Every factory class of `blueprints` is known and has a zero-parameter constructor. */
  ghost predicate Instantiable(env: Env, blueprints: seq<TypeId>)
  {
    forall i :: 0 <= i < |blueprints| ==>
      blueprints[i] in env.factories && env.factories[blueprints[i]].hasZeroArgCtor
  }

  /**
   * Creates a holder for each factory class in order; a class that cannot be
   * instantiated stops the walk with a runtime failure, the holders made so
   * far staying in the store.
   */
  function CreateHolders(env: Env, st: Store, blueprints: seq<TypeId>): (o: Outcome<seq<Definition>>)
    requires StoreOk(st)
    decreases |blueprints|
    ensures StoreOk(o.store) && Extends(st.heap, o.store.heap) && o.store.instances == st.instances
    ensures st.next <= o.store.next
  {
    if blueprints == [] then Outcome(st, Ok([]))
    else
      var p := blueprints[0];
      if !(p in env.factories && env.factories[p].hasZeroArgCtor) then Outcome(st, Err(RuntimeFailure))
      else
        var (st1, h) := Alloc(st, Holder(p));
        Prepend([Definition(h, env.factories[p].producers)], CreateHolders(env, st1, blueprints[1..]))
  }

  /** Holder creation succeeds exactly when every factory class can be instantiated, and fails with a runtime failure otherwise. */
  lemma {:induction false} HoldersSucceedExactly(env: Env, st: Store, blueprints: seq<TypeId>)
    requires StoreOk(st)
    decreases |blueprints|
    ensures var o := CreateHolders(env, st, blueprints);
            && (o.res.Ok? <==> Instantiable(env, blueprints))
            && (o.res.Err? ==> o.res.error == RuntimeFailure)
  {
    if blueprints != [] {
      var p := blueprints[0];
      if p in env.factories && env.factories[p].hasZeroArgCtor {
        var (st1, h) := Alloc(st, Holder(p));
        HoldersSucceedExactly(env, st1, blueprints[1..]);
        assert Instantiable(env, blueprints) <==> Instantiable(env, blueprints[1..]) by {
          if Instantiable(env, blueprints[1..]) {
            forall i | 0 <= i < |blueprints| ensures blueprints[i] in env.factories && env.factories[blueprints[i]].hasZeroArgCtor {
              if i > 0 { assert blueprints[i] == blueprints[1..][i - 1]; }
            }
          }
        }
      } else {
        assert !Instantiable(env, blueprints) by { assert blueprints[0] == p; }
      }
    }
  }

  /**
   * On success there is one definition per factory class, in order: a fresh
   * holder of that class, distinct from the others, with the producers its
   * class declares.
   */
  lemma {:induction false} HoldersMatchFactories(env: Env, st: Store, blueprints: seq<TypeId>)
    requires StoreOk(st)
    decreases |blueprints|
    ensures var o := CreateHolders(env, st, blueprints);
            o.res.Ok? ==>
              var defs := o.res.value;
              && |defs| == |blueprints|
              && (forall i :: 0 <= i < |defs| ==>
                    && st.next <= defs[i].holder
                    && defs[i].holder in o.store.heap && o.store.heap[defs[i].holder] == Holder(blueprints[i])
                    && blueprints[i] in env.factories && defs[i].producers == env.factories[blueprints[i]].producers)
              && (forall i, j :: 0 <= i < j < |defs| ==> defs[i].holder < defs[j].holder)
  {
    if blueprints != [] {
      var p := blueprints[0];
      if p in env.factories && env.factories[p].hasZeroArgCtor {
        var (st1, h) := Alloc(st, Holder(p));
        var rest := CreateHolders(env, st1, blueprints[1..]);
        HoldersMatchFactories(env, st1, blueprints[1..]);
        var o := CreateHolders(env, st, blueprints);
        if o.res.Ok? {
          assert o.res.value == [Definition(h, env.factories[p].producers)] + rest.res.value;
          assert forall i :: 1 <= i < |o.res.value| ==> o.res.value[i] == rest.res.value[i - 1] && blueprints[i] == blueprints[1..][i - 1];
        }
      }
    }
  }

  /** Prefixing twice is prefixing the concatenation. */
  lemma PrependTwice(a: seq<Definition>, b: seq<Definition>, o: Outcome<seq<Definition>>)
    ensures Prepend(a, Prepend(b, o)) == Prepend(a + b, o)
  {
    if o.res.Ok? {
      assert a + (b + o.res.value) == (a + b) + o.res.value;
    }
  }

  /** Prefixing nothing changes nothing. */
  lemma PrependNothing(o: Outcome<seq<Definition>>)
    ensures Prepend([], o) == o
  {
    if o.res.Ok? {
      assert [] + o.res.value == o.res.value;
    }
  }

  /** One step of `CreateHolders`, as the loop of `registerClasses` takes it. */
  lemma CreateHoldersStep(env: Env, st: Store, blueprints: seq<TypeId>)
    requires StoreOk(st) && blueprints != []
    ensures var p := blueprints[0];
            if p in env.factories && env.factories[p].hasZeroArgCtor then
              var st' := Alloc(st, Holder(p)).0;
              CreateHolders(env, st, blueprints) == Prepend([Definition(st.next, env.factories[p].producers)], CreateHolders(env, st', blueprints[1..]))
            else CreateHolders(env, st, blueprints) == Outcome(st, Err(RuntimeFailure))
  {
  }
}
