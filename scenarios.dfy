/**
 * Concrete containers: the situations of ContextTest.java and two small
 * dependency graphs, worked out through the model's functions.
 */
module Scenarios {
  import opened Model
  import opened Registration
  import opened Resolution
  import opened Factories
  import opened Container

  const BadInject: TypeId := "BadInjectClass"
  const WithoutDefault: TypeId := "InjectWithoutDefaultConstructorClass"
  const WithBadParameter: TypeId := "InjectWithBadParameter"
  const Config: TypeId := "config.WriterConfig"
  const Writer: TypeId := "service.WriterService"

  /** A package-private class without the injectable marker; its implicit constructor is not public, so reflection lists none. */
  const BadInjectInfo := TypeInfo(false, None, false, [])

  /** The test classes, with no factory classes found by the scanner. */
  function TestTypes(): map<TypeId, TypeInfo>
  {
    map[
      BadInject := BadInjectInfo,
      // marked, an injected field, and only a constructor taking a String
      WithoutDefault := TypeInfo(true, None, false, [BadInject]),
      // marked, an injection constructor taking the unmarked class
      WithBadParameter := TypeInfo(true, Some([BadInject]), false, [])]
  }

  function Scan(injectable: seq<TypeId>): Env
  {
    Env(TestTypes(), map[], injectable, [])
  }

  const Empty := Store(map[], map[], 0)

  /** Registering a class that lacks the marker fails as unsupported, and nothing is recorded. */
  lemma UnmarkedClassIsRejected()
    ensures var s := RegisterClassesSpec(Scan([BadInject]), map[], None, Empty);
            s.failure == Some(UnsupportedClass) && s.registry == map[] && s.definitions == None
  {
    RegisterRejectsUnmarked(Scan([BadInject]), map[], {}, BadInject);
  }

  /** A marked class with neither an injection constructor nor a zero-parameter one has no suitable constructor. */
  lemma NoDefaultConstructorIsRejected()
    ensures var s := RegisterClassesSpec(Scan([WithoutDefault]), map[], None, Empty);
            s.failure == Some(NoSuitableConstructor) && s.registry == map[]
  {
    RegisterRejectsWithoutConstructor(Scan([WithoutDefault]), map[], {}, WithoutDefault);
  }

  /** An injection constructor whose parameter is an unmarked class fails as unsupported, and the class is not recorded. */
  lemma BadParameterIsRejected()
    ensures var s := RegisterClassesSpec(Scan([WithBadParameter]), map[], None, Empty);
            s.failure == Some(UnsupportedClass) && s.registry == map[]
  {
    var env := Scan([WithBadParameter]);
    assert BadInject != WithBadParameter by { assert BadInject[1] != WithBadParameter[1]; }
    assert BadInject != WithoutDefault by { assert BadInject[1] != WithoutDefault[1]; }
    assert Select(env, WithBadParameter) == Ok(Strategy(Ctor([BadInject]), [BadInject]));
    assert Select(env, BadInject) == Err(UnsupportedClass);
    assert Register(env, map[], {WithBadParameter}, BadInject) == RegOutcome(map[], Some(UnsupportedClass));
    assert RegisterEach(env, map[], {WithBadParameter}, [BadInject]) == RegOutcome(map[], Some(UnsupportedClass));
    assert {} + {WithBadParameter} == {WithBadParameter};
    assert Register(env, map[], {}, WithBadParameter) == RegOutcome(map[], Some(UnsupportedClass));
  }

  const WriterProducer := Producer("writerService", Writer)

  /** The factory class of the tests: a zero-parameter constructor and one producer of the writer service. */
  function WriterEnv(): Env
  {
    Env(map[], map[Config := FactoryInfo(true, [WriterProducer])], [], [Config])
  }

  /** Registration creates one holder for the factory class, at the first address. */
  lemma WriterConfigIsRegistered()
    ensures RegisterClassesSpec(WriterEnv(), map[], None, Empty)
         == Setup(map[], Some([Definition(0, [WriterProducer])]), Store(map[], map[0 := Holder(Config)], 1), None)
  {
    var env := WriterEnv();
    var st1 := Store(map[], map[0 := Holder(Config)], 1);
    assert Alloc(Empty, Holder(Config)) == (st1, 0);
    assert CreateHolders(env, st1, []) == Outcome(st1, Ok([]));
    assert [Definition(0, [WriterProducer])] + [] == [Definition(0, [WriterProducer])];
    assert [Config][1..] == [];
    assert CreateHolders(env, Empty, [Config]) == Outcome(st1, Ok([Definition(0, [WriterProducer])]));
  }

  /**
   * The writer service, which is not registered, comes from the producer of
   * the factory holder; asking again returns the cached instance.
   */
  lemma WriterServiceComesFromDefinition()
    ensures var st := Store(map[], map[0 := Holder(Config)], 1);
            var defs := Some([Definition(0, [WriterProducer])]);
            var o := Resolve(WriterEnv(), map[], defs, st, Writer, {});
            && o.res == Ok(1)
            && o.store == Store(map[Writer := 1], map[0 := Holder(Config), 1 := Produced(Writer, 0, WriterProducer)], 2)
            && Resolve(WriterEnv(), map[], defs, o.store, Writer, {}) == o
  {
    var st := Store(map[], map[0 := Holder(Config)], 1);
    var defs := [Definition(0, [WriterProducer])];
    assert LastIn([WriterProducer], Writer) == Some(WriterProducer);
    assert LastProducer(defs, Writer) == Some((0, WriterProducer));
    var st' := Store(map[], map[0 := Holder(Config), 1 := Produced(Writer, 0, WriterProducer)], 2);
    assert Alloc(st, Produced(Writer, 0, WriterProducer)) == (st', 1);
    assert Produce(Some(defs), st, Writer) == Outcome(st', Ok(1));
  }

  /** The producer test run on a container: both lookups return the object the producer made. */
  method WriterServiceIsSingleton() returns (first: Result<Ref>, second: Result<Ref>)
    ensures first == Ok(1) && second == first
  {
    var c := new Context(WriterEnv());
    WriterConfigIsRegistered();
    var failure := c.RegisterClasses();
    WriterServiceComesFromDefinition();
    first := c.Get(Writer, {});
    second := c.Get(Writer, {});
  }

  const A: TypeId := "A"
  const B: TypeId := "B"

  /** A has a zero-parameter constructor and one injected field of class B; B has no dependencies. */
  function FieldEnv(): Env
  {
    Env(map[A := TypeInfo(true, None, true, [B]), B := TypeInfo(true, None, true, [])], map[], [A], [])
  }

  /** Registering A records B first, then A, both with their zero-parameter constructors. */
  lemma FieldDependencyIsRegistered()
    ensures RegisterAll(FieldEnv(), map[], [A]) == RegOutcome(map[B := Ctor([]), A := Ctor([])], None)
  {
    var env := FieldEnv();
    assert A != B by { assert A[0] != B[0]; }
    assert Select(env, A) == Ok(Strategy(Ctor([]), [B]));
    assert Select(env, B) == Ok(Strategy(Ctor([]), []));
    assert RegisterEach(env, map[], {A} + {B}, []) == RegOutcome(map[], None);
    assert Register(env, map[], {A}, B) == RegOutcome(map[B := Ctor([])], None);
    assert [B][1..] == [];
    assert RegisterEach(env, map[], {A}, [B]) == RegOutcome(map[B := Ctor([])], None);
    assert {} + {A} == {A};
    assert Register(env, map[], {}, A) == RegOutcome(map[B := Ctor([]), A := Ctor([])], None);
    assert [A][1..] == [];
  }

  /** Resolving A allocates A, resolves B into its field, and caches both; B resolved later is the same object. */
  lemma FieldIsSharedWithLaterGet()
    ensures var reg := map[B := Ctor([]), A := Ctor([])];
            var o := Resolve(FieldEnv(), reg, None, Empty, A, {});
            && o.res == Ok(0)
            && o.store.heap == map[0 := FieldInjected(A, [1]), 1 := FieldInjected(B, [])]
            && o.store.instances == map[B := 1, A := 0]
            && Resolve(FieldEnv(), reg, None, o.store, B, {}).res == Ok(1)
  {
    var env := FieldEnv();
    var reg := map[B := Ctor([]), A := Ctor([])];
    assert A != B by { assert A[0] != B[0]; }
    // A is allocated first, at address 0
    var st0 := Store(map[], map[0 := FieldInjected(A, [])], 1);
    assert Alloc(Empty, FieldInjected(A, [])) == (st0, 0);
    // B is allocated next, at address 1, and cached
    var st1 := Store(map[], map[0 := FieldInjected(A, []), 1 := FieldInjected(B, [])], 2);
    assert Alloc(st0, FieldInjected(B, [])) == (st1, 1);
    assert InjectFields(env, reg, None, st1, 1, [], {A, B}) == Outcome(st1, Ok(1));
    assert ThroughReflection(env, reg, None, st0, B, {A, B}) == Outcome(st1, Ok(1));
    assert {A} + {B} == {A, B};
    assert Build(env, reg, None, st0, B, Ctor([]), {A, B}) == Outcome(st1, Ok(1));
    var st2 := st1.(instances := map[B := 1]);
    assert Resolve(env, reg, None, st0, B, {A}) == Outcome(st2, Ok(1));
    // then B is assigned to A's field
    var st3 := st2.(heap := st2.heap[0 := FieldInjected(A, [1])]);
    assert st2.heap[0].fields + [1] == [1];
    assert Assign(st2, 0, 1) == st3;
    assert InjectFields(env, reg, None, st3, 0, [], {A}) == Outcome(st3, Ok(0));
    assert [B][1..] == [];
    assert InjectFields(env, reg, None, st0, 0, [B], {A}) == Outcome(st3, Ok(0));
    assert ThroughReflection(env, reg, None, Empty, A, {A}) == Outcome(st3, Ok(0));
    assert {} + {A} == {A};
    assert Build(env, reg, None, Empty, A, Ctor([]), {A}) == Outcome(st3, Ok(0));
    assert st3.heap == map[0 := FieldInjected(A, [1]), 1 := FieldInjected(B, [])];
  }

  const F: TypeId := "F"
  const G: TypeId := "G"

  /** F's injection constructor takes a G, and G's takes an F. */
  function CycleEnv(): Env
  {
    Env(map[F := TypeInfo(true, Some([G]), false, []), G := TypeInfo(true, Some([F]), false, [])], map[], [F], [])
  }

  /** Registering F reaches F again through G and stops with a cycle; neither class is recorded. */
  lemma MutualDependencyIsACycle()
    ensures RegisterAll(CycleEnv(), map[], [F]) == RegOutcome(map[], Some(CyclicDependency))
  {
    var env := CycleEnv();
    assert F != G by { assert F[0] != G[0]; }
    assert Select(env, F) == Ok(Strategy(Ctor([G]), [G]));
    assert Select(env, G) == Ok(Strategy(Ctor([F]), [F]));
    assert Register(env, map[], {F, G}, F) == RegOutcome(map[], Some(CyclicDependency));
    assert RegisterEach(env, map[], {F, G}, [F]) == RegOutcome(map[], Some(CyclicDependency));
    assert {F} + {G} == {F, G};
    assert Register(env, map[], {F}, G) == RegOutcome(map[], Some(CyclicDependency));
    assert RegisterEach(env, map[], {F}, [G]) == RegOutcome(map[], Some(CyclicDependency));
    assert {} + {F} == {F};
    assert Register(env, map[], {}, F) == RegOutcome(map[], Some(CyclicDependency));
  }
}
