# Injectable container: a Dafny model

This project models the resolution engine of `Context`, the small inversion-of-control container of the
injectable-demo repository. The engine has three parts:

- **Registration.** `registerClassDependencies` walks the dependency graph of each injectable class. It
  checks the injectable marker and picks a constructor. That is the constructor marked for injection,
  whose parameter types become the dependencies. Failing that, it is the zero-parameter constructor, and
  the fields marked for injection become the dependencies. It registers every dependency first and records
  the class in `registeredConstructors` last.
- **Factory registry.** `registerClasses` also creates one holder per factory ("blueprint") class, using
  its zero-parameter constructor. It records each holder with its producer ("definition") methods.
- **Resolution.** `get` returns the cached singleton of a class if one exists. Otherwise it builds one
  through the registered constructor, or takes one from a producer whose return type matches, and then
  caches it.

Reflection and classpath scanning are replaced by a fixed table (`Model.Env`):

- For each class: its marker, the parameter types of its injection constructor, whether it has a
  zero-parameter constructor, and the types of its injected fields.
- For each factory class: whether it has a zero-parameter constructor, and its producers.
- The two scanner results, as sequences.

Objects live in a store (`Model.Store`): a map from addresses to objects plus the next free address.
Each object records how it was made: constructed with arguments, field-injected, a factory holder, or
produced by a holder's producer. Equality of addresses is object identity.

The model has two layers:

- `Registration`, `Factories` and `Resolution` define the algorithms as functions and prove their
  properties as lemmas.
- `Container.Context` is a class with the source's state as fields: `registeredConstructors`,
  `instances`, `registeredDefinitions`, plus the store. Its methods loop and recurse as the Java methods
  do. Each method is proved to leave exactly the state, and return exactly the result, that the
  corresponding function describes.

`Scenarios` works the repository's tests and two small graphs through the model.

Deviations from the source:

- **Cycle guard.** The source has no cycle guard; its TODO at `Context.java:67` says so, and a cyclic
  dependency makes it recurse forever. The model adds an in-progress set: `visiting` for registration,
  `resolving` for resolution. A class met again while it is in progress fails with `CyclicDependency`.
  Outside callers pass the empty set. Registration checks the set only after the marker, the constructor
  choice and the memo check. `Registration.CyclicDependencyMeansCycle` proves that the error is reported
  only when a class reachable from the one registered depends on itself. `Registration.FailureIsTraced`
  proves that every other failure is a selection error of a class on a dependency path, as in the source.
- **Factory lookup before registration.** Before `registerClasses` has run, `registeredDefinitions` is
  `null` and `getFromDefinition` throws a `NullPointerException`. The model returns `NullDefinitions`.

Behaviour of the source that the model keeps:

- **Failures under field injection.** Any failure while a field-injected class is built resurfaces as a
  bare `RuntimeException` (`Context.java:126-130`). The model reports `RuntimeFailure`, overwriting the
  inner error.
- **Duplicate producers.** When several producers return the same type, the code keeps the last one met
  (`Context.java:98-105`). The model does the same over the order of its sequences.

## Model

| member | source | states |
|---|---|---|
| Model.Alloc | src/main/java/Context.java:139 | a new object gets an address not in use; nothing else in the store changes, and the store stays well formed. The same allocation also stands for the holders (line 35), the produced objects (line 112) and the constructed objects (line 161) |
| Registration.Select | src/main/java/Context.java:49-62 | fails with `UnsupportedClass` exactly when the marker is missing. Fails with `NoSuitableConstructor` exactly when the class is marked but has neither an injection constructor nor a zero-parameter one. Otherwise the dependencies are the injection constructor's parameter types in order, or, with the zero-parameter constructor, the injected fields' types |
| Registration.Register | src/main/java/Context.java:48-75 | registration only adds entries. On success the class is in the registry. A new class whose registration fails is not recorded, and neither is any class still in progress. A well-formed registry stays well formed: every recorded class has the constructor selection gives it, and its dependencies are recorded |
| Registration.RegisterEach | src/main/java/Context.java:68-72 | registers the unregistered dependencies left to right. On success every dependency is in the registry; it only adds entries and keeps the registry well formed |
| Registration.RegisterAll | src/main/java/Context.java:30-31 | after a successful pass every scanned class is registered; the pass only adds entries and keeps the registry well formed |
| Registration.RegisterRejectsUnmarked | src/main/java/Context.java:49-51 | a class without the marker fails with `UnsupportedClass` and the registry is unchanged |
| Registration.RegisterRejectsWithoutConstructor | src/main/java/Context.java:59-60 | a marked class with no usable constructor fails with `NoSuitableConstructor`, registry unchanged, even when the class is already registered |
| Registration.RegisterIdempotent | src/main/java/Context.java:64-65 | registering a class that is already registered succeeds and leaves the registry unchanged |
| Registration.RegisterTwice | src/main/java/Context.java:64-65 | after a successful registration, registering the same class again changes nothing |
| Registration.ClosedUnderDependencies | src/main/java/Context.java:68-74 | a well-formed registry holding the first class of a dependency path holds every class on it |
| Registration.RegisterCoversTransitiveDeps | src/main/java/Context.java:68-74 | after `t` registers, every class `t` transitively depends on is registered |
| Registration.RegisterInsertsLast | src/main/java/Context.java:68-74 | when a new class registers, its dependencies are all registered before it and without it, and it is inserted last with its selected constructor |
| Registration.UnmarkedDependencyFails | src/main/java/Context.java:49-51 | a dependency without the marker makes the dependent class's registration fail, and the dependent class is not recorded |
| Registration.RegisterEachStopsAtUnmarked | src/main/java/Context.java:68-72 | the walk stops with `UnsupportedClass` at the first unregistered dependency that lacks the marker, and the registry is unchanged |
| Registration.UnmarkedDependencyIsUnsupported | src/main/java/Context.java:68-74 | when the first unregistered dependency is unmarked, the dependent class fails with `UnsupportedClass` and the registry is unchanged |
| Registration.RegisterAllCoversTransitiveDeps | src/main/java/Context.java:29-31 | after a successful pass, every class reachable from a scanned class is registered |
| Registration.CycleIsReal | src/main/java/Context.java:64-74 | when registration fails with `CyclicDependency`, some dependency path from the class ends at a class still in progress or at one it has already passed through |
| Registration.EachCycleIsReal | src/main/java/Context.java:68-72 | when the dependency walk fails with `CyclicDependency`, such a path starts at one of the dependencies walked |
| Registration.CyclicDependencyMeansCycle | src/main/java/Context.java:48-75 | from an empty in-progress set, `CyclicDependency` means that a class reachable from the registered one depends on itself |
| Registration.FailureIsTraced | src/main/java/Context.java:48-75 | every other registration failure is the selection error of the last class on some dependency path from the registered class |
| Registration.EachFailureIsTraced | src/main/java/Context.java:68-72 | every other failure of the dependency walk is the selection error of a class reachable from one of the dependencies walked |
| Registration.RegisterAllFailureIsExplained | src/main/java/Context.java:29-31 | a failed pass is explained by a scanned class: it reaches a class that depends on itself and the error is `CyclicDependency`, or it reaches a class that selection refuses with exactly the reported error |
| Factories.CreateHolders | src/main/java/Context.java:33-45 | creating the holders keeps the store well formed, leaves every existing object and the cache unchanged, and only moves the next free address forward |
| Factories.HoldersSucceedExactly | src/main/java/Context.java:33-39 | holder creation succeeds exactly when every factory class has a zero-parameter constructor, and otherwise fails with `RuntimeFailure` |
| Factories.HoldersMatchFactories | src/main/java/Context.java:33-45 | on success there is one definition per factory class, in order. Each holds a fresh holder of that class, distinct from the others, with the producers that class declares |
| Resolution.LastIn | src/main/java/Context.java:100-104 | no producer is chosen exactly when none returns the type; a chosen producer is in the list and returns the type |
| Resolution.LastProducer | src/main/java/Context.java:98-105 | no producer is chosen exactly when no holder has one returning the type; a chosen producer returns the type and belongs to that holder |
| Resolution.Produce | src/main/java/Context.java:93-117 | on success the result is one fresh object, made by a producer that returns the type and belongs to a registered holder; the cache is unchanged, and no existing object changes |
| Resolution.Resolve | src/main/java/Context.java:77-91 | on success the result is cached under the class, and a failure caches nothing for it. Resolution never overwrites an object or cache entry, and never caches a class still being built |
| Resolution.Build | src/main/java/Context.java:119-134 | on success, a fresh object of the class built the way its registered constructor dictates |
| Resolution.ThroughConstructor | src/main/java/Context.java:158-165 | on success, a fresh constructed object whose arguments are the cached instances of the parameter types, in order |
| Resolution.ResolveArgs | src/main/java/Context.java:159 | resolves parameter types left to right; on success the results extend the arguments gathered so far by the cached instance of each type |
| Resolution.ThroughReflection | src/main/java/Context.java:136-156 | on success, a fresh field-injected object whose fields are the cached instances of the injected field types, in order |
| Resolution.InjectFields | src/main/java/Context.java:145-153 | each field is assigned the cached instance of its type, appended in order. The object keeps its class, and no other object changes |
| Resolution.ResolveKeepsWired | src/main/java/Context.java:77-91 | resolution keeps every cached instance wired: each constructor argument or injected field is the cached instance of its type, and each produced object comes from a registered producer of its type |
| Resolution.BuildKeepsWired | src/main/java/Context.java:119-134 | building keeps the cache wired |
| Resolution.ThroughConstructorKeepsWired | src/main/java/Context.java:158-165 | constructor injection keeps the cache wired |
| Resolution.ResolveArgsKeepsWired | src/main/java/Context.java:159 | resolving the arguments keeps the cache wired |
| Resolution.ThroughReflectionKeepsWired | src/main/java/Context.java:136-156 | field injection keeps the cache wired |
| Resolution.InjectFieldsKeepsWired | src/main/java/Context.java:145-153 | assigning fields keeps the cache wired |
| Resolution.ResolveCached | src/main/java/Context.java:78-80 | a class with a cached instance gets that instance back, and nothing is built |
| Resolution.ResolveIdempotent | src/main/java/Context.java:78-80 | after a successful resolution, resolving the class again returns the same instance and leaves the store unchanged |
| Resolution.ResolveThroughProducer | src/main/java/Context.java:83-87 | an unregistered, uncached class resolves exactly when some producer returns it. It then resolves to a fresh object made by such a producer; otherwise it fails with `UnsupportedClass` and nothing changes |
| Resolution.ResolveBeforeFactories | src/main/java/Context.java:98 | before the factories are registered, an unregistered, uncached class fails with `NullDefinitions` and nothing changes |
| Resolution.ResolveDetectsCycle | src/main/java/Context.java:67 | a class met again while being built fails with `CyclicDependency` and nothing changes |
| Resolution.FieldInjectionFailureIsRuntime | src/main/java/Context.java:126-130 | every failure while building a field-injected class is reported as `RuntimeFailure` |
| Resolution.InjectedFieldIsShared | src/main/java/Context.java:145-153 | in a wired store, each injected field of a cached instance is what resolving the field's type returns, with nothing changed |
| Resolution.ConstructorArgumentIsShared | src/main/java/Context.java:159-161 | in a wired store, each constructor argument of a cached instance is what resolving the parameter's type returns, with nothing changed |
| Resolution.ResolvedFieldsAreShared | src/main/java/Context.java:145-153 | after a successful resolution of a field-injected class, each of its fields is what a later resolution of the field's type returns |
| Resolution.ResolvedArgumentsAreShared | src/main/java/Context.java:159-161 | after a successful resolution of a constructor-injected class, each argument is what a later resolution of the parameter's type returns |
| Container.RegisterClassesSpec | src/main/java/Context.java:29-46 | succeeds exactly when every scanned class registers and every factory class can be instantiated. Then every scanned class is registered and the factory registry is set. On failure the factory registry keeps its old value. The cache is untouched |
| Container.Context.constructor | src/main/java/Context.java:23-27 | an empty registry, cache and store, with the factory registry unset |
| Container.Context.RegisterClasses | src/main/java/Context.java:29-46 | the new registry, factory registry and store, and the error returned, are those of `RegisterClassesSpec` on the old state. With the cache still empty, as before any `get`, every cached instance is correctly wired afterwards |
| Container.Context.RegisterFactories | src/main/java/Context.java:33-45 | the new store is the one `CreateHolders` leaves. On success the factory registry is set to its definitions; on failure the error is returned and the factory registry keeps its old value |
| Container.Context.RegisterClassDependencies | src/main/java/Context.java:48-75 | the new registry and the error returned are those of `Register` on the old registry |
| Container.Context.Get | src/main/java/Context.java:77-91 | the new cache and store, and the result, are those of `Resolve` on the old state. A correctly wired cache stays correctly wired, so every cached object's dependencies are the cached singletons |
| Container.Context.GetInjectable | src/main/java/Context.java:119-134 | the new state and result are those of `Build` |
| Container.Context.GetInstanceThroughReflection | src/main/java/Context.java:136-156 | the new state and result are those of `ThroughReflection` |
| Container.Context.InjectFieldsInto | src/main/java/Context.java:145-153 | the new state and result are those of `InjectFields` on the old store |
| Container.Context.InjectField | src/main/java/Context.java:147-152 | the result is that of `Resolve` for the field's class. On success the new store is the resolved one with the instance appended to the object's fields; on failure it is the store `Resolve` left |
| Container.Context.GetInstanceThroughConstructor | src/main/java/Context.java:158-165 | the new state and result are those of `ThroughConstructor` |
| Container.Context.GetFromDefinition | src/main/java/Context.java:93-117 | the new store and result are those of `Produce` on the old store and factory registry |
| Container.FindDefinition | src/main/java/Context.java:96-107 | the nested scan keeps the last producer whose return type matches (`LastProducer`). Nothing is found exactly when no producer returns the type |
| Scenarios.UnmarkedClassIsRejected | src/test/java/ContextTest.java:72-81 | registering the unmarked `BadInjectClass` fails with `UnsupportedClass`, and nothing is recorded |
| Scenarios.NoDefaultConstructorIsRejected | src/test/java/ContextTest.java:83-90 | `InjectWithoutDefaultConstructorClass` fails with `NoSuitableConstructor`, and nothing is recorded |
| Scenarios.BadParameterIsRejected | src/test/java/ContextTest.java:92-99 | `InjectWithBadParameter`, whose injection constructor takes the unmarked class, fails with `UnsupportedClass`, and nothing is recorded |
| Scenarios.WriterConfigIsRegistered | src/main/java/config/WriterConfig.java:7-14 | registering `WriterConfig` creates one holder, at the first address, recorded with its `writerService` producer |
| Scenarios.WriterServiceComesFromDefinition | src/test/java/ContextTest.java:116-118 | the unregistered `WriterService` comes from that producer and is cached; asking again returns the same object |
| Scenarios.WriterServiceIsSingleton | src/test/java/ContextTest.java:101-118 | on a `Context`, registration followed by two `Get` calls for `WriterService` returns the produced object both times |
| Scenarios.FieldDependencyIsRegistered | src/main/java/Context.java:61 | a class A with one injected field of class B registers B first, then A |
| Scenarios.FieldIsSharedWithLaterGet | src/main/java/Context.java:145-153 | resolving A allocates A, then resolves B into A's field and caches both; a later resolution of B returns that same field value |
| Scenarios.MutualDependencyIsACycle | src/main/java/Context.java:67-72 | two classes whose constructors take each other stop with `CyclicDependency`, and neither is recorded |

## Left out

- Classpath scanning (`Reflections`, `Context.java:26, 30, 33`): the scanned classes are inputs, `Env.injectable` and `Env.blueprints`.
- Java reflection (`getConstructors`, `getDeclaredFields`, `setAccessible`, `newInstance`, `Method.invoke`): it becomes the `Env` tables, plus an allocation that always yields a fresh object of the requested class.
- Exceptions thrown by an invoked constructor or producer (`Context.java:36-37, 113-114, 140-142, 162-163`) are not modelled: every invocation succeeds. The one exception is a factory class without a zero-parameter constructor, which fails with `RuntimeFailure`.
- Argument types are not checked: resolving a class is assumed to yield an instance of exactly that class. The source filters its cache by each instance's runtime class (`Context.java:78`); the model keys the cache by class, which is the same under that assumption.
- `HashMap`/`HashSet` iteration order is not modelled. The scanner results, holders and producers come in the order of their sequences. Which duplicate producer is chosen depends on that order.
- The exception classes (`model/exception/*.java`) are plain message holders; they become variants of `Model.Error`.
- `WriterService` prints to the console. Only its class name appears here, as the producer's return type.
- `javafx.util.Pair` and `AtomicReference` are local holders inside a lambda; they become the `Option` value of `FindDefinition`.
- The classes `model.Test`, `Test2` and `Test3` are not part of this model, so the two tests that use only them (`ContextTest.java:41-70`) are not reproduced. In the producer test they are left out of the scanned classes.
- Holders made before a factory class fails to instantiate stay in the store. In the source they become garbage.
- Container.Context.Get: takes the in-progress set as an extra parameter; outside callers pass the empty set.
- Container.Context.RegisterClassDependencies: takes the in-progress set as an extra parameter; outside callers pass the empty set.
