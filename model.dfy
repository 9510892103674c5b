/**
 * Values shared by the registration and resolution parts of the container:
 * type identities, the introspection table that stands in for reflection,
 * construction plans, objects and the error taxonomy.
 */
module Model {

  /** A class, named by its fully qualified name. */
  type TypeId = string

  /** An object reference: an address in the object store. */
  type Ref = nat

  datatype Option<T> = None | Some(value: T)

  /** How a call of the container fails; each variant stands for an exception of the source. */
  datatype Error =
    | UnsupportedClass        // UnsupportedClassException
    | NoSuitableConstructor   // NoSuitableConstructorException
    | CyclicDependency        // added: a type reached again while it is being registered or built
    | RuntimeFailure          // a bare RuntimeException
    | NullDefinitions         // NullPointerException: producers looked up before any registration

  datatype Result<T> = Ok(value: T) | Err(error: Error)

  /** What reflection reveals about a class. */
  datatype TypeInfo = TypeInfo(
    injectable: bool,                    // carries the injectable marker
    injectCtor: Option<seq<TypeId>>,     // parameter types of the first constructor marked for injection
    hasZeroArgCtor: bool,                // has a public zero-parameter constructor
    injectFields: seq<TypeId>)           // types of the declared fields marked for injection, in order

  /** A method of a factory class marked as a producer. */
  datatype Producer = Producer(name: string, returnType: TypeId)

  /** What reflection reveals about a factory class. */
  datatype FactoryInfo = FactoryInfo(hasZeroArgCtor: bool, producers: seq<Producer>)

  /**
   * The world the container runs in: the introspection tables and the two
   * scanner results (the classes carrying the injectable marker, and those
   * carrying the factory marker), each in the order the scanner yields them.
   */
  datatype Env = Env(
    types: map<TypeId, TypeInfo>,
    factories: map<TypeId, FactoryInfo>,
    injectable: seq<TypeId>,
    blueprints: seq<TypeId>)

  /** The constructor recorded for a registered class, given by its parameter types. */
  datatype Ctor = Ctor(params: seq<TypeId>)

  /** The constructor chosen for a class and the types it depends on. */
  datatype Strategy = Strategy(ctor: Ctor, deps: seq<TypeId>)

  /** A factory instance and the producer methods its class declares. */
  datatype Definition = Definition(holder: Ref, producers: seq<Producer>)

  /** An object in the store, recording how it came to be. */
  datatype Obj =
    | Constructed(typ: TypeId, args: seq<Ref>)        // built by a constructor with these arguments
    | FieldInjected(typ: TypeId, fields: seq<Ref>)    // built with no arguments, then these fields assigned
    | Holder(typ: TypeId)                             // a factory instance
    | Produced(typ: TypeId, holder: Ref, producer: Producer)  // returned by a producer method

  /** The mutable part of resolution: the singleton cache, the object store and the next free address. */
  datatype Store = Store(instances: map<TypeId, Ref>, heap: map<Ref, Obj>, next: Ref)

  /** The store after a call, and what the call returned. */
  datatype Outcome<T> = Outcome(store: Store, res: Result<T>)

  /** Reflection on a class the table does not list finds no marker, constructor or field. */
  function Info(env: Env, t: TypeId): (info: TypeInfo)
    ensures t !in env.types ==> !info.injectable
    ensures t in env.types ==> info == env.types[t]
  {
    if t in env.types then env.types[t] else TypeInfo(false, None, false, [])
  }

  /** `m'` keeps every entry of `m` unchanged. */
  ghost predicate Extends<K, V>(m: map<K, V>, m': map<K, V>)
  {
    forall k :: k in m ==> k in m' && m'[k] == m[k]
  }

  /** Every address in use lies below `next`, and every cached instance is in the store with the class it is cached under. */
  ghost predicate StoreOk(st: Store)
  {
    && (forall r :: r in st.heap ==> r < st.next)
    && (forall t :: t in st.instances ==> st.instances[t] in st.heap && st.heap[st.instances[t]].typ == t)
  }

  /** Allocates `o` at the next free address. */
  function Alloc(st: Store, o: Obj): (p: (Store, Ref))
    requires StoreOk(st)
    ensures p.1 == st.next && p.1 !in st.heap
    ensures p.0.instances == st.instances && p.1 in p.0.heap && p.0.heap[p.1] == o && p.0.next == st.next + 1
    ensures StoreOk(p.0) && Extends(st.heap, p.0.heap)
  {
    (st.(heap := st.heap[st.next := o], next := st.next + 1), st.next)
  }
}
