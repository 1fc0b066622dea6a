/**
 * The vocabulary of the dependency-injection runtime: interface tokens,
 * dependency descriptors, component declarations and the instances the
 * runtime hands out.
 */
module Components {

  /** An interface token. It stands for the Java `Class` object a component
      is looked up by; the model keys on plain numbers instead of reflection. */
  type Token = nat

  /** DIRECT: the dependent needs the dependency's instance before its own
      factory runs. PROVIDER: the dependent receives a deferred handle. */
  datatype Kind = Direct | Provider

  /** One dependency edge: the interface needed, whether it must be present,
      and how it is injected. */
  datatype Dependency = Dependency(target: Token, required: bool, kind: Kind)

  /** How a declaration obtains its instance. `Build` runs the component's
      factory, which yields a new instance; `Value(tag)` is a pre-built value
      owned by the host application and is handed out as it is. */
  datatype Factory = Build | Value(tag: nat)

  /** A component declaration: the interfaces it provides, its dependencies
      in the order they were added, whether it is eager, and its factory. */
  datatype Declaration = Declaration(
    interfaces: set<Token>,
    deps: seq<Dependency>,
    eager: bool,
    factory: Factory)

  /** An opaque object identity. `Host(tag)` is a pre-built value;
      `Made(serial)` is the object produced by the `serial`-th factory run
      of a runtime. Two instances are the same object exactly when equal. */
  datatype Instance = Host(tag: nat) | Made(serial: nat)

  /** A provider handle. There is one per declaration, so handles compare
      equal exactly when they stand for the same Java object. */
  datatype Handle = Handle(decl: nat)

  /** What a factory received for one of its dependencies: an instance, a
      provider handle, or `null` (an optional dependency nobody provides). */
  datatype Arg = Inst(instance: Instance) | Deferred(handle: Handle) | Absent

  /** One factory run: the declaration it built and the arguments it got,
      one per declared dependency, in declaration order. */
  datatype Record = Record(decl: nat, args: seq<Arg>)

  /** `Dependency.required(X)`. */
  function Required(t: Token): Dependency { Dependency(t, true, Direct) }

  /** `Dependency.requiredProvider(X)`. */
  function RequiredProvider(t: Token): Dependency { Dependency(t, true, Provider) }

  /** `Component.of(value, X, ...)`: a pre-built value with no dependencies. */
  function Prebuilt(tag: nat, interfaces: set<Token>): Declaration {
    Declaration(interfaces, [], false, Value(tag))
  }
}
