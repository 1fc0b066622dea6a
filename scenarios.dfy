/**
 * The scenarios of the runtime's unit tests, each as a lemma over the
 * validation functions or as a verified run of the runtime's methods.
 * The test's classes are interface tokens given as parameters: a scenario
 * holds for any choice of distinct tokens.
 */
module Scenarios {
  import opened Wrappers
  import opened Components
  import opened DependencyGraph
  import opened CycleDetector
  import opened Validation
  import opened Runtime

  /** The tag of the test's own `InitTracker` object. */
  const TrackerTag: nat := 0

  /** `ComponentOne`, `ComponentTwo` and `InitTracker` are three distinct
      classes. */
  predicate Classes(one: Token, two: Token, tracker: Token) {
    one != two && two != tracker && one != tracker
  }

  /** `ComponentTwoImpl`: lazy, built from a `ComponentOne`. */
  function TwoDecl(one: Token, two: Token): Declaration {
    Declaration({two}, [Required(one)], false, Build)
  }

  /** `ComponentOneImpl`: eager, built from an `InitTracker`. */
  function OneDecl(one: Token, tracker: Token): Declaration {
    Declaration({one}, [Required(tracker)], true, Build)
  }

  /** `ComponentRegistrarImpl.getComponents()`. */
  function Registrar(one: Token, two: Token, tracker: Token): seq<Declaration> {
    [TwoDecl(one, two), OneDecl(one, tracker)]
  }

  /** `Component.of(initTracker, InitTracker.class)`. */
  function TrackerValue(tracker: Token): Declaration {
    Prebuilt(TrackerTag, {tracker})
  }

  /** The valid graph: the registrar's components, then the tracker. */
  function ValidGraph(one: Token, two: Token, tracker: Token): seq<Declaration> {
    [TwoDecl(one, two), OneDecl(one, tracker), TrackerValue(tracker)]
  }

  /** `InitTracker.isInitialized()`: `ComponentOneImpl`'s constructor
      initializes the tracker it is given, so the tracker is initialized
      once a factory run for `one` has received it. */
  predicate Initialized(rt: ComponentRuntime, one: Token, tracker: Instance)
    reads rt
  {
    exists k :: 0 <= k < |rt.made| && rt.made[k].decl < |rt.decls| &&
      one in rt.decls[rt.made[k].decl].interfaces && Inst(tracker) in rt.made[k].args
  }

  /** What the object `inst` was given for its `k`-th dependency, read back
      through a getter such as `getOne()` or `getTracker()`. */
  function Injected(rt: ComponentRuntime, inst: Instance, k: nat): Option<Arg>
    reads rt
  {
    if inst.Made? && inst.serial < |rt.made| && k < |rt.made[inst.serial].args|
    then Some(rt.made[inst.serial].args[k])
    else None
  }

  /** The valid graph passes validation. */
  lemma ValidGraphAccepted(one: Token, two: Token, tracker: Token)
    requires Classes(one, two, tracker)
    ensures Validate(ValidGraph(one, two, tracker)).Success?
  {
    var ds := ValidGraph(one, two, tracker);
    var o := [2, 1, 0];
    assert Topological(ds, o) by {
      NoEdge(ds, 2, 2); NoEdge(ds, 2, 1); NoEdge(ds, 2, 0);
      NoEdge(ds, 1, 1); NoEdge(ds, 1, 0); NoEdge(ds, 0, 0);
    }
    assert forall x: nat :: x < |ds| ==> x in o;
    assert Provided(ds, ds[0].deps[0].target) by { assert one in ds[1].interfaces; }
    assert Provided(ds, ds[1].deps[0].target) by { assert tracker in ds[2].interfaces; }
    AcceptedWith(ds, o);
  }

  /** The registrar followed by the tracker is the valid graph. */
  lemma ValidGraphAssembled(one: Token, two: Token, tracker: Token)
    ensures Concat([Registrar(one, two, tracker)]) + [TrackerValue(tracker)] == ValidGraph(one, two, tracker)
  {
    assert Concat([Registrar(one, two, tracker)]) == Registrar(one, two, tracker);
  }

  /** In the valid graph, a constructed `ComponentOne` holds the test's
      tracker object itself. */
  lemma OneHoldsTracker(rt: ComponentRuntime, one: Token, two: Token, tracker: Token)
    requires Classes(one, two, tracker)
    requires rt.Valid() && rt.decls == ValidGraph(one, two, tracker) && 1 in rt.slots
    ensures Injected(rt, rt.slots[1], 0) == Some(Inst(Host(TrackerTag)))
  {
    assert tracker in rt.decls[2].interfaces;
    rt.InjectedInstance(1, 0);
    rt.PrebuiltByIdentity(2);
  }

  /** In the valid graph, the tracker is initialized once `ComponentOne` is
      constructed. */
  lemma TrackerInitialized(rt: ComponentRuntime, one: Token, two: Token, tracker: Token)
    requires Classes(one, two, tracker)
    requires rt.Valid() && rt.decls == ValidGraph(one, two, tracker) && 1 in rt.slots
    ensures Initialized(rt, one, Host(TrackerTag))
  {
    OneHoldsTracker(rt, one, two, tracker);
    assert Inst(Host(TrackerTag)) in rt.made[rt.slots[1].serial].args;
  }

  /** ComponentRuntimeTest.java:85-101: constructing the runtime initializes nothing;
      `initializeEagerComponents(true)` constructs every component, the
      eager `ComponentOne` among them, which initializes the tracker. */
  method EagerInitializationScenario(one: Token, two: Token, tracker: Token) returns (before: bool, after: bool)
    requires Classes(one, two, tracker)
    ensures !before && after
  {
    ValidGraphAccepted(one, two, tracker);
    ValidGraphAssembled(one, two, tracker);
    var r := Create([Registrar(one, two, tracker)], [TrackerValue(tracker)]);
    var rt := r.value;
    before := Initialized(rt, one, Host(TrackerTag));
    rt.InitializeEagerComponents(true);
    after := Initialized(rt, one, Host(TrackerTag));
    TrackerInitialized(rt, one, two, tracker);
  }

  /** Pulling the valid graph's only eager declaration, `ComponentOne`,
      reaches `ComponentOne` and the tracker, never `ComponentTwo`. */
  lemma {:induction false} EagerReach(rt: ComponentRuntime, one: Token, two: Token, tracker: Token, n: nat)
    requires Classes(one, two, tracker)
    requires rt.Wired() && rt.decls == ValidGraph(one, two, tracker) && n <= |rt.order|
    ensures 0 !in rt.Forced(n, false)
  {
    if n > 0 {
      EagerReach(rt, one, two, tracker, n - 1);
      var x := rt.order[n - 1];
      if rt.decls[x].eager {
        assert x == 1;
        assert tracker in rt.decls[2].interfaces;
        assert rt.Reach(2) == {2};
        assert rt.ReachDeps(1, 1) == rt.Reach(2);
      }
    }
  }

  /** `initializeEagerComponents(false)` on the valid graph constructs the
      eager `ComponentOne`, which initializes the tracker, and leaves the
      lazy `ComponentTwo` unconstructed. */
  method EagerOnlyScenario(one: Token, two: Token, tracker: Token) returns (oneBuilt: bool, twoBuilt: bool, after: bool)
    requires Classes(one, two, tracker)
    ensures oneBuilt
    ensures !twoBuilt
    ensures after
  {
    ValidGraphAccepted(one, two, tracker);
    ValidGraphAssembled(one, two, tracker);
    var r := Create([Registrar(one, two, tracker)], [TrackerValue(tracker)]);
    var rt := r.value;
    rt.InitializeEagerComponents(false);
    assert rt.decls[1].eager;
    EagerReach(rt, one, two, tracker, |rt.order|);
    assert 0 !in rt.slots.Keys;
    oneBuilt := 1 in rt.slots;
    twoBuilt := 0 in rt.slots;
    after := Initialized(rt, one, Host(TrackerTag));
    TrackerInitialized(rt, one, two, tracker);
  }

  /** In the valid graph, a constructed `ComponentTwo` holds an instance of
      `ComponentOne` made by an earlier factory run, and that instance holds
      the tracker, now initialized. */
  lemma TwoHoldsOne(rt: ComponentRuntime, one: Token, two: Token, tracker: Token)
    requires Classes(one, two, tracker)
    requires rt.Valid() && rt.decls == ValidGraph(one, two, tracker) && 0 in rt.slots
    ensures 1 in rt.slots && Injected(rt, rt.slots[0], 0) == Some(Inst(rt.slots[1]))
    ensures rt.slots[0].Made? && rt.slots[1].Made? && rt.slots[1].serial < rt.slots[0].serial
    ensures Injected(rt, rt.slots[1], 0) == Some(Inst(Host(TrackerTag)))
    ensures Initialized(rt, one, Host(TrackerTag))
  {
    assert one in rt.decls[1].interfaces;
    rt.InjectedInstance(0, 0);
    rt.DependencyBuiltFirst(0, 0);
    OneHoldsTracker(rt, one, two, tracker);
    TrackerInitialized(rt, one, two, tracker);
  }

  /** ComponentRuntimeTest.java:103-120: `get(ComponentTwo)` constructs `ComponentOne` first;
      the `ComponentOne` injected into it holds the very tracker object it
      was registered with, now initialized. */
  method InjectionScenario(one: Token, two: Token, tracker: Token)
    returns (before: bool, component: Instance, injected: Option<Arg>, held: Option<Arg>, after: bool)
    requires Classes(one, two, tracker)
    ensures !before && after
    ensures injected.Some? && injected.value.Inst?
    ensures held == Some(Inst(Host(TrackerTag)))
    ensures component.Made? && injected.value.instance.Made? && injected.value.instance.serial < component.serial
  {
    ValidGraphAccepted(one, two, tracker);
    ValidGraphAssembled(one, two, tracker);
    var r := Create([Registrar(one, two, tracker)], [TrackerValue(tracker)]);
    var rt := r.value;
    before := Initialized(rt, one, Host(TrackerTag));
    assert two in rt.decls[0].interfaces;
    var got := rt.Get(Some(two));
    component := got.value.value;
    TwoHoldsOne(rt, one, two, tracker);
    injected := Injected(rt, component, 0);
    held := Injected(rt, injected.value.instance, 0);
    after := Initialized(rt, one, Host(TrackerTag));
  }

  /** The registrar's declarations are the registrar's list itself. */
  lemma RegistrarAssembled(one: Token, two: Token, tracker: Token)
    ensures Concat([Registrar(one, two, tracker)]) == [TwoDecl(one, two), OneDecl(one, tracker)]
  {
    assert [Registrar(one, two, tracker)][..0] == [];
  }

  /** The tracker of the cyclic test: built from a `ComponentTwo`. */
  function CyclicTracker(two: Token, tracker: Token): Declaration {
    Declaration({tracker}, [Required(two)], false, Build)
  }

  /** ComponentRuntimeTest.java:122-136: the tracker closes the cycle
      InitTracker -> ComponentTwo -> ComponentOne -> InitTracker, and
      construction fails with the cycle error. */
  lemma CyclicGraphRejected(one: Token, two: Token, tracker: Token)
    requires Classes(one, two, tracker)
    ensures Validate(Concat([Registrar(one, two, tracker)]) + [CyclicTracker(two, tracker)]) == Failure(DependencyCycle)
  {
    RegistrarAssembled(one, two, tracker);
    var ds := Concat([Registrar(one, two, tracker)]) + [CyclicTracker(two, tracker)];
    assert ds == [TwoDecl(one, two), OneDecl(one, tracker), CyclicTracker(two, tracker)];
    var p := [2, 0, 1, 2];
    assert Edge(ds, 2, 0) && Edge(ds, 0, 1) && Edge(ds, 1, 2);
    assert IsDirectCycle(ds, p);
    RejectedByCycle(ds, p);
  }

  /** The second `ComponentOne` of the duplicate test, with no dependency. */
  function SecondOne(one: Token): Declaration {
    Declaration({one}, [], false, Build)
  }

  /** ComponentRuntimeTest.java:138-149: a second provider of
      `ComponentOne` is rejected, and it is the added declaration that is
      reported. */
  lemma DuplicateProviderRejected(one: Token, two: Token, tracker: Token)
    requires Classes(one, two, tracker)
    ensures Validate(Concat([Registrar(one, two, tracker)]) + [SecondOne(one)]) == Failure(DuplicateProvider(2))
  {
    RegistrarAssembled(one, two, tracker);
    var ds := Concat([Registrar(one, two, tracker)]) + [SecondOne(one)];
    assert ds == [TwoDecl(one, two), OneDecl(one, tracker), SecondOne(one)];
    assert !(ds[1].interfaces !! ds[2].interfaces) by { assert one in ds[1].interfaces * ds[2].interfaces; }
    ValidateCorrect(ds);
    var j := Validate(ds).error.decl;
    var i, t :| 0 <= i < j && t in ds[i].interfaces && t in ds[j].interfaces;
  }

  /** The registrar's list alone lacks a provider of `InitTracker`. */
  lemma RegistrarMissesTracker(one: Token, two: Token, tracker: Token)
    requires Classes(one, two, tracker)
    ensures Validate([TwoDecl(one, two), OneDecl(one, tracker)]) == Failure(MissingDependency(1, tracker))
  {
    var ds := [TwoDecl(one, two), OneDecl(one, tracker)];
    var o := [1, 0];
    assert Topological(ds, o) by {
      NoEdge(ds, 1, 1); NoEdge(ds, 1, 0); NoEdge(ds, 0, 0);
    }
    assert forall x: nat :: x < |ds| ==> x in o;
    TopologicalAcyclic(ds, o);
    assert Provided(ds, one) by { assert one in ds[1].interfaces; }
    assert !Provided(ds, tracker);
    assert !Covered(ds) by { assert ds[1].deps[0].required && ds[1].deps[0].target == tracker; }
    ValidateCorrect(ds);
  }

  /** ComponentRuntimeTest.java:151-159: without the tracker, `ComponentOne`'s required
      `InitTracker` has no provider. */
  lemma MissingDependencyRejected(one: Token, two: Token, tracker: Token)
    requires Classes(one, two, tracker)
    ensures Validate(Concat([Registrar(one, two, tracker)]) + []) == Failure(MissingDependency(1, tracker))
  {
    RegistrarAssembled(one, two, tracker);
    assert Concat([Registrar(one, two, tracker)]) + [] == [TwoDecl(one, two), OneDecl(one, tracker)];
    RegistrarMissesTracker(one, two, tracker);
  }

  /** `CyclicOne` needs `CyclicTwo` directly; `CyclicTwo` needs a provider
      of `CyclicOne`. */
  function ProviderCycle(first: Token, second: Token): seq<Declaration> {
    [ Declaration({first}, [Required(second)], false, Build),
      Declaration({second}, [RequiredProvider(first)], false, Build) ]
  }

  /** A cycle through a PROVIDER edge passes validation. */
  lemma ProviderCycleAccepted(first: Token, second: Token)
    requires first != second
    ensures Validate(ProviderCycle(first, second)).Success?
  {
    var ds := ProviderCycle(first, second);
    var o := [1, 0];
    assert Topological(ds, o) by {
      NoEdge(ds, 1, 1); NoEdge(ds, 1, 0); NoEdge(ds, 0, 0);
    }
    assert forall x: nat :: x < |ds| ==> x in o;
    assert Provided(ds, ds[0].deps[0].target) by { assert second in ds[1].interfaces; }
    assert Provided(ds, ds[1].deps[0].target) by { assert first in ds[0].interfaces; }
    AcceptedWith(ds, o);
  }

  /** Once `CyclicOne` is constructed, it holds the constructed `CyclicTwo`,
      which holds the provider of `CyclicOne`. */
  lemma CycleWired(rt: ComponentRuntime, first: Token, second: Token)
    requires first != second
    requires rt.Valid() && rt.decls == ProviderCycle(first, second) && 0 in rt.slots
    ensures 1 in rt.slots && Injected(rt, rt.slots[0], 0) == Some(Inst(rt.slots[1]))
    ensures Injected(rt, rt.slots[1], 0) == Some(Deferred(Handle(0)))
  {
    assert first in rt.decls[0].interfaces && second in rt.decls[1].interfaces;
    rt.InjectedInstance(0, 0);
    rt.InjectedHandle(1, 0);
  }

  /** ComponentRuntimeTest.java:177-197: `get(CyclicOne)` succeeds; the provider that
      `CyclicTwo` received later resolves to the very same `CyclicOne`. */
  method ProviderCycleScenario(first: Token, second: Token)
    returns (one: Instance, two: Option<Arg>, provider: Option<Arg>, resolved: Instance)
    requires first != second
    ensures two.Some? && two.value.Inst?
    ensures provider.Some? && provider.value.Deferred?
    ensures resolved == one
  {
    ProviderCycleAccepted(first, second);
    assert Concat([]) + ProviderCycle(first, second) == ProviderCycle(first, second);
    var r := Create([], ProviderCycle(first, second));
    var rt := r.value;
    assert first in rt.decls[0].interfaces;
    var got := rt.Get(Some(first));
    one := got.value.value;
    assert 0 in rt.slots && one == rt.slots[0];
    CycleWired(rt, first, second);
    two := Injected(rt, one, 0);
    provider := Injected(rt, two.value.instance, 0);
    assert provider.value.handle == Handle(0);
    resolved := rt.ProviderGet(provider.value.handle);
  }

  /** The runtime over no declarations at all. */
  method EmptyRuntime() returns (rt: ComponentRuntime)
    ensures fresh(rt) && rt.Valid() && rt.decls == []
  {
    assert Topological([], []);
    AcceptedWith([], []);
    assert Concat([]) + [] == [];
    var r := Create([], []);
    rt := r.value;
  }

  /** ComponentRuntimeTest.java:199-208: `get(null)` throws. */
  method GetNullScenario() returns (r: Result<Option<Instance>, LookupError>)
    ensures r == Failure(NullInterface)
  {
    var rt := EmptyRuntime();
    r := rt.Get(None);
  }

  /** ComponentRuntimeTest.java:210-214: `get` of an interface nobody provides returns null. */
  method GetMissingScenario(t: Token) returns (r: Result<Option<Instance>, LookupError>)
    ensures r == Success(None)
  {
    var rt := EmptyRuntime();
    r := rt.Get(Some(t));
  }

  /** One declaration providing both `Child` and `Parent`. */
  function MultiInterface(child: Token, parent: Token): seq<Declaration> {
    [Declaration({child, parent}, [], false, Build)]
  }

  /** The declaration providing two interfaces passes validation. */
  lemma MultiInterfaceAccepted(child: Token, parent: Token)
    ensures Validate(MultiInterface(child, parent)).Success?
  {
    var ds := MultiInterface(child, parent);
    assert Topological(ds, [0]) by { NoEdge(ds, 0, 0); }
    assert forall x: nat :: x < |ds| ==> x in [0];
    AcceptedWith(ds, [0]);
  }

  /** ComponentRuntimeTest.java:220-235: a declaration providing `Child` and `Parent` gives the
      identical provider for both, and both resolve to the identical
      instance. */
  method MultiInterfaceScenario(child: Token, parent: Token) returns (
    forChild: Result<Option<Handle>, LookupError>, forParent: Result<Option<Handle>, LookupError>,
    a: Instance, b: Instance)
    ensures forChild.Success? && forChild.value.Some?
    ensures forChild == forParent
    ensures a == b
  {
    MultiInterfaceAccepted(child, parent);
    assert Concat([]) + MultiInterface(child, parent) == MultiInterface(child, parent);
    var r := Create([], MultiInterface(child, parent));
    var rt := r.value;
    rt.SameHandleForEveryInterface(0, child, parent);
    forChild := rt.GetProvider(Some(child));
    forParent := rt.GetProvider(Some(parent));
    a := rt.ProviderGet(forChild.value.value);
    b := rt.ProviderGet(forParent.value.value);
  }
}
