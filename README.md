# Component runtime of firebase-common, modelled in Dafny

This project models the dependency-injection runtime of `firebase-common`
(`ComponentRuntime`, `Component`, `Dependency`, `Provider`, the cycle
detector and the construction exceptions), pinned to the behaviour that
`ComponentRuntimeTest.java` fixes.

A *component* (here a `Declaration`) provides a non-empty set of interfaces.
It depends on other interfaces, each dependency being required or optional
and DIRECT (an instance) or PROVIDER (a lazy handle). It is eager or lazy,
and it has a factory. Interfaces are tokens (`nat`); Java's `null` token is
`Option.None`.

The runtime works in two stages.

* **Construction** (`Validation.Validate`, `Runtime.Create`). The
  registrars' components and the additional ones are concatenated and
  checked in this order:
  1. no interface has two providers (`IllegalArgumentException`);
  2. no cycle is made of DIRECT edges only (`DependencyCycleException`);
     PROVIDER edges may be circular;
  3. every required dependency has a provider (`MissingDependencyException`).

  The cycle detector peels off components that have no DIRECT edge into the
  components left, which also yields a construction order. Construction
  builds nothing.
* **The container** (`Runtime.ComponentRuntime`). It keeps one instance slot
  per component, empty until the component is first pulled.
  * `get(t)` fails on null and returns null for an interface nobody
    provides. Otherwise it pulls the providing component: the component's
    DIRECT dependencies are pulled first, then its factory runs once, and
    the result is cached.
  * `getProvider(t)` returns the component's handle. Its `Provider.get()`
    goes through the same cache.
  * `initializeEagerComponents(forceAll)` pulls every eager component, or
    every component, in construction order.

  A factory is modelled abstractly. A built component yields a fresh
  instance `Made(k)`, and the log `made` records the arguments that factory
  run received. A pre-built value (`Component.of`) yields the value itself,
  `Host(tag)`.

The container invariant `Valid()` says four things. Every filled slot holds
what its factory gives for the current arguments. Every factory run belongs
to the slot holding its object, so no factory runs twice. Every filled
slot's DIRECT dependencies are filled. Every object a factory run received
was made by an earlier run, so dependencies are constructed before their
dependents. `rank` (a position in the construction order) decreases along
each DIRECT edge, so pulling always terminates, and a component is never
pulled again while it is being constructed.

Files: `wrappers.dfy` (Option, Result), `components.dfy` (the data model),
`graph.dfy` (edges, the duplicate and missing-dependency checks),
`cycle_detector.dfy`, `validation.dfy`, `runtime.dfy` (the container) and
`scenarios.dfy` (the test's scenarios). The scenarios take the test's
classes as interface-token parameters, so each one holds for any choice of
distinct tokens.

## Model

All source lines are in `firebase-common/src/test/java/com/google/firebase/components/ComponentRuntimeTest.java`.

| member | source | states |
|---|---|---|
| DependencyGraph.DirectIntoAt | firebase-common/src/test/java/com/google/firebase/components/ComponentRuntimeTest.java:72-81 | an edge from a component to another exists exactly when one of its DIRECT dependencies names an interface the other provides |
| DependencyGraph.FindDuplicateCorrect | firebase-common/src/test/java/com/google/firebase/components/ComponentRuntimeTest.java:138-149 | the duplicate scan succeeds exactly when no two components share an interface; if it fails, the component it reports provides again an interface that an earlier component provides |
| DependencyGraph.OwnersUnique | firebase-common/src/test/java/com/google/firebase/components/ComponentRuntimeTest.java:220-235 | with unique providers, the interface index sends every interface of a component to that component |
| DependencyGraph.MissingAmong | firebase-common/src/test/java/com/google/firebase/components/ComponentRuntimeTest.java:151-159 | it returns nothing exactly when every required dependency's interface is among those provided; otherwise it returns the position of a required dependency whose interface is not provided |
| DependencyGraph.FindMissingCorrect | firebase-common/src/test/java/com/google/firebase/components/ComponentRuntimeTest.java:151-159 | the missing-dependency scan succeeds exactly when every required dependency has a provider; if it fails, the interface it reports is a required dependency of the component it reports, and nobody provides that interface |
| CycleDetector.FindSink | firebase-common/src/test/java/com/google/firebase/components/ComponentRuntimeTest.java:122-136 | it returns the first position holding a component with no DIRECT edge into the remaining components, or nothing when there is no such component |
| CycleDetector.OrderSound | firebase-common/src/test/java/com/google/firebase/components/ComponentRuntimeTest.java:86-101 | a successful peeling lists each remaining component exactly once, and each one after every component it has a DIRECT edge to |
| CycleDetector.CycleWhenStuck | firebase-common/src/test/java/com/google/firebase/components/ComponentRuntimeTest.java:122-136 | when the peeling gets stuck, there is a closed walk of DIRECT edges |
| CycleDetector.TopologicalAcyclic | firebase-common/src/test/java/com/google/firebase/components/ComponentRuntimeTest.java:177-197 | an order of all components in which no component has an edge to itself or to a later component rules out every DIRECT cycle |
| CycleDetector.OrderCorrect | firebase-common/src/test/java/com/google/firebase/components/ComponentRuntimeTest.java:122-136 | the detector peels every component if and only if the DIRECT graph is acyclic, and then its order is a construction order |
| Validation.ValidateCorrect | firebase-common/src/test/java/com/google/firebase/components/ComponentRuntimeTest.java:122-159 | construction is accepted if and only if providers are unique, the DIRECT graph is acyclic and required dependencies are covered; each error is reported exactly when its check is the first to fail; the duplicate and missing-dependency errors name the declarations they concern; an accepted order is a construction order |
| Validation.Accepted | firebase-common/src/test/java/com/google/firebase/components/ComponentRuntimeTest.java:86-94 | an accepted component list has unique providers and covered dependencies, and its order is a construction order |
| Validation.AcceptedWith | firebase-common/src/test/java/com/google/firebase/components/ComponentRuntimeTest.java:177-190 | unique providers, covered dependencies and an order of all components with no backward DIRECT edge guarantee acceptance, whatever the PROVIDER edges |
| Validation.RejectedByCycle | firebase-common/src/test/java/com/google/firebase/components/ComponentRuntimeTest.java:122-136 | with unique providers, any DIRECT cycle makes construction fail with the cycle error |
| Runtime.Create | firebase-common/src/test/java/com/google/firebase/components/ComponentRuntimeTest.java:90-96 | construction throws exactly the validation error, if there is one; otherwise the new runtime holds the concatenated components and the order found, satisfies the invariant, and has no slot filled and no factory run |
| Runtime.ComponentRuntime.constructor | firebase-common/src/test/java/com/google/firebase/components/ComponentRuntimeTest.java:90-96 | for validated components the runtime starts with the invariant, every slot empty and no factory run |
| Runtime.ComponentRuntime.Wiring | firebase-common/src/test/java/com/google/firebase/components/ComponentRuntimeTest.java:86-94 | for components that pass the checks, the interface index, the order and the positions in it satisfy everything the container relies on |
| Runtime.ComponentRuntime.Fill | firebase-common/src/test/java/com/google/firebase/components/ComponentRuntimeTest.java:115-119 | caching what a component's factory gives, once its DIRECT dependencies are constructed, keeps the container invariant |
| Runtime.ComponentRuntime.FillChronological | firebase-common/src/test/java/com/google/firebase/components/ComponentRuntimeTest.java:115-117 | the factory run that fills a slot receives only objects made by earlier runs, so the log stays in dependency order |
| Runtime.ComponentRuntime.GetProvider | firebase-common/src/test/java/com/google/firebase/components/ComponentRuntimeTest.java:220-233 | `getProvider` fails exactly on null; it returns null exactly when nobody provides the interface; otherwise it returns the handle of a component providing it |
| Runtime.ComponentRuntime.SameHandleForEveryInterface | firebase-common/src/test/java/com/google/firebase/components/ComponentRuntimeTest.java:220-233 | every interface of one component gives the identical handle |
| Runtime.ComponentRuntime.ProviderGet | firebase-common/src/test/java/com/google/firebase/components/ComponentRuntimeTest.java:191-196 | `Provider.get()` keeps the invariant and returns the instance cached in the component's slot. The new filled slots are the old ones plus all that the component reaches along DIRECT edges. Old slots keep their instances and the factory log only grows. A cached instance is returned with nothing changed |
| Runtime.ComponentRuntime.PullDependencies | firebase-common/src/test/java/com/google/firebase/components/ComponentRuntimeTest.java:115-117 | pulling a component's DIRECT dependencies keeps the invariant and leaves the component unconstructed; it fills exactly what they reach and yields the factory's arguments for the new slots |
| Runtime.ComponentRuntime.PullDependency | firebase-common/src/test/java/com/google/firebase/components/ComponentRuntimeTest.java:115-117 | pulling one more dependency keeps the invariant, leaves the component unconstructed, grows the filled slots by what that dependency reaches and appends the factory's argument for it |
| Runtime.ComponentRuntime.Get | firebase-common/src/test/java/com/google/firebase/components/ComponentRuntimeTest.java:199-214 | `get` fails on null and returns null for an interface nobody provides, both without changing anything; otherwise it returns the providing component's cached instance with the same guarantees as `Provider.get()` |
| Runtime.ComponentRuntime.InitializeEagerComponents | firebase-common/src/test/java/com/google/firebase/components/ComponentRuntimeTest.java:98-100 | afterwards every eager component (every component when forced) is constructed, the filled slots are exactly the old ones plus what the selected components reach, old slots are unchanged and the invariant holds |
| Runtime.ComponentRuntime.InitializeAt | firebase-common/src/test/java/com/google/firebase/components/ComponentRuntimeTest.java:98-100 | one step of the walk pulls the next component of the order when it is selected: the filled slots grow by what it reaches, old slots are unchanged and the invariant holds |
| Runtime.ComponentRuntime.ForcedHas | firebase-common/src/test/java/com/google/firebase/components/ComponentRuntimeTest.java:98-100 | every selected component in the walked prefix of the order is among what the walk constructs |
| Runtime.ComponentRuntime.InjectedInstance | firebase-common/src/test/java/com/google/firebase/components/ComponentRuntimeTest.java:115-117 | a constructed component was built with the cached instance of each DIRECT dependency, and that dependency is constructed |
| Runtime.ComponentRuntime.DependencyBuiltFirst | firebase-common/src/test/java/com/google/firebase/components/ComponentRuntimeTest.java:115-117 | a DIRECT dependency built by a factory was constructed before its dependent: its factory run comes earlier |
| Runtime.ComponentRuntime.InjectedHandle | firebase-common/src/test/java/com/google/firebase/components/ComponentRuntimeTest.java:193-195 | a constructed component was built with the handle of each PROVIDER dependency |
| Runtime.ComponentRuntime.PrebuiltByIdentity | firebase-common/src/test/java/com/google/firebase/components/ComponentRuntimeTest.java:117 | a constructed pre-built component holds its value itself, not a copy |
| Runtime.ComponentRuntime.FactoryRunsOnce | firebase-common/src/test/java/com/google/firebase/components/ComponentRuntimeTest.java:191-196 | no factory runs twice for the same component |
| Runtime.ComponentRuntime.RequiredDependenciesInjected | firebase-common/src/test/java/com/google/firebase/components/ComponentRuntimeTest.java:116 | every factory run received a non-null argument for each required dependency: an instance for a DIRECT one, a handle for a PROVIDER one |
| Scenarios.ValidGraphAccepted | firebase-common/src/test/java/com/google/firebase/components/ComponentRuntimeTest.java:69-94 | the registrar's components plus the pre-built tracker pass validation |
| Scenarios.OneHoldsTracker | firebase-common/src/test/java/com/google/firebase/components/ComponentRuntimeTest.java:117 | a constructed `ComponentOne` holds the test's own tracker object |
| Scenarios.TrackerInitialized | firebase-common/src/test/java/com/google/firebase/components/ComponentRuntimeTest.java:96-100 | once `ComponentOne` is constructed, the tracker is initialized |
| Scenarios.EagerInitializationScenario | firebase-common/src/test/java/com/google/firebase/components/ComponentRuntimeTest.java:85-101 | the tracker is not initialized after construction and is initialized after `initializeEagerComponents(true)` |
| Scenarios.EagerReach | firebase-common/src/test/java/com/google/firebase/components/ComponentRuntimeTest.java:73-80 | pulling the eager components of the registrar's graph never reaches the lazy `ComponentTwo` |
| Scenarios.EagerOnlyScenario | firebase-common/src/test/java/com/google/firebase/components/ComponentRuntimeTest.java:77-80 | `initializeEagerComponents(false)` constructs the eager `ComponentOne`, initializing the tracker, and leaves the lazy `ComponentTwo` unconstructed |
| Scenarios.TwoHoldsOne | firebase-common/src/test/java/com/google/firebase/components/ComponentRuntimeTest.java:115-119 | a constructed `ComponentTwo` holds the constructed `ComponentOne`, made by an earlier factory run, which holds the tracker, now initialized |
| Scenarios.InjectionScenario | firebase-common/src/test/java/com/google/firebase/components/ComponentRuntimeTest.java:103-120 | the tracker is not initialized before `get(ComponentTwo)`; afterwards `ComponentTwo` holds an instance of `ComponentOne` that was made first and holds the very tracker object, now initialized |
| Scenarios.RegistrarAssembled | firebase-common/src/test/java/com/google/firebase/components/ComponentRuntimeTest.java:69-83 | the declarations of the single registrar are its list of two components |
| Scenarios.CyclicGraphRejected | firebase-common/src/test/java/com/google/firebase/components/ComponentRuntimeTest.java:122-136 | the registrar's components followed by a tracker that needs `ComponentTwo` make construction fail with the cycle error |
| Scenarios.DuplicateProviderRejected | firebase-common/src/test/java/com/google/firebase/components/ComponentRuntimeTest.java:138-149 | the registrar's components followed by a second `ComponentOne` make construction fail with the duplicate-provider error naming the added component |
| Scenarios.RegistrarMissesTracker | firebase-common/src/test/java/com/google/firebase/components/ComponentRuntimeTest.java:151-159 | the registrar's two components alone fail validation with the missing-dependency error for `ComponentOne` and `InitTracker` |
| Scenarios.MissingDependencyRejected | firebase-common/src/test/java/com/google/firebase/components/ComponentRuntimeTest.java:151-159 | the registrar's components with no additional component make construction fail with the missing-dependency error for `ComponentOne` and `InitTracker` |
| Scenarios.ProviderCycleAccepted | firebase-common/src/test/java/com/google/firebase/components/ComponentRuntimeTest.java:177-190 | the cycle through a PROVIDER dependency passes validation |
| Scenarios.CycleWired | firebase-common/src/test/java/com/google/firebase/components/ComponentRuntimeTest.java:191-195 | once `CyclicOne` is constructed, it holds the constructed `CyclicTwo`, which holds the provider of `CyclicOne` |
| Scenarios.ProviderCycleScenario | firebase-common/src/test/java/com/google/firebase/components/ComponentRuntimeTest.java:177-197 | `CyclicOne` holds a `CyclicTwo` instance; that instance holds a provider; the provider resolves to the very `CyclicOne` that `get` returned |
| Scenarios.EmptyRuntime | firebase-common/src/test/java/com/google/firebase/components/ComponentRuntimeTest.java:201 | a runtime over no components can be constructed |
| Scenarios.GetNullScenario | firebase-common/src/test/java/com/google/firebase/components/ComponentRuntimeTest.java:199-208 | `get(null)` fails |
| Scenarios.GetMissingScenario | firebase-common/src/test/java/com/google/firebase/components/ComponentRuntimeTest.java:210-214 | `get` of an unregistered interface returns null |
| Scenarios.MultiInterfaceAccepted | firebase-common/src/test/java/com/google/firebase/components/ComponentRuntimeTest.java:222-226 | one component providing both `Child` and `Parent` passes validation |
| Scenarios.MultiInterfaceScenario | firebase-common/src/test/java/com/google/firebase/components/ComponentRuntimeTest.java:220-235 | `getProvider(Child)` is not null and is identical to `getProvider(Parent)`, and both resolve to the identical instance |

## Left out

- The executor (`Runnable::run`): eager initialization is a plain loop.
- Per-component locking and concurrent `get` calls: the model is single-threaded.
- Registrar discovery: each registrar is just the list of its components (`Validation.Concat`).
- Java reflection and `Class` identity: interfaces are `nat` tokens.
- Arbitrary factory lambdas. A built component yields a fresh instance and records its arguments. A factory returning `null` (the cyclic and duplicate tests) matters only as graph shape.
- The `InitTracker` class beyond its flag: `Scenarios.Initialized` reads the flag off the factory log.
- `Component.builder` checks: a component is given fully built, with its interfaces, dependencies, eagerness and factory.
- The list of components that `DependencyCycleException` carries: the model reports only that a cycle exists.
- Priority between errors: the model checks duplicates, then cycles, then missing dependencies. The duplicate test forces duplicates before missing dependencies, because it also lacks the tracker. The order between cycles and missing dependencies is a choice the test does not fix.
- Tie-breaking in the construction order: the detector takes the first peelable component in registration order. Other valid orders are not modelled.
- Re-entrant `Provider.get()` during the target's own construction: factories do not call back into the runtime. `rank` shows that pulling never reaches the component being built.
- `getProvider(null)`: the test does not call it; the model fails as `get(null)` does.
- Pre-built values are slots filled on first pull, like any other component. They are not resolved at construction. Construction therefore fills no slot at all.
- `initializeEagerComponents(forceAll)` selects the eager components, or all components when `forceAll` holds. Checking whether the app is the default app is not part of this model.
- Runtime.ComponentRuntime.InitializeEagerComponents: `true` forces every component. So at `ComponentRuntimeTest.java:98` the lazy `ComponentTwo` is built too, and the `alwaysEager()` of line 79 makes no difference there. The promise that non-eager components stay unconstructed after `initializeEagerComponents(true)` holds in this model only for `false` (`Scenarios.EagerOnlyScenario`).
- Factory failures: a factory never throws, so the model does not pass a factory's exception through to the caller of `get` or `initializeEagerComponents`.
- Optional dependencies with no provider: a factory receives null (`Absent`). The test does not use optional dependencies.
