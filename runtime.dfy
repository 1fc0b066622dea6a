/**
 * The component runtime: a container built once from a closed, validated
 * list of declarations. It keeps one instance slot per declaration, empty
 * until the instance is first pulled, and fills it by running that
 * declaration's factory after its DIRECT dependencies have been pulled in
 * turn.
 */
module Runtime {
  import opened Wrappers
  import opened Components
  import opened DependencyGraph
  import opened CycleDetector
  import opened Validation

  /** `get(null)` and `getProvider(null)` throw a `NullPointerException`. */
  datatype LookupError = NullInterface

  class ComponentRuntime {
    /** The declarations, in registration order. */
    const decls: seq<Declaration>
    /** The interface index: each provided interface to its declaration. */
    const owner: map<Token, nat>
    /** The construction order found by the cycle detector. */
    const order: seq<nat>
    /** Each declaration's position in `order`; it decreases along every
        DIRECT edge, which is why pulling an instance always terminates. */
    ghost const rank: seq<nat>

    /** The instance slots: a declaration is a key once it is constructed. */
    var slots: map<nat, Instance>
    /** The factory runs so far; the `k`-th produced `Made(k)`. */
    var made: seq<Record>

    /** What validation established about the immutable part. */
    ghost predicate Wired() {
      WiredFor(decls, owner, order, rank)
    }

    /** `rank` has a position per declaration, and the parts below hold. */
    static ghost predicate WiredFor(decls: seq<Declaration>, owner: map<Token, nat>, order: seq<nat>, rank: seq<nat>) {
      && |rank| == |decls|
      && IndexFor(decls, owner)
      && CoversFor(decls, owner)
      && RankedFor(decls, owner, rank)
      && ListsAll(decls, order)
    }

    /** The interface index `owner` sends each provided interface to its one
        provider, and nothing else. */
    static ghost predicate IndexFor(decls: seq<Declaration>, owner: map<Token, nat>) {
      && (forall t :: t in owner ==> owner[t] < |decls| && t in decls[owner[t]].interfaces)
      && (forall i, t :: 0 <= i < |decls| && t in decls[i].interfaces ==> t in owner && owner[t] == i)
    }

    /** Every required dependency's interface is in the index. */
    static ghost predicate CoversFor(decls: seq<Declaration>, owner: map<Token, nat>) {
      forall i, k :: 0 <= i < |decls| && 0 <= k < |decls[i].deps| && decls[i].deps[k].required ==>
        decls[i].deps[k].target in owner
    }

    /** `rank` decreases along every DIRECT edge. */
    static ghost predicate RankedFor(decls: seq<Declaration>, owner: map<Token, nat>, rank: seq<nat>) {
      forall i, k ::
        (0 <= i < |rank| && i < |decls| && 0 <= k < |decls[i].deps| && decls[i].deps[k].kind == Direct &&
         decls[i].deps[k].target in owner && owner[decls[i].deps[k].target] < |rank|) ==>
        rank[owner[decls[i].deps[k].target]] < rank[i]
    }

    /** `order` lists declarations only, and each of them. */
    static ghost predicate ListsAll(decls: seq<Declaration>, order: seq<nat>) {
      && (forall q :: 0 <= q < |order| ==> order[q] < |decls|)
      && (forall i: nat :: i < |decls| ==> i in order)
    }

    /** What a factory receives for `dep` when the slots are `s`: the
        dependency's instance, its provider handle, or null. */
    function ArgFor(dep: Dependency, s: map<nat, Instance>): Arg {
      if dep.target !in owner then Absent
      else if dep.kind == Provider then Deferred(Handle(owner[dep.target]))
      else if owner[dep.target] in s then Inst(s[owner[dep.target]])
      else Absent
    }

    /** The arguments of declaration `i`'s factory when the slots are `s`. */
    function ArgsFor(i: nat, s: map<nat, Instance>): seq<Arg>
      requires i < |decls|
    {
      ArgsUpTo(i, |decls[i].deps|, s)
    }

    /** The arguments for the first `n` dependencies of declaration `i`. */
    function ArgsUpTo(i: nat, n: nat, s: map<nat, Instance>): (r: seq<Arg>)
      requires i < |decls| && n <= |decls[i].deps|
      ensures |r| == n
    {
      if n == 0 then [] else ArgsUpTo(i, n - 1, s) + [ArgFor(decls[i].deps[n - 1], s)]
    }

    /** The `k`-th argument is the one for the `k`-th dependency. */
    lemma {:induction false} ArgsUpToAt(i: nat, n: nat, s: map<nat, Instance>, k: nat)
      requires i < |decls| && k < n <= |decls[i].deps|
      ensures ArgsUpTo(i, n, s)[k] == ArgFor(decls[i].deps[k], s)
    {
      if k < n - 1 {
        ArgsUpToAt(i, n - 1, s, k);
      }
    }

    /** Every DIRECT dependency of `i` that has a provider is constructed. */
    ghost predicate DepsBuilt(i: nat, s: map<nat, Instance>)
      requires i < |decls|
    {
      forall k :: 0 <= k < |decls[i].deps| && decls[i].deps[k].kind == Direct && decls[i].deps[k].target in owner ==>
        owner[decls[i].deps[k].target] in s
    }

    /** Slot `i` holds what `i`'s factory gives: the pre-built value itself,
        or the object of a factory run that received `i`'s arguments. */
    ghost predicate SlotFits(i: nat, s: map<nat, Instance>, m: seq<Record>)
      requires i < |decls| && i in s
    {
      match decls[i].factory
      case Value(tag) => s[i] == Host(tag)
      case Build => s[i].Made? && s[i].serial < |m| && m[s[i].serial] == Record(i, ArgsFor(i, s))
    }

    /** The container invariant over slots `s` and factory runs `m`. Besides
        the above, each factory run belongs to the slot holding its object,
        so no factory ever runs twice, and the runs happened in dependency
        order. */
    ghost predicate Consistent(s: map<nat, Instance>, m: seq<Record>) {
      && Wired()
      && (forall i :: i in s ==> i < |decls| && DepsBuilt(i, s) && SlotFits(i, s, m))
      && (forall k :: 0 <= k < |m| ==> m[k].decl in s && s[m[k].decl] == Made(k))
      && Chronological(m)
    }

    /** Every object a factory run received was made by an earlier run: a
        dependency is constructed before its dependent. */
    static ghost predicate Chronological(m: seq<Record>) {
      forall k :: 0 <= k < |m| ==> MadeBefore(m[k].args, k)
    }

    /** Every object among `args` was made by one of the first `k` runs. */
    static ghost predicate MadeBefore(args: seq<Arg>, k: nat) {
      forall q :: 0 <= q < |args| && args[q].Inst? && args[q].instance.Made? ==> args[q].instance.serial < k
    }

    /** The objects among the current arguments of a declaration were all
        made by the runs so far. */
    lemma ArgsEarlier(s: map<nat, Instance>, m: seq<Record>, i: nat, q: nat)
      requires Consistent(s, m) && i < |decls| && q < |decls[i].deps|
      requires ArgsFor(i, s)[q].Inst? && ArgsFor(i, s)[q].instance.Made?
      ensures ArgsFor(i, s)[q].instance.serial < |m|
    {
      ArgsUpToAt(i, |decls[i].deps|, s, q);
      var j := owner[decls[i].deps[q].target];
      assert SlotFits(j, s, m);
    }

    /** The container invariant of the current state. */
    ghost predicate Valid()
      reads this
    {
      Consistent(slots, made)
    }

    /** Filling the empty slot of a declaration whose DIRECT dependencies
        are all constructed, with what its factory gives for the current
        arguments, keeps the invariant. */
    lemma Fill(s: map<nat, Instance>, m: seq<Record>, i: nat, inst: Instance, m': seq<Record>)
      requires Consistent(s, m) && i < |decls| && i !in s && DepsBuilt(i, s)
      requires decls[i].factory.Value? ==> inst == Host(decls[i].factory.tag) && m' == m
      requires decls[i].factory.Build? ==> inst == Made(|m|) && m' == m + [Record(i, ArgsFor(i, s))]
      ensures Consistent(s[i := inst], m')
    {
      var s' := s[i := inst];
      forall j | j in s ensures ArgsFor(j, s') == ArgsFor(j, s) {
        ArgsFrame(j, s, s');
      }
      ArgsFrame(i, s, s');
      forall j | j in s' ensures j < |decls| && DepsBuilt(j, s') && SlotFits(j, s', m') {
        if j != i {
          assert SlotFits(j, s, m);
        }
      }
      FillChronological(s, m, i, m');
    }

    /** The factory run that fills slot `i` receives only objects of
        earlier runs, so the runs stay in dependency order. */
    lemma FillChronological(s: map<nat, Instance>, m: seq<Record>, i: nat, m': seq<Record>)
      requires Consistent(s, m) && i < |decls|
      requires m' == m || m' == m + [Record(i, ArgsFor(i, s))]
      ensures Chronological(m')
    {
      forall k | 0 <= k < |m'| ensures MadeBefore(m'[k].args, k) {
        if k == |m| {
          forall q | 0 <= q < |m'[k].args| && m'[k].args[q].Inst? && m'[k].args[q].instance.Made?
            ensures m'[k].args[q].instance.serial < k
          {
            ArgsEarlier(s, m, i, q);
          }
        } else {
          assert m'[k] == m[k];
        }
      }
    }

    /** Declaration `i` and everything it reaches along DIRECT edges: what
        pulling `i` constructs when nothing is constructed yet. */
    ghost function Reach(i: nat): set<nat>
      requires Wired() && i < |decls|
      decreases rank[i], |decls[i].deps| + 1
    {
      {i} + ReachDeps(i, |decls[i].deps|)
    }

    /** What the first `n` dependencies of `i` reach along DIRECT edges. */
    ghost function ReachDeps(i: nat, n: nat): set<nat>
      requires Wired() && i < |decls| && n <= |decls[i].deps|
      decreases rank[i], n
    {
      if n == 0 then {}
      else
        var dep := decls[i].deps[n - 1];
        ReachDeps(i, n - 1) + (if dep.kind == Direct && dep.target in owner then Reach(owner[dep.target]) else {})
    }

    /** What pulling each selected declaration of `order[..n]` reaches. */
    ghost function Forced(n: nat, forceAll: bool): set<nat>
      requires Wired() && n <= |order|
    {
      if n == 0 then {}
      else
        var x := order[n - 1];
        Forced(n - 1, forceAll) + (if forceAll || decls[x].eager then Reach(x) else {})
    }

    lemma {:induction false} ReachBelow(i: nat, x: nat)
      requires Wired() && i < |decls| && x in Reach(i)
      ensures x < |decls| && rank[x] <= rank[i]
      decreases rank[i], |decls[i].deps| + 1
    {
      if x != i { ReachDepsBelow(i, |decls[i].deps|, x); }
    }

    lemma {:induction false} ReachDepsBelow(i: nat, n: nat, x: nat)
      requires Wired() && i < |decls| && n <= |decls[i].deps| && x in ReachDeps(i, n)
      ensures x < |decls| && rank[x] < rank[i]
      decreases rank[i], n
    {
      var dep := decls[i].deps[n - 1];
      if x in ReachDeps(i, n - 1) {
        ReachDepsBelow(i, n - 1, x);
      } else {
        ReachBelow(owner[dep.target], x);
      }
    }

    lemma {:induction false} ReachInside(i: nat, s: map<nat, Instance>)
      requires Wired() && i < |decls| && i in s
      requires forall j :: j in s ==> j < |decls| && DepsBuilt(j, s)
      ensures Reach(i) <= s.Keys
      decreases rank[i], |decls[i].deps| + 1
    {
      ReachDepsInside(i, |decls[i].deps|, s);
    }

    lemma {:induction false} ReachDepsInside(i: nat, n: nat, s: map<nat, Instance>)
      requires Wired() && i < |decls| && n <= |decls[i].deps| && i in s
      requires forall j :: j in s ==> j < |decls| && DepsBuilt(j, s)
      ensures ReachDeps(i, n) <= s.Keys
      decreases rank[i], n
    {
      if n > 0 {
        ReachDepsInside(i, n - 1, s);
        var dep := decls[i].deps[n - 1];
        if dep.kind == Direct && dep.target in owner {
          assert DepsBuilt(i, s);
          ReachInside(owner[dep.target], s);
        }
      }
    }

    /** Filling more slots leaves the arguments of the first `n`
        dependencies unchanged once their DIRECT targets are constructed. */
    lemma {:induction false} ArgsFrameUpTo(i: nat, n: nat, s: map<nat, Instance>, s': map<nat, Instance>)
      requires i < |decls| && n <= |decls[i].deps|
      requires forall k :: 0 <= k < n && decls[i].deps[k].kind == Direct && decls[i].deps[k].target in owner ==>
        owner[decls[i].deps[k].target] in s
      requires forall j :: j in s ==> j in s' && s'[j] == s[j]
      ensures ArgsUpTo(i, n, s') == ArgsUpTo(i, n, s)
    {
      if n > 0 {
        ArgsFrameUpTo(i, n - 1, s, s');
      }
    }

    lemma ArgsFrame(i: nat, s: map<nat, Instance>, s': map<nat, Instance>)
      requires i < |decls| && DepsBuilt(i, s)
      requires forall j :: j in s ==> j in s' && s'[j] == s[j]
      ensures ArgsFor(i, s') == ArgsFor(i, s)
    {
      ArgsFrameUpTo(i, |decls[i].deps|, s, s');
    }

    /** `args` are the arguments for the first `d` dependencies of `i` under
        slots `s`, and those of them that are DIRECT are constructed. */
    ghost predicate ArgsSoFar(i: nat, args: seq<Arg>, d: nat, s: map<nat, Instance>)
      requires i < |decls| && d <= |decls[i].deps|
    {
      && (forall k :: 0 <= k < d && decls[i].deps[k].kind == Direct && decls[i].deps[k].target in owner ==>
            owner[decls[i].deps[k].target] in s)
      && args == ArgsUpTo(i, d, s)
    }

    /** Collected arguments stay right when more slots are filled, and grow
        by the argument for the next dependency. */
    lemma ArgsStep(i: nat, args: seq<Arg>, d: nat, s: map<nat, Instance>, s': map<nat, Instance>, a: Arg)
      requires i < |decls| && d < |decls[i].deps| && ArgsSoFar(i, args, d, s)
      requires forall j :: j in s ==> j in s' && s'[j] == s[j]
      requires a == ArgFor(decls[i].deps[d], s')
      requires decls[i].deps[d].kind == Direct && decls[i].deps[d].target in owner ==>
        owner[decls[i].deps[d].target] in s'
      ensures ArgsSoFar(i, args + [a], d + 1, s')
    {
      ArgsFrameUpTo(i, d, s, s');
    }

    /** Builds the runtime for declarations `ds` that passed validation with
        construction order `o`. Nothing is constructed yet. */
    constructor (ds: seq<Declaration>, o: seq<nat>)
      requires Validate(ds) == Success(o)
      ensures Valid() && decls == ds && order == o && slots == map[] && made == []
    {
      decls := ds;
      owner := Owners(ds, |ds|);
      order := o;
      rank := RankOf(o, |ds|);
      slots := map[];
      made := [];
      new;
      Accepted(ds, o);
      Wiring(ds, o);
    }

    /** Declarations that pass the checks, their interface index, their order and the
        positions in it are wired as the runtime needs. */
    static lemma Wiring(ds: seq<Declaration>, o: seq<nat>)
      requires UniqueProviders(ds) && Covered(ds) && IsConstructionOrder(ds, o)
      ensures WiredFor(ds, Owners(ds, |ds|), o, RankOf(o, |ds|))
    {
      IndexFacts(ds);
      RankFacts(ds, o);
      OrderFacts(ds, o);
    }

    static lemma OrderFacts(ds: seq<Declaration>, o: seq<nat>)
      requires IsConstructionOrder(ds, o)
      ensures ListsAll(ds, o)
    {
      forall q | 0 <= q < |o| ensures o[q] < |ds| {
        assert o[q] in o;
      }
    }

    static ghost function RankOf(o: seq<nat>, n: nat): (r: seq<nat>)
      ensures |r| == n && forall i :: 0 <= i < n && i in o ==> r[i] == IndexOf(o, i)
    {
      seq(n, i => if i in o then IndexOf(o, i) else 0)
    }

    static lemma IndexFacts(ds: seq<Declaration>)
      requires UniqueProviders(ds) && Covered(ds)
      ensures IndexFor(ds, Owners(ds, |ds|)) && CoversFor(ds, Owners(ds, |ds|))
    {
      OwnerFacts(ds);
      CoverFacts(ds);
    }

    /** With unique providers, the index sends each interface to the one
        declaration providing it. */
    static lemma OwnerFacts(ds: seq<Declaration>)
      requires UniqueProviders(ds)
      ensures IndexFor(ds, Owners(ds, |ds|))
    {
      forall i, t | 0 <= i < |ds| && t in ds[i].interfaces
        ensures t in Owners(ds, |ds|) && Owners(ds, |ds|)[t] == i
      {
        OwnersUnique(ds, i, t);
      }
    }

    /** When required dependencies are covered, their interfaces are all in
        the index. */
    static lemma CoverFacts(ds: seq<Declaration>)
      requires Covered(ds)
      ensures CoversFor(ds, Owners(ds, |ds|))
    {
      forall i, k | 0 <= i < |ds| && 0 <= k < |ds[i].deps| && ds[i].deps[k].required
        ensures ds[i].deps[k].target in Owners(ds, |ds|)
      {
        assert Provided(ds, ds[i].deps[k].target);
        ProvidedByAt(ds, |ds|, ds[i].deps[k].target);
      }
    }

    static lemma RankFacts(ds: seq<Declaration>, o: seq<nat>)
      requires IsConstructionOrder(ds, o)
      ensures RankedFor(ds, Owners(ds, |ds|), RankOf(o, |ds|))
    {
      var m := Owners(ds, |ds|);
      var r := RankOf(o, |ds|);
      forall i, k | 0 <= i < |ds| && 0 <= k < |ds[i].deps| && ds[i].deps[k].kind == Direct && ds[i].deps[k].target in m
        ensures r[m[ds[i].deps[k].target]] < r[i]
      {
        var j := m[ds[i].deps[k].target];
        DirectIntoAt(ds[i].deps, ds[j].interfaces);
        assert Edge(ds, i, j);
        var a, b := IndexOf(o, i), IndexOf(o, j);
      }
    }

    /** `getProvider(t)`: fails on null; otherwise the handle of the one
        declaration providing `t`, or null when none does. It constructs
        nothing. */
    function GetProvider(t: Option<Token>): (r: Result<Option<Handle>, LookupError>)
      requires Wired()
      ensures r.Failure? <==> t.None?
      ensures t.Some? ==> (r == Success(None) <==> !Provided(decls, t.value))
      ensures r.Success? && r.value.Some? ==>
        r.value.value.decl < |decls| && t.value in decls[r.value.value.decl].interfaces
    {
      if t.None? then Failure(NullInterface)
      else if t.value in owner then Success(Some(Handle(owner[t.value])))
      else Success(None)
    }

    /** A constructed declaration's instance was built with the instance of
        each DIRECT dependency, which is constructed too. */
    lemma InjectedInstance(i: nat, q: nat)
      requires Valid() && i in slots && decls[i].factory.Build?
      requires q < |decls[i].deps| && decls[i].deps[q].kind == Direct && decls[i].deps[q].target in owner
      ensures var j := owner[decls[i].deps[q].target];
        && j in slots && slots[i].Made? && slots[i].serial < |made|
        && q < |made[slots[i].serial].args| && made[slots[i].serial].args[q] == Inst(slots[j])
    {
      assert SlotFits(i, slots, made);
      assert DepsBuilt(i, slots);
      ArgsUpToAt(i, |decls[i].deps|, slots, q);
    }

    /** A DIRECT dependency that a factory builds was constructed before its
        dependent: its factory run comes earlier in the log. */
    lemma DependencyBuiltFirst(i: nat, q: nat)
      requires Valid() && i in slots && decls[i].factory.Build?
      requires q < |decls[i].deps| && decls[i].deps[q].kind == Direct && decls[i].deps[q].target in owner
      requires decls[owner[decls[i].deps[q].target]].factory.Build?
      ensures var j := owner[decls[i].deps[q].target];
        && j in slots && slots[j].Made? && slots[i].Made? && slots[j].serial < slots[i].serial
    {
      InjectedInstance(i, q);
      var j := owner[decls[i].deps[q].target];
      assert SlotFits(j, slots, made);
    }

    /** A constructed declaration's instance was built with the handle of
        each PROVIDER dependency. */
    lemma InjectedHandle(i: nat, q: nat)
      requires Valid() && i in slots && decls[i].factory.Build?
      requires q < |decls[i].deps| && decls[i].deps[q].kind == Provider && decls[i].deps[q].target in owner
      ensures && slots[i].Made? && slots[i].serial < |made| && q < |made[slots[i].serial].args|
              && made[slots[i].serial].args[q] == Deferred(Handle(owner[decls[i].deps[q].target]))
    {
      assert SlotFits(i, slots, made);
      ArgsUpToAt(i, |decls[i].deps|, slots, q);
    }

    /** A constructed pre-built declaration holds its value itself. */
    lemma PrebuiltByIdentity(i: nat)
      requires Valid() && i in slots && decls[i].factory.Value?
      ensures slots[i] == Host(decls[i].factory.tag)
    {
      assert SlotFits(i, slots, made);
    }

    /** All interfaces of one declaration give the identical handle. */
    lemma SameHandleForEveryInterface(i: nat, t: Token, u: Token)
      requires Wired() && i < |decls| && t in decls[i].interfaces && u in decls[i].interfaces
      ensures GetProvider(Some(t)) == GetProvider(Some(u)) == Success(Some(Handle(i)))
    {
    }

    /** A factory never runs twice for the same declaration. */
    lemma FactoryRunsOnce(k: nat, k': nat)
      requires Valid() && k < |made| && k' < |made| && made[k].decl == made[k'].decl
      ensures k == k'
    {
    }

    /** Every factory run received something for each of its required
        dependencies: an instance for a DIRECT one, a handle for a PROVIDER
        one, and never null. */
    lemma RequiredDependenciesInjected(k: nat, q: nat)
      requires Valid() && k < |made|
      requires made[k].decl < |decls| && q < |decls[made[k].decl].deps| && decls[made[k].decl].deps[q].required
      ensures q < |made[k].args|
      ensures decls[made[k].decl].deps[q].kind == Direct ==> made[k].args[q].Inst?
      ensures decls[made[k].decl].deps[q].kind == Provider ==> made[k].args[q].Deferred?
    {
      var i := made[k].decl;
      assert SlotFits(i, slots, made);
      assert DepsBuilt(i, slots);
      ArgsUpToAt(i, |decls[i].deps|, slots, q);
    }

    /** `Provider.get()` on the handle of declaration `h.decl`: the cached
        instance if there is one; otherwise pull every DIRECT dependency
        first, run the factory with the arguments its dependencies call for,
        and cache the result. */
    method ProviderGet(h: Handle) returns (inst: Instance)
      requires Valid() && h.decl < |decls|
      modifies this
      ensures Valid()
      ensures h.decl in slots && inst == slots[h.decl]
      ensures slots.Keys == old(slots.Keys) + Reach(h.decl)
      ensures forall j :: j in old(slots) ==> slots[j] == old(slots)[j]
      ensures old(made) <= made
      ensures old(h.decl in slots) ==> slots == old(slots) && made == old(made)
      decreases rank[h.decl], 2
    {
      var i := h.decl;
      if i in slots {
        ReachInside(i, slots);
        inst := slots[i];
        return;
      }
      var args := PullDependencies(i);
      ghost var m := made;
      match decls[i].factory {
        case Build =>
          inst := Made(|made|);
          made := made + [Record(i, args)];
        case Value(tag) =>
          inst := Host(tag);
      }
      Fill(slots, m, i, inst, made);
      slots := slots[i := inst];
    }

    /** Pulls each DIRECT dependency of declaration `i` in turn and collects
        the arguments of `i`'s factory. `i` itself stays unconstructed:
        everything pulled ranks below it. */
    method PullDependencies(i: nat) returns (args: seq<Arg>)
      requires Valid() && i < |decls| && i !in slots
      modifies this
      ensures Valid() && i !in slots
      ensures DepsBuilt(i, slots) && args == ArgsFor(i, slots)
      ensures slots.Keys == old(slots.Keys) + ReachDeps(i, |decls[i].deps|)
      ensures forall j :: j in old(slots) ==> slots[j] == old(slots)[j]
      ensures old(made) <= made
      decreases rank[i], 1
    {
      ghost var start := slots.Keys;
      args := [];
      var d := 0;
      while d < |decls[i].deps|
        invariant Valid() && d <= |decls[i].deps|
        invariant i !in slots
        invariant slots.Keys == start + ReachDeps(i, d)
        invariant forall j :: j in old(slots) ==> j in slots && slots[j] == old(slots)[j]
        invariant old(made) <= made
        invariant ArgsSoFar(i, args, d, slots)
      {
        args := PullDependency(i, d, start, args);
        d := d + 1;
      }
    }

    /** Pulls the `d`-th dependency of declaration `i` when it is DIRECT, and
        appends what `i`'s factory receives for it (the instance, the
        provider handle, or null when nobody provides the interface) to the
        arguments collected for the dependencies before it. */
    method PullDependency(i: nat, d: nat, ghost start: set<nat>, args: seq<Arg>) returns (args': seq<Arg>)
      requires Valid() && i < |decls| && d < |decls[i].deps| && i !in slots
      requires slots.Keys == start + ReachDeps(i, d) && ArgsSoFar(i, args, d, slots)
      modifies this
      ensures Valid() && i !in slots
      ensures slots.Keys == start + ReachDeps(i, d + 1) && ArgsSoFar(i, args', d + 1, slots)
      ensures forall j :: j in old(slots) ==> slots[j] == old(slots)[j]
      ensures old(made) <= made
      decreases rank[i], 0
    {
      ghost var s := slots;
      var dep := decls[i].deps[d];
      var a: Arg;
      if dep.target !in owner {
        a := Absent;
      } else if dep.kind == Provider {
        a := Deferred(Handle(owner[dep.target]));
      } else {
        var j := owner[dep.target];
        var x := ProviderGet(Handle(j));
        forall y | y in Reach(j) ensures y != i {
          ReachBelow(j, y);
        }
        a := Inst(x);
      }
      ReachDepsGrow(i, d, start, s.Keys, slots.Keys);
      ArgsStep(i, args, d, s, slots, a);
      args' := args + [a];
    }

    /** Pulling one more dependency grows what has been pulled by what that
        dependency reaches. */
    lemma ReachDepsGrow(i: nat, d: nat, start: set<nat>, before: set<nat>, after: set<nat>)
      requires Wired() && i < |decls| && d < |decls[i].deps|
      requires before == start + ReachDeps(i, d)
      requires var dep := decls[i].deps[d];
        after == before + (if dep.kind == Direct && dep.target in owner then Reach(owner[dep.target]) else {})
      ensures after == start + ReachDeps(i, d + 1)
    {
    }

    /** `get(t)`: fails on null, returns null when no declaration provides
        `t`, and otherwise pulls the providing declaration's instance. */
    method Get(t: Option<Token>) returns (r: Result<Option<Instance>, LookupError>)
      requires Valid()
      modifies this
      ensures Valid()
      ensures t.None? ==> r == Failure(NullInterface)
      ensures t.Some? && !Provided(decls, t.value) ==> r == Success(None)
      ensures t.None? || !Provided(decls, t.value) ==> slots == old(slots) && made == old(made)
      ensures t.Some? && Provided(decls, t.value) ==>
        var i := owner[t.value];
        && i < |decls| && t.value in decls[i].interfaces
        && i in slots && r == Success(Some(slots[i]))
        && slots.Keys == old(slots.Keys) + Reach(i)
        && (forall j :: j in old(slots) ==> slots[j] == old(slots)[j])
        && old(made) <= made
        && (old(i in slots) ==> slots == old(slots) && made == old(made))
    {
      match GetProvider(t)
      case Failure(e) =>
        r := Failure(e);
      case Success(None) =>
        r := Success(None);
      case Success(Some(h)) =>
        var x := ProviderGet(h);
        r := Success(Some(x));
    }

    /** `initializeEagerComponents(forceAll)`: walk the construction order
        and pull every eager declaration, or every declaration when
        `forceAll` holds. */
    method InitializeEagerComponents(forceAll: bool)
      requires Valid()
      modifies this
      ensures Valid()
      ensures forall i :: 0 <= i < |decls| && (forceAll || decls[i].eager) ==> i in slots
      ensures slots.Keys == old(slots.Keys) + Forced(|order|, forceAll)
      ensures forall j :: j in old(slots) ==> slots[j] == old(slots)[j]
      ensures old(made) <= made
    {
      ghost var start := slots.Keys;
      var n := 0;
      while n < |order|
        invariant Valid() && n <= |order|
        invariant slots.Keys == start + Forced(n, forceAll)
        invariant forall j :: j in old(slots) ==> j in slots && slots[j] == old(slots)[j]
        invariant old(made) <= made
      {
        InitializeAt(n, forceAll, start);
        n := n + 1;
      }
      forall i | 0 <= i < |decls| && (forceAll || decls[i].eager) ensures i in slots {
        ForcedHas(|order|, forceAll, IndexOf(order, i));
      }
    }

    /** Pulls `order[n]` when it is selected, so that what has been pulled
        grows by what it reaches. */
    method InitializeAt(n: nat, forceAll: bool, ghost start: set<nat>)
      requires Valid() && n < |order| && slots.Keys == start + Forced(n, forceAll)
      modifies this
      ensures Valid() && slots.Keys == start + Forced(n + 1, forceAll)
      ensures forall j :: j in old(slots) ==> slots[j] == old(slots)[j]
      ensures old(made) <= made
    {
      var x := order[n];
      ghost var pulled := if forceAll || decls[x].eager then Reach(x) else {};
      assert Forced(n + 1, forceAll) == Forced(n, forceAll) + pulled;
      if forceAll || decls[x].eager {
        var _ := ProviderGet(Handle(x));
      }
      assert slots.Keys == start + Forced(n, forceAll) + pulled;
    }

    /** Every selected declaration among `order[..n]` is in what pulling
        them reaches. */
    lemma {:induction false} ForcedHas(n: nat, forceAll: bool, q: nat)
      requires Wired() && n <= |order| && q < n && (forceAll || decls[order[q]].eager)
      ensures order[q] in Forced(n, forceAll)
    {
      if q < n - 1 {
        ForcedHas(n - 1, forceAll, q);
      }
    }
  }

  /** `new ComponentRuntime(executor, registrars, additional...)`: the
      registrars' declarations followed by the additional ones are
      validated; on failure the construction error is thrown, and otherwise
      the runtime starts with every slot empty. */
  method Create(registrars: seq<seq<Declaration>>, additional: seq<Declaration>)
    returns (r: Result<ComponentRuntime, ConstructionError>)
    ensures var ds := Concat(registrars) + additional;
      && (Validate(ds).Failure? ==> r == Failure(Validate(ds).error))
      && (Validate(ds).Success? ==>
            && r.Success? && fresh(r.value) && r.value.Valid()
            && r.value.decls == ds && r.value.order == Validate(ds).value
            && r.value.slots == map[] && r.value.made == [])
  {
    var ds := Concat(registrars) + additional;
    match Validate(ds) {
      case Failure(e) =>
        r := Failure(e);
      case Success(o) =>
        var rt := new ComponentRuntime(ds, o);
        r := Success(rt);
    }
  }
}
