/**
 * The dependency graph over a closed list of declarations, and the two
 * checks done on it before any cycle analysis: every interface has at most
 * one provider, and every required dependency has one.
 *
 * Declarations are identified by their position in the list (registration
 * order).
 */
module DependencyGraph {
  import opened Wrappers
  import opened Components

  /** Declaration `i` has a DIRECT edge to declaration `j`: one of `i`'s
      DIRECT dependencies (required or optional) names an interface that `j`
      provides. PROVIDER dependencies give no edge: they may be circular. */
  predicate Edge(ds: seq<Declaration>, i: nat, j: nat) {
    i < |ds| && j < |ds| && DirectInto(ds[i].deps, ds[j].interfaces)
  }

  /** Some DIRECT dependency among `deps` names an interface in `ifaces`. */
  predicate DirectInto(deps: seq<Dependency>, ifaces: set<Token>) {
    deps != [] && ((deps[0].kind == Direct && deps[0].target in ifaces) || DirectInto(deps[1..], ifaces))
  }

  /** `DirectInto` holds exactly when some DIRECT dependency names an
      interface in `ifaces`. */
  lemma {:induction false} DirectIntoAt(deps: seq<Dependency>, ifaces: set<Token>)
    ensures DirectInto(deps, ifaces) <==>
      exists k :: 0 <= k < |deps| && deps[k].kind == Direct && deps[k].target in ifaces
  {
    if deps != [] {
      DirectIntoAt(deps[1..], ifaces);
      if DirectInto(deps[1..], ifaces) {
        var k :| 0 <= k < |deps[1..]| && deps[1..][k].kind == Direct && deps[1..][k].target in ifaces;
        assert deps[k + 1] == deps[1..][k];
      }
      if exists k :: 0 <= k < |deps| && deps[k].kind == Direct && deps[k].target in ifaces {
        var k :| 0 <= k < |deps| && deps[k].kind == Direct && deps[k].target in ifaces;
        if k > 0 { assert deps[1..][k - 1] == deps[k]; }
      }
    }
  }

  /** No edge from `i` to `j` when none of `i`'s DIRECT dependencies names
      an interface of `j`. */
  lemma NoEdge(ds: seq<Declaration>, i: nat, j: nat)
    requires i < |ds| && j < |ds|
    requires forall k :: 0 <= k < |ds[i].deps| && ds[i].deps[k].kind == Direct ==>
      ds[i].deps[k].target !in ds[j].interfaces
    ensures !Edge(ds, i, j)
  {
    DirectIntoAt(ds[i].deps, ds[j].interfaces);
  }

  /** `p` is a closed walk of DIRECT edges: it starts and ends at the same
      declaration and takes at least one edge. */
  ghost predicate IsDirectCycle(ds: seq<Declaration>, p: seq<nat>) {
    && |p| >= 2
    && p[0] == p[|p| - 1]
    && forall k :: 0 <= k < |p| - 1 ==> Edge(ds, p[k], p[k + 1])
  }

  /** No cycle is made of DIRECT edges only. */
  ghost predicate Acyclic(ds: seq<Declaration>) {
    forall p :: !IsDirectCycle(ds, p)
  }

  /** Reference definition: no two declarations provide a common interface. */
  predicate UniqueProviders(ds: seq<Declaration>) {
    forall i, j :: 0 <= i < j < |ds| ==> ds[i].interfaces !! ds[j].interfaces
  }

  /** Reference definition: every required dependency names an interface
      that some declaration provides. */
  predicate Covered(ds: seq<Declaration>) {
    forall i, k :: 0 <= i < |ds| && 0 <= k < |ds[i].deps| && ds[i].deps[k].required ==>
      Provided(ds, ds[i].deps[k].target)
  }

  /** Some declaration provides `t`. */
  predicate Provided(ds: seq<Declaration>, t: Token) {
    exists j :: 0 <= j < |ds| && t in ds[j].interfaces
  }

  /** The interfaces provided by the first `n` declarations. */
  function ProvidedBy(ds: seq<Declaration>, n: nat): set<Token>
    requires n <= |ds|
  {
    if n == 0 then {} else ProvidedBy(ds, n - 1) + ds[n - 1].interfaces
  }

  /** An interface is provided by the first `n` declarations exactly when
      one of them names it. */
  lemma {:induction false} ProvidedByAt(ds: seq<Declaration>, n: nat, t: Token)
    requires n <= |ds|
    ensures t in ProvidedBy(ds, n) <==> exists i :: 0 <= i < n && t in ds[i].interfaces
  {
    if n > 0 {
      ProvidedByAt(ds, n - 1, t);
    }
  }

  /** The duplicate check, as the runtime does it while indexing the
      declarations: walk them in order with the set of interfaces seen so
      far, and stop at the first declaration that provides one again.
      The result is that declaration's position. */
  function FindDuplicate(ds: seq<Declaration>, k: nat, seen: set<Token>): Option<nat>
    requires k <= |ds|
    decreases |ds| - k
  {
    if k == |ds| then None
    else if seen !! ds[k].interfaces then FindDuplicate(ds, k + 1, seen + ds[k].interfaces)
    else Some(k)
  }

  lemma {:induction false} FindDuplicateFrom(ds: seq<Declaration>, k: nat)
    requires k <= |ds|
    ensures FindDuplicate(ds, k, ProvidedBy(ds, k)).None? <==>
      forall j :: k <= j < |ds| ==> ProvidedBy(ds, j) !! ds[j].interfaces
    ensures FindDuplicate(ds, k, ProvidedBy(ds, k)).Some? ==>
      var j := FindDuplicate(ds, k, ProvidedBy(ds, k)).value;
      k <= j < |ds| && !(ProvidedBy(ds, j) !! ds[j].interfaces)
    decreases |ds| - k
  {
    if k < |ds| {
      assert ProvidedBy(ds, k) + ds[k].interfaces == ProvidedBy(ds, k + 1);
      FindDuplicateFrom(ds, k + 1);
    }
  }

  /** The scan finds a duplicate exactly when some interface has two
      providers; the position it reports provides again an interface that an
      earlier declaration already provides. */
  lemma FindDuplicateCorrect(ds: seq<Declaration>)
    ensures FindDuplicate(ds, 0, {}).None? <==> UniqueProviders(ds)
    ensures FindDuplicate(ds, 0, {}).Some? ==>
      var j := FindDuplicate(ds, 0, {}).value;
      j < |ds| && exists i, t :: 0 <= i < j && t in ds[i].interfaces && t in ds[j].interfaces
  {
    FindDuplicateFrom(ds, 0);
    assert ProvidedBy(ds, 0) == {};
    if UniqueProviders(ds) {
      forall j | 0 <= j < |ds| ensures ProvidedBy(ds, j) !! ds[j].interfaces {
        forall t | t in ProvidedBy(ds, j) ensures t !in ds[j].interfaces {
          ProvidedByAt(ds, j, t);
          var i :| 0 <= i < j && t in ds[i].interfaces;
          assert ds[i].interfaces !! ds[j].interfaces;
        }
      }
    } else {
      var i, j :| 0 <= i < j < |ds| && !(ds[i].interfaces !! ds[j].interfaces);
      var t :| t in ds[i].interfaces && t in ds[j].interfaces;
      ProvidedByAt(ds, j, t);
    }
    var r := FindDuplicate(ds, 0, {});
    if r.Some? {
      var j := r.value;
      var t :| t in ProvidedBy(ds, j) && t in ds[j].interfaces;
      ProvidedByAt(ds, j, t);
      var i :| 0 <= i < j && t in ds[i].interfaces;
    }
  }

  /** The interface index: every provided interface mapped to its provider.
      It is built left to right, so on a duplicate the later declaration
      wins; construction is rejected before that can matter. */
  function Owners(ds: seq<Declaration>, n: nat): (m: map<Token, nat>)
    requires n <= |ds|
    ensures m.Keys == ProvidedBy(ds, n)
    ensures forall t :: t in m ==> m[t] < n && t in ds[m[t]].interfaces
  {
    if n == 0 then map[]
    else
      var added := ds[n - 1].interfaces;
      Owners(ds, n - 1) + map t | t in added :: n - 1
  }

  /** With unique providers, the index sends each interface to the one
      declaration that provides it. */
  lemma OwnersUnique(ds: seq<Declaration>, i: nat, t: Token)
    requires UniqueProviders(ds) && i < |ds| && t in ds[i].interfaces
    ensures t in Owners(ds, |ds|) && Owners(ds, |ds|)[t] == i
  {
    ProvidedByAt(ds, |ds|, t);
  }

  /** The first required dependency among `deps[k..]` whose interface is not
      in `provided`, as its position. */
  function MissingAmong(deps: seq<Dependency>, provided: set<Token>, k: nat): (r: Option<nat>)
    requires k <= |deps|
    ensures r.None? <==> forall q :: k <= q < |deps| && deps[q].required ==> deps[q].target in provided
    ensures r.Some? ==> k <= r.value < |deps| && deps[r.value].required && deps[r.value].target !in provided
    decreases |deps| - k
  {
    if k == |deps| then None
    else if deps[k].required && deps[k].target !in provided then Some(k)
    else MissingAmong(deps, provided, k + 1)
  }

  /** The missing-dependency check, as the runtime does it after indexing:
      the first declaration (from position `i` on) with a required
      dependency whose interface is not in the index, with that interface. */
  function FindMissing(ds: seq<Declaration>, i: nat): Option<(nat, Token)>
    requires i <= |ds|
    decreases |ds| - i
  {
    if i == |ds| then None
    else match MissingAmong(ds[i].deps, Owners(ds, |ds|).Keys, 0)
      case Some(q) => Some((i, ds[i].deps[q].target))
      case None => FindMissing(ds, i + 1)
  }

  lemma {:induction false} FindMissingFrom(ds: seq<Declaration>, i: nat)
    requires i <= |ds|
    ensures FindMissing(ds, i).None? <==>
      forall a, k :: i <= a < |ds| && 0 <= k < |ds[a].deps| && ds[a].deps[k].required ==>
        Provided(ds, ds[a].deps[k].target)
    ensures FindMissing(ds, i).Some? ==>
      var (a, t) := FindMissing(ds, i).value;
      i <= a < |ds| && !Provided(ds, t) &&
      exists k :: 0 <= k < |ds[a].deps| && ds[a].deps[k].required && ds[a].deps[k].target == t
    decreases |ds| - i
  {
    if i < |ds| {
      var provided := Owners(ds, |ds|).Keys;
      forall t ensures t in provided <==> Provided(ds, t) {
        ProvidedByAt(ds, |ds|, t);
      }
      FindMissingFrom(ds, i + 1);
      var m := MissingAmong(ds[i].deps, provided, 0);
      if m.Some? {
        var q := m.value;
        assert !Provided(ds, ds[i].deps[q].target);
      }
    }
  }

  /** The scan finds a missing dependency exactly when some required
      dependency has no provider; the interface it reports is a required
      dependency of the reported declaration that nobody provides. */
  lemma FindMissingCorrect(ds: seq<Declaration>)
    ensures FindMissing(ds, 0).None? <==> Covered(ds)
    ensures FindMissing(ds, 0).Some? ==>
      var (a, t) := FindMissing(ds, 0).value;
      a < |ds| && !Provided(ds, t) &&
      exists k :: 0 <= k < |ds[a].deps| && ds[a].deps[k].required && ds[a].deps[k].target == t
  {
    FindMissingFrom(ds, 0);
  }
}
