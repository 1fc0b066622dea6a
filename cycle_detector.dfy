/**
 * The cycle detector: it peels off, one at a time, a declaration with no
 * DIRECT edge into the declarations still left (the first such in
 * registration order). When every declaration is peeled, the peeling order
 * is a safe construction order; when it gets stuck, the declarations left
 * contain a DIRECT cycle.
 */
module CycleDetector {
  import opened Wrappers
  import opened Components
  import opened DependencyGraph

  /** No two positions of `s` hold the same value. */
  ghost predicate Distinct(s: seq<nat>) {
    forall i, j :: 0 <= i < j < |s| ==> s[i] != s[j]
  }

  /** The declarations of `ds` in registration order: 0, 1, ..., |ds| - 1. */
  function Nodes(ds: seq<Declaration>): (r: seq<nat>)
    ensures |r| == |ds| && forall i :: 0 <= i < |ds| ==> r[i] == i
  {
    seq(|ds|, i => i)
  }

  /** Every declaration in `o` comes after every declaration it has a DIRECT
      edge to (so no declaration has an edge to itself either). */
  ghost predicate Topological(ds: seq<Declaration>, o: seq<nat>) {
    forall i, j :: 0 <= i <= j < |o| ==> !Edge(ds, o[i], o[j])
  }

  /** A construction order for `ds`: each declaration exactly once, every
      dependency before its dependent. */
  ghost predicate IsConstructionOrder(ds: seq<Declaration>, o: seq<nat>) {
    && |o| == |ds|
    && Distinct(o)
    && (forall x: nat :: x in o <==> x < |ds|)
    && Topological(ds, o)
  }

  /** `x` has no DIRECT edge to any declaration in `rem`. */
  predicate IsSink(ds: seq<Declaration>, x: nat, rem: seq<nat>) {
    forall y :: y in rem ==> !Edge(ds, x, y)
  }

  /** The first position, from `k` on, of a declaration in `rem` that has no
      DIRECT edge into `rem`. */
  function FindSink(ds: seq<Declaration>, rem: seq<nat>, k: nat): (r: Option<nat>)
    requires k <= |rem|
    ensures r.Some? ==> k <= r.value < |rem| && IsSink(ds, rem[r.value], rem)
    ensures r.Some? ==> forall j :: k <= j < r.value ==> !IsSink(ds, rem[j], rem)
    ensures r.None? ==> forall j :: k <= j < |rem| ==> !IsSink(ds, rem[j], rem)
    decreases |rem| - k
  {
    if k == |rem| then None
    else if IsSink(ds, rem[k], rem) then Some(k)
    else FindSink(ds, rem, k + 1)
  }

  /** The peeling order of `rem`, or `None` if the peeling gets stuck. */
  function Order(ds: seq<Declaration>, rem: seq<nat>): Option<seq<nat>>
    decreases |rem|
  {
    if rem == [] then Some([])
    else match FindSink(ds, rem, 0)
      case None => None
      case Some(k) =>
        match Order(ds, Without(rem, k))
        case None => None
        case Some(o) => Some([rem[k]] + o)
  }

  /** `rem` with position `k` taken out. */
  function Without(rem: seq<nat>, k: nat): seq<nat>
    requires k < |rem|
  {
    rem[..k] + rem[k + 1..]
  }

  /** Removing position `k` from a distinct sequence keeps it distinct and
      removes exactly the value held there. */
  lemma RemoveAt(rem: seq<nat>, k: nat)
    requires Distinct(rem) && k < |rem|
    ensures var rest := Without(rem, k);
      |rest| == |rem| - 1 && Distinct(rest) && forall y :: y in rest <==> y in rem && y != rem[k]
  {
    var rest := Without(rem, k);
    assert forall q :: 0 <= q < |rest| ==> rest[q] == rem[if q < k then q else q + 1];
    forall y | y in rem && y != rem[k] ensures y in rest {
      var q :| 0 <= q < |rem| && rem[q] == y;
      assert rest[if q < k then q else q - 1] == y;
    }
  }

  /** `o` lists the declarations of `rem` once each, every one after all
      those it has a DIRECT edge to. */
  ghost predicate PeelingOf(ds: seq<Declaration>, rem: seq<nat>, o: seq<nat>) {
    && |o| == |rem|
    && Distinct(o)
    && (forall x :: x in o <==> x in rem)
    && Topological(ds, o)
  }

  /** Putting a sink of `rem` in front of a topological order of the rest of
      `rem` gives a topological order. */
  lemma SinkFirst(ds: seq<Declaration>, rem: seq<nat>, x: nat, tail: seq<nat>)
    requires IsSink(ds, x, rem) && x in rem
    requires forall y :: y in tail ==> y in rem
    requires Topological(ds, tail)
    ensures Topological(ds, [x] + tail)
  {
    var o := [x] + tail;
    forall i, j | 0 <= i <= j < |o| ensures !Edge(ds, o[i], o[j]) {
      if i == 0 {
        assert o[j] in rem;
      } else {
        assert o[i] == tail[i - 1] && o[j] == tail[j - 1];
      }
    }
  }

  lemma ConsDistinct(x: nat, tail: seq<nat>)
    requires Distinct(tail) && x !in tail
    ensures Distinct([x] + tail)
  {
    var o := [x] + tail;
    forall i, j | 0 <= i < j < |o| ensures o[i] != o[j] {
      assert o[j] == tail[j - 1];
      if i > 0 { assert o[i] == tail[i - 1]; }
    }
  }

  /** One peeling step: a sink of `rem` followed by a peeling of the rest. */
  lemma PeelStep(ds: seq<Declaration>, rem: seq<nat>, k: nat, tail: seq<nat>)
    requires Distinct(rem) && k < |rem| && IsSink(ds, rem[k], rem)
    requires PeelingOf(ds, Without(rem, k), tail)
    ensures PeelingOf(ds, rem, [rem[k]] + tail)
  {
    RemoveAt(rem, k);
    SinkFirst(ds, rem, rem[k], tail);
    ConsDistinct(rem[k], tail);
  }

  /** How a successful peeling of a non-empty `rem` unfolds: the first sink
      comes first, then the peeling of the rest. */
  lemma OrderUnfold(ds: seq<Declaration>, rem: seq<nat>) returns (k: nat)
    requires rem != [] && Order(ds, rem).Some?
    ensures FindSink(ds, rem, 0) == Some(k) && k < |rem|
    ensures Order(ds, Without(rem, k)).Some?
    ensures Order(ds, rem).value == [rem[k]] + Order(ds, Without(rem, k)).value
  {
    k := FindSink(ds, rem, 0).value;
  }

  /** A successful peeling lists the declarations of `rem` once each, every
      one after all those it has a DIRECT edge to. */
  lemma {:induction false} OrderSound(ds: seq<Declaration>, rem: seq<nat>)
    requires Distinct(rem)
    requires Order(ds, rem).Some?
    ensures PeelingOf(ds, rem, Order(ds, rem).value)
    decreases |rem|
  {
    if rem != [] {
      var k := OrderUnfold(ds, rem);
      RemoveAt(rem, k);
      OrderSound(ds, Without(rem, k));
      PeelStep(ds, rem, k, Order(ds, Without(rem, k)).value);
    }
  }

  /** A distinct sequence drawn from a finite set is no longer than the set. */
  lemma {:induction false} DistinctBound(w: seq<nat>, s: set<nat>)
    requires Distinct(w)
    requires forall i :: 0 <= i < |w| ==> w[i] in s
    ensures |w| <= |s|
  {
    if w != [] {
      assert Distinct(w[1..]) by {
        forall i, j | 0 <= i < j < |w[1..]| ensures w[1..][i] != w[1..][j] {
          assert w[1..][i] == w[i + 1] && w[1..][j] == w[j + 1];
        }
      }
      forall i | 0 <= i < |w[1..]| ensures w[1..][i] in s - {w[0]} {
        assert w[1..][i] == w[i + 1];
        assert w[i + 1] != w[0];
      }
      DistinctBound(w[1..], s - {w[0]});
    }
  }

  /** A DIRECT walk `w` whose last declaration has an edge back to `w[a]`
      closes into a cycle. */
  lemma CloseWalk(ds: seq<Declaration>, w: seq<nat>, a: nat)
    requires a < |w|
    requires forall i :: 0 <= i < |w| - 1 ==> Edge(ds, w[i], w[i + 1])
    requires Edge(ds, w[|w| - 1], w[a])
    ensures IsDirectCycle(ds, w[a..] + [w[a]])
  {
    var p := w[a..] + [w[a]];
    forall i | 0 <= i < |p| - 1 ensures Edge(ds, p[i], p[i + 1]) {
      if i < |p| - 2 {
        assert p[i] == w[a + i] && p[i + 1] == w[a + i + 1];
      } else {
        assert p[i] == w[|w| - 1];
      }
    }
  }

  /** In a stuck `rem`, every member has a DIRECT edge to some member. */
  lemma Successor(ds: seq<Declaration>, rem: seq<nat>, x: nat) returns (y: nat)
    requires x in rem
    requires forall j :: 0 <= j < |rem| ==> !IsSink(ds, rem[j], rem)
    ensures y in rem && Edge(ds, x, y)
  {
    var q :| 0 <= q < |rem| && rem[q] == x;
    assert !IsSink(ds, rem[q], rem);
    y :| y in rem && Edge(ds, x, y);
  }

  /** A walk in `s` without repeats, extended by a new member of `s` along
      an edge, is still such a walk, and no longer than `s`. */
  lemma Extend(ds: seq<Declaration>, w: seq<nat>, y: nat, s: set<nat>)
    requires |w| >= 1 && Distinct(w) && y !in w && y in s
    requires forall i :: 0 <= i < |w| ==> w[i] in s
    requires forall i :: 0 <= i < |w| - 1 ==> Edge(ds, w[i], w[i + 1])
    requires Edge(ds, w[|w| - 1], y)
    ensures var w' := w + [y];
      && Distinct(w') && |w'| <= |s|
      && (forall i :: 0 <= i < |w'| ==> w'[i] in s)
      && (forall i :: 0 <= i < |w'| - 1 ==> Edge(ds, w'[i], w'[i + 1]))
  {
    var w' := w + [y];
    assert forall i :: 0 <= i < |w| ==> w'[i] == w[i];
    assert Distinct(w');
    DistinctBound(w', s);
  }

  /** Extends a DIRECT walk `w` without repeats inside a stuck `rem` until a
      declaration repeats, which must happen within |s| steps, and closes
      the cycle there. */
  lemma {:induction false} Walk(ds: seq<Declaration>, rem: seq<nat>, s: set<nat>, w: seq<nat>) returns (p: seq<nat>)
    requires forall j :: 0 <= j < |rem| ==> !IsSink(ds, rem[j], rem)
    requires forall y :: y in rem ==> y in s
    requires |w| >= 1 && Distinct(w) && |w| <= |s|
    requires forall i :: 0 <= i < |w| ==> w[i] in s && w[i] in rem
    requires forall i :: 0 <= i < |w| - 1 ==> Edge(ds, w[i], w[i + 1])
    ensures IsDirectCycle(ds, p)
    decreases |s| - |w|
  {
    var y := Successor(ds, rem, w[|w| - 1]);
    if y in w {
      var a :| 0 <= a < |w| && w[a] == y;
      CloseWalk(ds, w, a);
      p := w[a..] + [w[a]];
    } else {
      Extend(ds, w, y, s);
      var w' := w + [y];
      assert forall i :: 0 <= i < |w'| ==> w'[i] in rem by {
        assert forall i :: 0 <= i < |w| ==> w'[i] == w[i];
      }
      p := Walk(ds, rem, s, w');
    }
  }

  /** If every declaration of a non-empty `rem` has a DIRECT edge into
      `rem`, a DIRECT cycle runs through `rem`. */
  lemma CycleInStuck(ds: seq<Declaration>, rem: seq<nat>) returns (p: seq<nat>)
    requires rem != []
    requires forall j :: 0 <= j < |rem| ==> !IsSink(ds, rem[j], rem)
    ensures IsDirectCycle(ds, p)
  {
    var s := set y | y in rem;
    var w := [rem[0]];
    assert w[0] in s;
    DistinctBound(w, s);
    p := Walk(ds, rem, s, w);
  }

  /** When the peeling gets stuck, a DIRECT cycle runs through `rem`. */
  lemma {:induction false} CycleWhenStuck(ds: seq<Declaration>, rem: seq<nat>) returns (p: seq<nat>)
    requires Order(ds, rem).None?
    ensures IsDirectCycle(ds, p)
    decreases |rem|
  {
    match FindSink(ds, rem, 0)
    case None =>
      p := CycleInStuck(ds, rem);
    case Some(k) =>
      p := CycleWhenStuck(ds, Without(rem, k));
  }

  /** The position of `x` in `o`. */
  function IndexOf(o: seq<nat>, x: nat): (r: nat)
    requires x in o
    ensures r < |o| && o[r] == x
  {
    if o[0] == x then 0 else 1 + IndexOf(o[1..], x)
  }

  /** Along a DIRECT walk that lies inside a topological order, positions
      strictly decrease. */
  lemma {:induction false} WalkDescends(ds: seq<Declaration>, o: seq<nat>, p: seq<nat>, n: nat)
    requires Topological(ds, o)
    requires forall x: nat :: x < |ds| ==> x in o
    requires 1 <= n < |p|
    requires forall k :: 0 <= k < |p| - 1 ==> Edge(ds, p[k], p[k + 1])
    ensures p[0] in o && p[n] in o && IndexOf(o, p[n]) < IndexOf(o, p[0])
  {
    assert Edge(ds, p[n - 1], p[n]);
    var a, b := IndexOf(o, p[n - 1]), IndexOf(o, p[n]);
    if n > 1 { WalkDescends(ds, o, p, n - 1); }
  }

  /** A topological order that lists every declaration rules out every
      DIRECT cycle. */
  lemma TopologicalAcyclic(ds: seq<Declaration>, o: seq<nat>)
    requires Topological(ds, o)
    requires forall x: nat :: x < |ds| ==> x in o
    ensures Acyclic(ds)
  {
    forall p | IsDirectCycle(ds, p) ensures false {
      WalkDescends(ds, o, p, |p| - 1);
    }
  }

  /** The detector's verdict is exact: it peels every declaration if and
      only if there is no cycle of DIRECT edges, and then it yields a
      construction order. */
  lemma OrderCorrect(ds: seq<Declaration>)
    ensures Order(ds, Nodes(ds)).Some? <==> Acyclic(ds)
    ensures Order(ds, Nodes(ds)).Some? ==> IsConstructionOrder(ds, Order(ds, Nodes(ds)).value)
  {
    var all := Nodes(ds);
    forall x: nat ensures x in all <==> x < |ds| {
      if x < |ds| { assert all[x] == x; }
    }
    if Order(ds, all).Some? {
      OrderSound(ds, all);
      TopologicalAcyclic(ds, Order(ds, all).value);
    } else {
      var p := CycleWhenStuck(ds, all);
      assert !Acyclic(ds);
    }
  }
}
