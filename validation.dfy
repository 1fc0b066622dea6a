/**
 * What runtime construction checks before it creates anything: interfaces
 * are provided at most once, no cycle is made of DIRECT edges, and every
 * required dependency has a provider. The checks run in that order and the
 * first failure is the one reported.
 */
module Validation {
  import opened Wrappers
  import opened Components
  import opened DependencyGraph
  import opened CycleDetector

  /** The three exceptions a runtime's construction can throw: the
      illegal-argument error for a second provider of an interface (with the
      position of the declaration that re-provides it),
      `DependencyCycleException`, and `MissingDependencyException` (with the
      declaration and the interface nobody provides). */
  datatype ConstructionError =
    | DuplicateProvider(decl: nat)
    | DependencyCycle
    | MissingDependency(decl: nat, target: Token)

  /** All registrars' declarations, concatenated in registrar order. */
  function Concat(registrars: seq<seq<Declaration>>): seq<Declaration> {
    if |registrars| == 0 then [] else Concat(registrars[..|registrars| - 1]) + registrars[|registrars| - 1]
  }

  /** The checks of runtime construction; on success, the construction
      order the detector found. */
  function Validate(ds: seq<Declaration>): Result<seq<nat>, ConstructionError> {
    match FindDuplicate(ds, 0, {})
    case Some(j) => Failure(DuplicateProvider(j))
    case None =>
      match Order(ds, Nodes(ds))
      case None => Failure(DependencyCycle)
      case Some(o) =>
        match FindMissing(ds, 0)
        case Some((i, t)) => Failure(MissingDependency(i, t))
        case None => Success(o)
  }

  /** Construction is accepted exactly when providers are unique, required
      dependencies are covered and the DIRECT graph is acyclic; each failure
      names the first of these conditions that fails; on acceptance the
      order lists each declaration once, after its DIRECT dependencies. */
  lemma ValidateCorrect(ds: seq<Declaration>)
    ensures Validate(ds).Success? <==> UniqueProviders(ds) && Acyclic(ds) && Covered(ds)
    ensures Validate(ds).Success? ==> IsConstructionOrder(ds, Validate(ds).value)
    ensures Validate(ds).Failure? && Validate(ds).error.DuplicateProvider? <==> !UniqueProviders(ds)
    ensures Validate(ds) == Failure(DependencyCycle) <==> UniqueProviders(ds) && !Acyclic(ds)
    ensures Validate(ds).Failure? && Validate(ds).error.MissingDependency? <==>
      UniqueProviders(ds) && Acyclic(ds) && !Covered(ds)
    ensures Validate(ds).Failure? && Validate(ds).error.MissingDependency? ==>
      var e := Validate(ds).error;
      e.decl < |ds| && !Provided(ds, e.target) &&
      exists k :: 0 <= k < |ds[e.decl].deps| && ds[e.decl].deps[k].required && ds[e.decl].deps[k].target == e.target
    ensures Validate(ds).Failure? && Validate(ds).error.DuplicateProvider? ==>
      var j := Validate(ds).error.decl;
      j < |ds| && exists i, t :: 0 <= i < j && t in ds[i].interfaces && t in ds[j].interfaces
  {
    FindDuplicateCorrect(ds);
    OrderCorrect(ds);
    FindMissingCorrect(ds);
  }

  /** What an accepted list of declarations satisfies, with its order. */
  lemma Accepted(ds: seq<Declaration>, o: seq<nat>)
    requires Validate(ds) == Success(o)
    ensures UniqueProviders(ds) && Covered(ds) && IsConstructionOrder(ds, o)
  {
    ValidateCorrect(ds);
  }

  /** A topological order listing every declaration witnesses acceptance
      when providers are unique and required dependencies are covered. */
  lemma AcceptedWith(ds: seq<Declaration>, o: seq<nat>)
    requires UniqueProviders(ds) && Covered(ds)
    requires Topological(ds, o) && forall x: nat :: x < |ds| ==> x in o
    ensures Validate(ds).Success?
  {
    TopologicalAcyclic(ds, o);
    ValidateCorrect(ds);
  }

  /** A DIRECT cycle among declarations with unique providers makes
      construction fail with the cycle error, whatever else is wrong. */
  lemma RejectedByCycle(ds: seq<Declaration>, p: seq<nat>)
    requires UniqueProviders(ds) && IsDirectCycle(ds, p)
    ensures Validate(ds) == Failure(DependencyCycle)
  {
    ValidateCorrect(ds);
  }
}
