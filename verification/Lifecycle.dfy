/** The guarded lifecycle of src/Lifecycle.cpp. */
module Lifecycle {
  datatype State =
    | Submitted | Planning | Planned | Queued | Preparing | Compiling | Optimizing | Linking
    | Validating | Valid | Persisting | Persisted | Deployable | Deploying | Deployed | InUse
    | Superseded | InvalidationPending | Invalidated | Corrupt | Failed | Cancelled | Retired | Terminal

  /** The position of a state in the enumeration. */
  function Ordinal(s: State): nat {
    match s
    case Submitted => 0 case Planning => 1 case Planned => 2 case Queued => 3
    case Preparing => 4 case Compiling => 5 case Optimizing => 6 case Linking => 7
    case Validating => 8 case Valid => 9 case Persisting => 10 case Persisted => 11
    case Deployable => 12 case Deploying => 13 case Deployed => 14 case InUse => 15
    case Superseded => 16 case InvalidationPending => 17 case Invalidated => 18 case Corrupt => 19
    case Failed => 20 case Cancelled => 21 case Retired => 22 case Terminal => 23
  }

  predicate IsTerminal(s: State) {
    s.Invalidated? || s.Corrupt? || s.Failed? || s.Cancelled? || s.Retired? || s.Terminal?
  }

  predicate IsActiveOrValid(s: State) {
    s.Valid? || s.Persisted? || s.Deployable? || s.Deployed? || s.InUse?
  }

  predicate CanTransition(a: State, b: State) {
    !IsTerminal(a) &&
    match a
    case Submitted => b.Planning? || b.Failed? || b.Cancelled?
    case Planning => b.Planned? || b.Failed? || b.Cancelled?
    case Planned => b.Queued? || b.Failed? || b.Cancelled?
    case Queued => b.Preparing? || b.Cancelled?
    case Preparing => b.Compiling? || b.Failed? || b.Cancelled?
    case Compiling => b.Optimizing? || b.Linking? || b.Validating? || b.Failed? || b.Cancelled?
    case Optimizing => b.Linking? || b.Validating? || b.Failed? || b.Cancelled?
    case Linking => b.Validating? || b.Failed? || b.Cancelled?
    case Validating => b.Valid? || b.Persisting? || b.Failed? || b.Corrupt?
    case Valid => b.Persisting? || b.Persisted? || b.Deployable? || b.Deployed? || b.InUse?
                  || b.Superseded? || b.InvalidationPending?
    case Persisting => b.Persisted? || b.Deployable? || b.Failed? || b.InvalidationPending?
    case Persisted => b.Deployable? || b.Deployed? || b.InUse? || b.Superseded? || b.InvalidationPending?
    case Deployable => b.Deploying? || b.Deployed? || b.InUse? || b.Superseded? || b.InvalidationPending?
    case Deploying => b.Deployed? || b.InUse? || b.Failed? || b.InvalidationPending?
    case Deployed => b.InUse? || b.Superseded? || b.InvalidationPending?
    case InUse => b.Deployed? || b.Superseded? || b.InvalidationPending?
    case Superseded => b.InvalidationPending? || b.Retired?
    case InvalidationPending => b.Invalidated? || b.Retired?
    case _ => false
  }

  class Lifecycle {
    var state: State

    constructor (initial: State)
      ensures state == initial
    {
      state := initial;
    }

    method To(next: State) returns (ok: bool)
      modifies this
      ensures ok <==> CanTransition(old(state), next)
      ensures state == if ok then next else old(state)
    {
      if !CanTransition(state, next) { return false; }
      state := next;
      return true;
    }
  }

  /** The table read by its target: the states from which one is entered. */
  predicate EnteredFrom(b: State, a: State) {
    match b
    case Submitted | Terminal => false
    case Planning => a.Submitted?
    case Planned => a.Planning?
    case Queued => a.Planned?
    case Preparing => a.Queued?
    case Compiling => a.Preparing?
    case Optimizing => a.Compiling?
    case Linking => a.Compiling? || a.Optimizing?
    case Validating => a.Compiling? || a.Optimizing? || a.Linking?
    case Valid | Corrupt => a.Validating?
    case Persisting => a.Validating? || a.Valid?
    case Persisted => a.Valid? || a.Persisting?
    case Deployable => a.Valid? || a.Persisting? || a.Persisted?
    case Deploying => a.Deployable?
    case Deployed => a.Valid? || a.Persisted? || a.Deployable? || a.Deploying? || a.InUse?
    case InUse => a.Valid? || a.Persisted? || a.Deployable? || a.Deploying? || a.Deployed?
    case Superseded => IsActiveOrValid(a)
    case InvalidationPending => IsActiveOrValid(a) || a.Persisting? || a.Deploying? || a.Superseded?
    case Invalidated => a.InvalidationPending?
    case Retired => a.Superseded? || a.InvalidationPending?
    case Failed => (Ordinal(a) <= Ordinal(Validating) && !a.Queued?) || a.Persisting? || a.Deploying?
    case Cancelled => Ordinal(a) < Ordinal(Validating)
  }

  lemma TableByTarget(a: State, b: State)
    ensures CanTransition(a, b) <==> EnteredFrom(b, a)
  {
  }

  /** The terminal states are exactly those without a way out; `Terminal` itself
      has no way in either. */
  lemma TerminalIff(s: State)
    ensures IsTerminal(s) <==> forall b :: !CanTransition(s, b)
    ensures !CanTransition(s, Terminal) && !CanTransition(s, Submitted)
  {
    if !IsTerminal(s) {
      var next := if s.Queued? then Preparing else if s.Superseded? || s.InvalidationPending? then Retired
                  else if IsActiveOrValid(s) then InvalidationPending else Failed;
      assert CanTransition(s, next);
    }
  }

  /** A history in which every step is a legal transition. */
  predicate Legal(path: seq<State>) {
    forall i :: 0 <= i < |path| - 1 ==> CanTransition(path[i], path[i + 1])
  }

  predicate Deployment(s: State) { s.Deployed? || s.InUse? }

  /** Over any legal history, between any two of its moments, the ordinal
      strictly rises, except within the pair Deployed and InUse, the one place
      where the table has an edge back. */
  lemma {:induction false} HistoryAdvances(path: seq<State>, i: nat, j: nat)
    requires Legal(path) && i < j < |path|
    ensures Ordinal(path[i]) < Ordinal(path[j]) || (Deployment(path[i]) && Deployment(path[j]))
    decreases j
  {
    assert CanTransition(path[j - 1], path[j]);
    if i < j - 1 {
      HistoryAdvances(path, i, j - 1);
    }
  }

  /** Once superseded, pending invalidation or terminal, no legal history leads
      back to an eligible state. */
  lemma NoRevival(path: seq<State>)
    requires Legal(path) && path != [] && Ordinal(path[0]) >= Ordinal(Superseded)
    ensures !IsActiveOrValid(path[|path| - 1])
  {
    if |path| > 1 {
      HistoryAdvances(path, 0, |path| - 1);
    }
  }

  /** A history has no step after a terminal state. */
  lemma {:induction false} TerminalIsLast(path: seq<State>, i: nat)
    requires Legal(path) && i < |path|
    ensures i < |path| - 1 ==> !IsTerminal(path[i])
  {
    if i < |path| - 1 {
      assert CanTransition(path[i], path[i + 1]);
    }
  }
}
