/** What holds over whole runs of the compile protocol. */
module FabricTheorems {
  import opened Wire
  import opened Canonical
  import opened Compatibility
  import opened Fabric
  import opened FabricRuns
  import T = Traces

  type Trace = T.Trace<Sys, Action>

  /** A run from the initial state. */
  ghost predicate Valid(env: Env, tr: Trace) {
    && |tr.states| == |tr.acts| + 1
    && tr.states[0] == Sys(INITIAL, [])
    && forall i :: 0 <= i < |tr.acts| ==> Step(env, tr.states[i], tr.acts[i], tr.states[i + 1])
  }

  lemma {:induction false} ReachableInv(env: Env, tr: Trace, i: nat)
    requires Valid(env, tr) && i < |tr.states|
    ensures Inv(env, tr.states[i])
  {
    hide Step;
    if i > 0 {
      ReachableInv(env, tr, i - 1);
      hide Inv;
      assert Step(env, tr.states[i - 1], tr.acts[i - 1], tr.states[i]);
      StepKeeps(env, tr.states[i - 1], tr.acts[i - 1], tr.states[i]);
    }
  }

  // --------------------------------------------------------- single flight

  /** In every reachable state two calls that own a compilation own it for
      different keys, and the flight of each is the one its key points to and
      is not done. */
  lemma SingleFlight(env: Env, tr: Trace, i: nat, t: nat, u: nat)
    requires Valid(env, tr) && i < |tr.states|
    requires t < |tr.states[i].threads| && u < |tr.states[i].threads| && t != u
    requires IsOwner(tr.states[i].threads[t]) && IsOwner(tr.states[i].threads[u])
    ensures tr.states[i].threads[t].key != tr.states[i].threads[u].key
    ensures Owns(tr.states[i].sh, tr.states[i].threads[t].key, tr.states[i].threads[t].ref)
  {
    hide Valid, CacheOk, FlightsOk, RunningOwned, IdsOk, Proper;
    ReachableInv(env, tr, i);
    assert ThreadOk(env, tr.states[i].sh, tr.states[i].threads[t]);
    assert ThreadOk(env, tr.states[i].sh, tr.states[i].threads[u]);
  }

  /** One step and one flight: it is never dropped, keeps its key and base
      generations, and if it is settled the step was its owner's last one and
      the owner returns the recorded reply. */
  ghost predicate FlightStep(s: Sys, a: Action, s': Sys, ref: nat)
    requires ref in s.sh.flights
  {
    && ref in s'.sh.flights
    && var f, f' := s.sh.flights[ref], s'.sh.flights[ref];
    && f'.key == f.key && f'.baseCacheGen == f.baseCacheGen && f'.baseToolchainGen == f.baseToolchainGen
    && (f' == f || SettledBy(s, a, s', ref))
  }

  ghost predicate SettledBy(s: Sys, a: Action, s': Sys, ref: nat)
    requires ref in s.sh.flights && ref in s'.sh.flights
  {
    && s.sh.flights[ref].outcome.None? && s'.sh.flights[ref].outcome.Some?
    && Actor(a).Some? && Actor(a).value < |s.threads| == |s'.threads|
    && OwnerOf(s.threads[Actor(a).value], ref)
    && s'.threads[Actor(a).value].Returned?
    && s'.threads[Actor(a).value].outcome == s'.sh.flights[ref].outcome.value
  }

  lemma SettledOnce(env: Env, s: Sys, a: Action, s': Sys, ref: nat)
    requires Inv(env, s) && Step(env, s, a, s') && ref in s.sh.flights
    ensures FlightStep(s, a, s', ref)
  {
    hide CacheOk, OwnersDistinct, RunningOwned, IdsOk, Proper, ReplyOk, Matches, Supersedable, Hit;
    if Actor(a).Some? {
      assert ThreadOk(env, s.sh, s.threads[Actor(a).value]);
    }
    if a.Join? {
      assert FlightOk(env, s.sh, ref, s.sh.flights[ref]);
    }
  }

  /** Every way out for an owner settles its flight with what it returns. */
  lemma OwnerExitSettles(env: Env, s: Sys, a: Action, s': Sys, t: nat)
    requires Inv(env, s) && Step(env, s, a, s') && t < |s.threads| && t < |s'.threads|
    requires IsOwner(s.threads[t]) && s'.threads[t].Returned?
    ensures s.threads[t].ref in s.sh.flights && s.sh.flights[s.threads[t].ref].outcome.None?
    ensures s.threads[t].ref in s'.sh.flights
    ensures s'.sh.flights[s.threads[t].ref].outcome == Some(s'.threads[t].outcome)
    ensures Actor(a) == Some(t)
  {
    hide CacheOk, FlightsOk, OwnersDistinct, RunningOwned, IdsOk, Proper, ReplyOk, Matches, Supersedable, Hit;
    assert ThreadOk(env, s.sh, s.threads[t]);
  }

  /** What a flight recorded stays recorded for the rest of the run. */
  lemma {:induction false} SettledForever(env: Env, tr: Trace, i: nat, j: nat, ref: nat)
    requires Valid(env, tr) && i <= j < |tr.states|
    requires ref in tr.states[i].sh.flights && tr.states[i].sh.flights[ref].outcome.Some?
    ensures ref in tr.states[j].sh.flights && tr.states[j].sh.flights[ref] == tr.states[i].sh.flights[ref]
  {
    hide Step, Inv;
    if i < j {
      SettledForever(env, tr, i, j - 1, ref);
      ReachableInv(env, tr, j - 1);
      assert Step(env, tr.states[j - 1], tr.acts[j - 1], tr.states[j]);
      SettledOnce(env, tr.states[j - 1], tr.acts[j - 1], tr.states[j], ref);
    }
  }

  /** Every call served by a flight, owner or waiter, returns exactly the reply
      that flight recorded, so any two of them agree. */
  lemma WaitersGetTheOwnersReply(env: Env, tr: Trace, i: nat, t: nat, u: nat)
    requires Valid(env, tr) && i < |tr.states|
    requires t < |tr.states[i].threads| && u < |tr.states[i].threads|
    requires tr.states[i].threads[t].Returned? && tr.states[i].threads[t].via.FromFlight?
    requires tr.states[i].threads[u].Returned? && tr.states[i].threads[u].via == tr.states[i].threads[t].via
    ensures var ref := tr.states[i].threads[t].via.flight;
            ref in tr.states[i].sh.flights && tr.states[i].sh.flights[ref].outcome == Some(tr.states[i].threads[t].outcome)
    ensures tr.states[i].threads[t].outcome == tr.states[i].threads[u].outcome
  {
    hide Valid, CacheOk, FlightsOk, OwnersDistinct, RunningOwned, IdsOk, Proper;
    ReachableInv(env, tr, i);
    assert ThreadOk(env, tr.states[i].sh, tr.states[i].threads[t]);
    assert ThreadOk(env, tr.states[i].sh, tr.states[i].threads[u]);
  }

  // -------------------------------------------------------------- progress

  ghost predicate CanMove(env: Env, s: Sys) {
    exists a, s' :: Actor(a).Some? && Step(env, s, a, s')
  }

  lemma OwnerMove(env: Env, s: Sys, t: nat)
    requires t < |s.threads| && IsOwner(s.threads[t]) && s.threads[t].ref in s.sh.flights
    ensures CanMove(env, s)
  {
    hide Hit, Settled, Installed;
    match s.threads[t]
    case Building(_, _, _) =>
      assert Step(env, s, Abort(t, BuildFailed), AfterEnd(s, t, Failed(BuildFailed)));
    case Stamping(r, key, ref, id, bytes) =>
      assert Step(env, s, Stamp(t), Move(s, t, s.sh, Validating(r, key, ref, id, s.sh.counter, bytes)));
    case Validating(_, _, _, _, _, _) =>
      assert Step(env, s, Abort(t, ValidationFailed), AfterEnd(s, t, Failed(ValidationFailed)));
    case Committing(_, _, _, _, _) =>
      assert Step(env, s, Commit(t), AfterCommit(s, t));
    case Finishing(_, _, _, result) =>
      assert Step(env, s, Finish(t), AfterEnd(s, t, Success(result)));
  }

  lemma OwnMove(env: Env, s: Sys, t: nat)
    requires t < |s.threads| && (s.threads[t].Probing? || s.threads[t].Joining? || s.threads[t].Waiting?)
    requires s.threads[t].Waiting? ==> s.threads[t].ref in s.sh.flights && s.sh.flights[s.threads[t].ref].outcome.Some?
    ensures CanMove(env, s)
  {
    hide Hit, Touched, Joinable;
    match s.threads[t]
    case Probing(_, _) =>
      assert Step(env, s, Probe(t), AfterProbe(env, s, t));
    case Joining(_, _) =>
      assert Step(env, s, Join(t), AfterJoin(s, t));
    case Waiting(r, key, ref) =>
      assert Step(env, s, Wake(t), Move(s, t, s.sh, Returned(r, key, FromFlight(ref), s.sh.flights[ref].outcome.value)));
  }

  /** No deadlock: while a call is unfinished, some call can take a step (a
      backend call that returns, with bytes or an error, is such a step). */
  lemma NoDeadlock(env: Env, tr: Trace, i: nat, t: nat)
    requires Valid(env, tr) && i < |tr.states|
    requires t < |tr.states[i].threads| && !tr.states[i].threads[t].Returned?
    ensures CanMove(env, tr.states[i])
  {
    hide Valid, CacheOk, FlightsOk, OwnersDistinct, IdsOk, Proper, CanMove;
    var s := tr.states[i];
    ReachableInv(env, tr, i);
    var th := s.threads[t];
    assert ThreadOk(env, s.sh, th);
    if th.Waiting? && s.sh.flights[th.ref].outcome.None? {
      assert HasOwner(s, th.ref);
      var u :| 0 <= u < |s.threads| && OwnerOf(s.threads[u], th.ref);
      OwnerMove(env, s, u);
    } else if IsOwner(th) {
      OwnerMove(env, s, t);
    } else {
      OwnMove(env, s, t);
    }
  }

  /** How many steps a call can still take. */
  function Rank(th: Thread): nat {
    match th
    case Probing(_, _) => 8
    case Joining(_, _) => 7
    case Building(_, _, _) => 6
    case Stamping(_, _, _, _, _) => 5
    case Validating(_, _, _, _, _, _) => 4
    case Committing(_, _, _, _, _) => 3
    case Finishing(_, _, _, _) => 2
    case Waiting(_, _, _) => 1
    case Returned(_, _, _, _) => 0
  }

  function Work(ths: seq<Thread>): nat {
    if ths == [] then 0 else Work(ths[..|ths| - 1]) + Rank(ths[|ths| - 1])
  }

  lemma {:induction false} WorkUpdate(ths: seq<Thread>, t: nat, th: Thread)
    requires t < |ths|
    ensures Work(ths[t := th]) == Work(ths) - Rank(ths[t]) + Rank(th)
  {
    hide Rank;
    var n := |ths| - 1;
    if t == n {
      assert ths[t := th][..n] == ths[..n];
    } else {
      assert ths[t := th][..n] == ths[..n][t := th];
      WorkUpdate(ths[..n], t, th);
    }
  }

  lemma StepMovesOne(env: Env, s: Sys, a: Action, s': Sys)
    requires Step(env, s, a, s') && Actor(a).Some?
    ensures var t := Actor(a).value;
            && t < |s.threads| == |s'.threads| && s'.threads == s.threads[t := s'.threads[t]]
            && Rank(s'.threads[t]) < Rank(s.threads[t])
  {
    hide Hit, Settled, Installed, Registered, Touched, Joinable, Fresh;
  }

  /** Every step of a call uses up some of its remaining work; nothing else
      creates work except a new call. */
  lemma StepWork(env: Env, s: Sys, a: Action, s': Sys)
    requires Step(env, s, a, s')
    ensures Actor(a).Some? ==> Work(s'.threads) < Work(s.threads)
    ensures a.Call? ==> Work(s'.threads) == Work(s.threads) + 8
    ensures a.Invalidate? || a.Supersede? ==> Work(s'.threads) == Work(s.threads)
  {
    if a.Call? {
      assert s'.threads[..|s.threads|] == s.threads;
    } else if Actor(a).Some? {
      StepMovesOne(env, s, a, s');
      hide Work, Step, Rank;
      WorkUpdate(s.threads, Actor(a).value, s'.threads[Actor(a).value]);
    }
  }

  function Calls(acts: seq<Action>): nat {
    if acts == [] then 0 else Calls(acts[..|acts| - 1]) + (if acts[|acts| - 1].Call? then 1 else 0)
  }

  function CallSteps(acts: seq<Action>): nat {
    if acts == [] then 0 else CallSteps(acts[..|acts| - 1]) + (if Actor(acts[|acts| - 1]).Some? then 1 else 0)
  }

  /** In any run the calls take at most eight steps each, whatever the
      interleaving; with `NoDeadlock` a run in which calls keep moving
      completes every one of them. */
  lemma {:induction false} BoundedWork(env: Env, tr: Trace, i: nat)
    requires Valid(env, tr) && i < |tr.states|
    ensures CallSteps(tr.acts[..i]) + Work(tr.states[i].threads) <= 8 * Calls(tr.acts[..i])
  {
    hide Step, Work;
    if i > 0 {
      BoundedWork(env, tr, i - 1);
      assert tr.acts[..i][..i - 1] == tr.acts[..i - 1];
      assert Step(env, tr.states[i - 1], tr.acts[i - 1], tr.states[i]);
      StepWork(env, tr.states[i - 1], tr.acts[i - 1], tr.states[i]);
    } else {
      assert Work([]) == 0 by { WorkEmpty(); }
    }
  }

  lemma WorkEmpty()
    ensures Work([]) == 0
  {
  }

  // ------------------------------------------------------ no stale publish

  /** An attempt overtaken by an invalidation. */
  predicate Doomed(sh: Shared, ref: nat) {
    ref in sh.flights && sh.flights[ref].baseCacheGen < sh.cacheGen
  }

  lemma StepGenerations(env: Env, s: Sys, a: Action, s': Sys)
    requires Step(env, s, a, s')
    ensures s.sh.cacheGen <= s'.sh.cacheGen && s.sh.toolchainGen <= s'.sh.toolchainGen
    ensures a.Invalidate? ==> s.sh.cacheGen < s'.sh.cacheGen && s'.sh.flights == s.sh.flights
  {
    hide Hit, Matches, Supersedable;
  }

  /** A call that owns a flight keeps that flight until it returns. */
  lemma OwnerStep(env: Env, s: Sys, a: Action, s': Sys, t: nat)
    requires Step(env, s, a, s') && t < |s.threads|
    ensures t < |s'.threads|
    ensures IsOwner(s'.threads[t]) ==> OwnerOf(s.threads[t], s'.threads[t].ref) || s.threads[t].Joining?
    ensures s.threads[t].Returned? ==> s'.threads[t] == s.threads[t]
    ensures IsOwner(s.threads[t]) ==> IsOwner(s'.threads[t]) || s'.threads[t].Returned?
  {
    hide Hit, Invalidated, Superseded, Settled, Installed, Registered, Touched;
  }

  /** From the invalidation on, the flight of every call that was already an
      owner is doomed. */
  lemma {:induction false} DoomSpreads(env: Env, tr: Trace, k: nat, j: nat, t: nat)
    requires Valid(env, tr) && k < j < |tr.states| && tr.acts[k].Invalidate?
    requires t < |tr.states[k].threads| && IsOwner(tr.states[k].threads[t])
    ensures t < |tr.states[j].threads|
    ensures tr.states[j].threads[t].Returned?
         || (OwnerOf(tr.states[j].threads[t], tr.states[k].threads[t].ref)
             && Doomed(tr.states[j].sh, tr.states[k].threads[t].ref))
  {
    hide Step, Inv;
    var s, s' := tr.states[j - 1], tr.states[j];
    var ref := tr.states[k].threads[t].ref;
    assert Step(env, s, tr.acts[j - 1], s');
    StepGenerations(env, s, tr.acts[j - 1], s');
    if j == k + 1 {
      ReachableInv(env, tr, k);
      OwnedFlight(env, s, t);
      OwnerStep(env, s, tr.acts[k], s', t);
    } else {
      DoomSpreads(env, tr, k, j - 1, t);
      ReachableInv(env, tr, j - 1);
      OwnerStep(env, s, tr.acts[j - 1], s', t);
      if ref in s.sh.flights { SettledOnce(env, s, tr.acts[j - 1], s', ref); }
    }
  }

  lemma OwnedFlight(env: Env, s: Sys, t: nat)
    requires Inv(env, s) && t < |s.threads| && IsOwner(s.threads[t])
    ensures s.threads[t].ref in s.sh.flights
    ensures s.sh.flights[s.threads[t].ref].baseCacheGen <= s.sh.cacheGen
  {
    hide CacheOk, OwnersDistinct, RunningOwned, IdsOk, Proper, ReplyOk;
    assert ThreadOk(env, s.sh, s.threads[t]);
    assert FlightOk(env, s.sh, s.threads[t].ref, s.sh.flights[s.threads[t].ref]);
  }

  /** A commit that follows an invalidation of the time after registration
      publishes nothing and returns StaleGeneration ... */
  lemma StaleCommitRejected(env: Env, tr: Trace, k: nat, j: nat, t: nat)
    requires Valid(env, tr) && k < j < |tr.acts| && tr.acts[k].Invalidate? && tr.acts[j] == Commit(t)
    requires t < |tr.states[k].threads| && IsOwner(tr.states[k].threads[t])
    ensures tr.states[j + 1].sh.cache == tr.states[j].sh.cache
    ensures t < |tr.states[j + 1].threads| && tr.states[j + 1].threads[t].Returned?
    ensures tr.states[j + 1].threads[t].outcome == Failed(StaleGeneration)
  {
    hide Inv;
    DoomSpreads(env, tr, k, j, t);
    assert Step(env, tr.states[j], tr.acts[j], tr.states[j + 1]);
  }

  lemma {:induction false} OwnerSince(env: Env, tr: Trace, i: nat, k: nat, j: nat, t: nat)
    requires Valid(env, tr) && i <= k <= j < |tr.states|
    requires t < |tr.states[i].threads| && IsOwner(tr.states[i].threads[t])
    requires t < |tr.states[j].threads| && IsOwner(tr.states[j].threads[t])
    ensures t < |tr.states[k].threads| && IsOwner(tr.states[k].threads[t])
    decreases k
  {
    hide Step;
    if i < k {
      OwnerSince(env, tr, i, k - 1, j, t);
      assert Step(env, tr.states[k - 1], tr.acts[k - 1], tr.states[k]);
      OwnerStep(env, tr.states[k - 1], tr.acts[k - 1], tr.states[k], t);
      if tr.states[k].threads[t].Returned? {
        ReturnedForever(env, tr, k, j, t);
      }
    }
  }

  lemma {:induction false} ReturnedForever(env: Env, tr: Trace, i: nat, j: nat, t: nat)
    requires Valid(env, tr) && i <= j < |tr.states|
    requires t < |tr.states[i].threads| && tr.states[i].threads[t].Returned?
    ensures t < |tr.states[j].threads| && tr.states[j].threads[t] == tr.states[i].threads[t]
  {
    hide Step;
    if i < j {
      ReturnedForever(env, tr, i, j - 1, t);
      assert Step(env, tr.states[j - 1], tr.acts[j - 1], tr.states[j]);
      OwnerStep(env, tr.states[j - 1], tr.acts[j - 1], tr.states[j], t);
    }
  }

  /** ... so an attempt publishes only if no invalidation happened anywhere
      between its registration and its commit. */
  lemma NoStalePublish(env: Env, tr: Trace, i: nat, k: nat, j: nat, t: nat)
    requires Valid(env, tr) && i < k < j < |tr.acts|
    requires tr.acts[i] == Join(t) && tr.states[i + 1].threads[t].Building?
    requires tr.acts[j] == Commit(t) && tr.states[j + 1].threads[t].Finishing?
    ensures !tr.acts[k].Invalidate?
  {
    hide Inv;
    assert Step(env, tr.states[j], tr.acts[j], tr.states[j + 1]);
    OwnerSince(env, tr, i + 1, k, j, t);
    if tr.acts[k].Invalidate? {
      StaleCommitRejected(env, tr, k, j, t);
    }
  }

  // ------------------------------------------------ finality of invalidation

  /** No entry with this id can be served, and none can appear. */
  ghost predicate Dead(s: Sys, id: nat) {
    && id <= s.sh.counter
    && (forall k :: k in s.sh.cache && s.sh.cache[k].art.id == id ==> s.sh.cache[k].art.state != DEPLOYABLE)
    && (forall t :: 0 <= t < |s.threads| && Pending(s.threads[t]) ==> PendingId(s.threads[t]) != id)
  }

  /** An entry is never made Deployable again, and only a commit adds one. */
  ghost predicate CacheStep(s: Sys, a: Action, s': Sys) {
    && s.sh.counter <= s'.sh.counter
    && forall k :: k in s'.sh.cache ==>
         (k in s.sh.cache && EntryKept(s.sh.cache[k], s'.sh.cache[k]))
         || (Actor(a).Some? && Actor(a).value < |s.threads| && s.threads[Actor(a).value].Committing?
             && s'.sh.cache[k].art.id == s.threads[Actor(a).value].art.id)
  }

  lemma StepCache(env: Env, s: Sys, a: Action, s': Sys)
    requires Step(env, s, a, s')
    ensures CacheStep(s, a, s')
  {
    hide Reusable, Matches, Supersedable;
  }

  lemma StepPending(env: Env, s: Sys, a: Action, s': Sys, t: nat)
    requires Step(env, s, a, s') && t < |s'.threads| && Pending(s'.threads[t])
    ensures t < |s.threads|
    ensures PendingId(s'.threads[t]) == s.sh.counter + 1
         || (Pending(s.threads[t]) && PendingId(s'.threads[t]) == PendingId(s.threads[t]))
  {
    hide Hit, Settled, Installed, Registered, Touched, Invalidated, Superseded;
  }

  lemma DeadStep(env: Env, s: Sys, a: Action, s': Sys, id: nat)
    requires Step(env, s, a, s') && Dead(s, id)
    ensures Dead(s', id)
  {
    StepCache(env, s, a, s');
    hide Step, EntryStateOk;
    forall k | k in s'.sh.cache && s'.sh.cache[k].art.id == id ensures s'.sh.cache[k].art.state != DEPLOYABLE {
      if Actor(a).Some? && Actor(a).value < |s.threads| && s.threads[Actor(a).value].Committing? {
        assert PendingId(s.threads[Actor(a).value]) != id;
      }
    }
    forall t | 0 <= t < |s'.threads| && Pending(s'.threads[t]) ensures PendingId(s'.threads[t]) != id {
      StepPending(env, s, a, s', t);
    }
  }

  lemma {:induction false} DeadForever(env: Env, tr: Trace, i: nat, j: nat, id: nat)
    requires Valid(env, tr) && i <= j < |tr.states| && Dead(tr.states[i], id)
    ensures Dead(tr.states[j], id)
  {
    hide Step, Dead;
    if i < j {
      DeadForever(env, tr, i, j - 1, id);
      assert Step(env, tr.states[j - 1], tr.acts[j - 1], tr.states[j]);
      DeadStep(env, tr.states[j - 1], tr.acts[j - 1], tr.states[j], id);
    }
  }

  lemma CachedNotPending(env: Env, s: Sys, s': Sys, k: CacheKey)
    requires Inv(env, s) && s'.threads == s.threads && EntriesKept(env, s.sh, s'.sh)
    requires k in s.sh.cache && s'.sh.cache[k].art.state != DEPLOYABLE
    ensures Dead(s', s.sh.cache[k].art.id)
  {
    hide FlightsOk, ThreadsOk, OwnersDistinct, RunningOwned, Proper, EntryStateOk;
    var id := s.sh.cache[k].art.id;
    assert EntryOk(env, s.sh, k, s.sh.cache[k]);
    forall k' | k' in s'.sh.cache && s'.sh.cache[k'].art.id == id ensures s'.sh.cache[k'].art.state != DEPLOYABLE {
      assert EntryKept(s.sh.cache[k'], s'.sh.cache[k']);
    }
  }

  /** Finality: once an invalidation has matched an artifact, in no later state
      is it a cache hit under any key, nor admitted by deploy. */
  lemma InvalidationIsFinal(env: Env, tr: Trace, i: nat, j: nat, k: CacheKey, k': CacheKey)
    requires Valid(env, tr) && i < j < |tr.states| && tr.acts[i].Invalidate?
    requires k in tr.states[i].sh.cache && Matches(tr.acts[i].target, k, tr.states[i].sh.cache[k])
    requires k' in tr.states[j].sh.cache && tr.states[j].sh.cache[k'].art.id == tr.states[i].sh.cache[k].art.id
    ensures !Hit(tr.states[j].sh, k', env.policy)
    ensures !Admitted(tr.states[j].sh.cache[k'], tr.states[i].sh.cache[k].art.id)
  {
    hide Inv, Matches;
    var s := tr.states[i];
    ReachableInv(env, tr, i);
    assert Step(env, s, tr.acts[i], tr.states[i + 1]);
    InvalidatedKeeps(env, s.sh, tr.acts[i].target);
    CachedNotPending(env, s, tr.states[i + 1], k);
    NotServed(env, tr, i + 1, j, s.sh.cache[k].art.id, k');
  }

  lemma NotServed(env: Env, tr: Trace, i: nat, j: nat, id: nat, k: CacheKey)
    requires Valid(env, tr) && i <= j < |tr.states| && Dead(tr.states[i], id)
    requires k in tr.states[j].sh.cache && tr.states[j].sh.cache[k].art.id == id
    ensures !Hit(tr.states[j].sh, k, env.policy) && !Admitted(tr.states[j].sh.cache[k], id)
  {
    hide Step, FlightsOk, ThreadsOk, OwnersDistinct, RunningOwned, IdsOk, Proper;
    DeadForever(env, tr, i, j, id);
    ReachableInv(env, tr, j);
    assert EntryOk(env, tr.states[j].sh, k, tr.states[j].sh.cache[k]);
  }

  /** The same for a supersession that applies. */
  lemma SupersessionIsFinal(env: Env, tr: Trace, i: nat, j: nat, k: CacheKey, k': CacheKey)
    requires Valid(env, tr) && i < j < |tr.states| && tr.acts[i].Supersede?
    requires k in tr.states[i].sh.cache && Supersedable(tr.states[i].sh.cache[k], tr.acts[i].id, tr.acts[i].newGen)
    requires k' in tr.states[j].sh.cache && tr.states[j].sh.cache[k'].art.id == tr.states[i].sh.cache[k].art.id
    ensures !Hit(tr.states[j].sh, k', env.policy)
    ensures !Admitted(tr.states[j].sh.cache[k'], tr.states[i].sh.cache[k].art.id)
  {
    hide Inv, Supersedable;
    var s := tr.states[i];
    ReachableInv(env, tr, i);
    assert Step(env, s, tr.acts[i], tr.states[i + 1]);
    SupersededKeeps(env, s.sh, tr.acts[i].id, tr.acts[i].newGen);
    CachedNotPending(env, s, tr.states[i + 1], k);
    NotServed(env, tr, i + 1, j, s.sh.cache[k].art.id, k');
  }

  // -------------------------------------------------------- what is served

  /** In every reachable state a Deployable entry was validated for its key,
      carries the digest of its bytes, comes from a backend run for a request
      with that key, and no other entry has its id. */
  lemma DeployableIsSound(env: Env, tr: Trace, i: nat, k: CacheKey)
    requires Valid(env, tr) && i < |tr.states| && k in tr.states[i].sh.cache
    ensures var sh := tr.states[i].sh; var e := sh.cache[k];
            && e.key == k && env.validates(k, e.bytes) && e.art.contentDigest == env.hash(e.bytes)
            && Genuine(env, k, e.bytes)
            && (e.art.state == DEPLOYABLE ==> e.art.passed && e.art.deployable)
            && (e.art.deployable ==> e.art.state == DEPLOYABLE)
            && forall k' :: k' in sh.cache && sh.cache[k'].art.id == e.art.id ==> k' == k
  {
    hide Step, FlightsOk, ThreadsOk, OwnersDistinct, RunningOwned, IdsOk, Genuine;
    ReachableInv(env, tr, i);
    assert EntryOk(env, tr.states[i].sh, k, tr.states[i].sh.cache[k]);
  }

  /** Whatever a call returns, from the cache, as a waiter or freshly compiled:
      it is for the call's own key, validated, digest-consistent, and made by a
      backend run for a request with the same key. */
  lemma RepliesAreSound(env: Env, tr: Trace, i: nat, t: nat)
    requires Valid(env, tr) && i < |tr.states| && t < |tr.states[i].threads|
    requires tr.states[i].threads[t].Returned? && tr.states[i].threads[t].outcome.Success?
    ensures var th := tr.states[i].threads[t]; var res := th.outcome.result;
            && env.keyOf(th.r) == Some(th.key) && res.key == th.key
            && env.validates(th.key, res.bytes) && res.art.contentDigest == env.hash(res.bytes)
            && Genuine(env, th.key, res.bytes)
  {
    hide Step, CacheOk, FlightsOk, OwnersDistinct, RunningOwned, IdsOk, Genuine;
    ReachableInv(env, tr, i);
    assert ThreadOk(env, tr.states[i].sh, tr.states[i].threads[t]);
  }

  // ------------------------------------------------------ the publish gap

  /** This step takes the entry under `key` out of service. */
  predicate Hurts(s: Sys, a: Action, key: CacheKey) {
    && key in s.sh.cache
    && match a
       case Invalidate(target) => Matches(target, key, s.sh.cache[key])
       case Supersede(id, newGen) => Supersedable(s.sh.cache[key], id, newGen)
       case _ => false
  }

  /** In the gap only an invalidation or supersession touches the entry's state. */
  lemma GapStep(env: Env, s: Sys, a: Action, s': Sys, t: nat)
    requires Inv(env, s) && Step(env, s, a, s')
    requires t < |s.threads| && s.threads[t].Finishing?
    requires s.threads[t].key in s.sh.cache
    ensures var key := s.threads[t].key;
            && key in s'.sh.cache && s'.sh.cache[key].art.id == s.sh.cache[key].art.id
            && (s'.sh.cache[key].art.state == DEPLOYABLE
                <==> s.sh.cache[key].art.state == DEPLOYABLE && !Hurts(s, a, key))
  {
    hide CacheOk, FlightsOk, RunningOwned, IdsOk, Proper, ReplyOk, Matches, Supersedable, Hit;
    assert ThreadOk(env, s.sh, s.threads[t]);
    if a.Commit? {
      assert ThreadOk(env, s.sh, s.threads[a.t]);
    }
  }

  /** As long as the owner has not marked its flight done: the artifact it is about
      to return is still in service exactly if no invalidation or supersession
      matched it since the commit.  (`WaiterIsExact` speaks of the waiters.) */
  lemma {:induction false} GapIsExact(env: Env, tr: Trace, c: nat, j: nat, t: nat)
    requires Valid(env, tr) && c < j < |tr.states| && tr.acts[c] == Commit(t)
    requires t < |tr.states[c + 1].threads| && tr.states[c + 1].threads[t].Finishing?
    requires t < |tr.states[j].threads| && tr.states[j].threads[t].Finishing?
    ensures tr.states[j].threads[t] == tr.states[c + 1].threads[t]
    ensures var th := tr.states[c + 1].threads[t]; var sh := tr.states[j].sh;
            && th.key in sh.cache && sh.cache[th.key].art.id == th.result.art.id
            && (sh.cache[th.key].art.state == DEPLOYABLE
                <==> forall k :: c < k < j ==> !Hurts(tr.states[k], tr.acts[k], th.key))
  {
    hide Inv, Hurts, Step;
    var s, s' := tr.states[j - 1], tr.states[j];
    assert Step(env, s, tr.acts[j - 1], s');
    ReachableInv(env, tr, j - 1);
    if j == c + 1 {
      CommitPublishes(env, s, t, s');
    } else {
      StillFinishing(env, tr, c + 1, j - 1, t);
      OwnerStep(env, s, tr.acts[j - 1], s', t);
      GapIsExact(env, tr, c, j - 1, t);
      GapStep(env, s, tr.acts[j - 1], s', t);
      FinishingStep(env, s, tr.acts[j - 1], s', t);
    }
  }

  /** A finishing call once it has returned. */
  function Delivered(th: Thread): Thread
    requires th.Finishing?
  {
    Returned(th.r, th.key, FromFlight(th.ref), Success(th.result))
  }

  lemma FinishingStep(env: Env, s: Sys, a: Action, s': Sys, t: nat)
    requires Step(env, s, a, s') && t < |s.threads| && s.threads[t].Finishing?
    ensures t < |s'.threads| && (s'.threads[t] == s.threads[t] || s'.threads[t] == Delivered(s.threads[t]))
  {
    hide Hit, Invalidated, Superseded, Settled, Installed, Registered, Touched;
  }

  lemma {:induction false} StillFinishing(env: Env, tr: Trace, i: nat, j: nat, t: nat)
    requires Valid(env, tr) && i <= j < |tr.states|
    requires t < |tr.states[i].threads| && tr.states[i].threads[t].Finishing?
    ensures t < |tr.states[j].threads|
    ensures tr.states[j].threads[t] == tr.states[i].threads[t] || tr.states[j].threads[t] == Delivered(tr.states[i].threads[t])
  {
    hide Step;
    if i < j {
      StillFinishing(env, tr, i, j - 1, t);
      assert Step(env, tr.states[j - 1], tr.acts[j - 1], tr.states[j]);
      OwnerStep(env, tr.states[j - 1], tr.acts[j - 1], tr.states[j], t);
      if tr.states[j - 1].threads[t].Finishing? {
        FinishingStep(env, tr.states[j - 1], tr.acts[j - 1], tr.states[j], t);
      }
    }
  }

  lemma CommitPublishes(env: Env, s: Sys, t: nat, s': Sys)
    requires Inv(env, s) && Step(env, s, Commit(t), s') && s'.threads[t].Finishing?
    ensures var th := s'.threads[t];
            && th.key in s'.sh.cache && s'.sh.cache[th.key].art == th.result.art
            && th.result.art.state == DEPLOYABLE
  {
    hide CacheOk, FlightsOk, RunningOwned, IdsOk, Proper, ReplyOk;
    assert ThreadOk(env, s.sh, s.threads[t]);
  }

  // ------------------------------------------------ when the cache serves a key

  /** This step publishes an artifact for the key. */
  predicate Publishes(s: Sys, a: Action, key: CacheKey) {
    && a.Commit? && a.t < |s.threads| && s.threads[a.t].Committing? && s.threads[a.t].key == key
    && s.threads[a.t].ref in s.sh.flights && !Outdated(s.sh, s.threads[a.t].ref)
  }

  predicate Serving(s: Sys, key: CacheKey) { key in s.sh.cache && s.sh.cache[key].art.state == DEPLOYABLE }

  /** One step: a key is served after it exactly if it published the key, or the
      key was served and the step did not take it out of service. */
  lemma ServingStep(env: Env, s: Sys, a: Action, s': Sys, key: CacheKey)
    requires Inv(env, s) && Step(env, s, a, s')
    ensures Serving(s', key) <==> Publishes(s, a, key) || (Serving(s, key) && !Hurts(s, a, key))
  {
    hide CacheOk, FlightsOk, OwnersDistinct, RunningOwned, IdsOk, Proper, ReplyOk, Matches, Supersedable, Reusable;
    if a.Commit? {
      assert ThreadOk(env, s.sh, s.threads[a.t]);
    }
  }

  /** The key was published at `k` and nothing has taken it out of service since. */
  ghost predicate ServedSince(tr: Trace, k: nat, j: nat, key: CacheKey)
    requires j <= |tr.acts| && |tr.states| == |tr.acts| + 1
  {
    && k < j && Publishes(tr.states[k], tr.acts[k], key)
    && forall m :: k < m < j ==> !Hurts(tr.states[m], tr.acts[m], key)
  }

  /** Such a commit lies at or after `i`. */
  ghost predicate ServedWithin(tr: Trace, i: nat, j: nat, key: CacheKey)
    requires j <= |tr.acts| && |tr.states| == |tr.acts| + 1
  {
    exists k :: i <= k && ServedSince(tr, k, j, key)
  }

  /** Over any stretch of a run: a key is served at its end exactly if some
      commit in it published the key and nothing hurt it since, or it was served
      at the start and nothing hurt it at all. */
  lemma {:induction false} ServingIsExact(env: Env, tr: Trace, i: nat, j: nat, key: CacheKey)
    requires Valid(env, tr) && i <= j < |tr.states|
    ensures Serving(tr.states[j], key)
       <==> || ServedWithin(tr, i, j, key)
            || (Serving(tr.states[i], key) && forall m :: i <= m < j ==> !Hurts(tr.states[m], tr.acts[m], key))
    decreases j
  {
    hide Step, Inv, Hurts, Publishes;
    if i < j {
      ServingIsExact(env, tr, i, j - 1, key);
      ReachableInv(env, tr, j - 1);
      assert Step(env, tr.states[j - 1], tr.acts[j - 1], tr.states[j]);
      ServingStep(env, tr.states[j - 1], tr.acts[j - 1], tr.states[j], key);
      SinceStep(tr, i, j, key);
    }
  }

  lemma SinceStep(tr: Trace, i: nat, j: nat, key: CacheKey)
    requires i < j <= |tr.acts| && |tr.states| == |tr.acts| + 1
    ensures ServedWithin(tr, i, j, key)
       <==> || Publishes(tr.states[j - 1], tr.acts[j - 1], key)
            || (ServedWithin(tr, i, j - 1, key) && !Hurts(tr.states[j - 1], tr.acts[j - 1], key))
  {
    hide Publishes, Hurts;
    var p := j - 1;
    if ServedWithin(tr, i, j, key) {
      var k :| i <= k && ServedSince(tr, k, j, key);
      if k < p {
        assert ServedSince(tr, k, p, key);
      }
    }
    if Publishes(tr.states[p], tr.acts[p], key) {
      assert ServedSince(tr, p, j, key);
    }
    if ServedWithin(tr, i, p, key) && !Hurts(tr.states[p], tr.acts[p], key) {
      var k :| i <= k && ServedSince(tr, k, p, key);
      assert ServedSince(tr, k, j, key);
    }
  }

  lemma HitIsServing(env: Env, s: Sys, key: CacheKey)
    requires Inv(env, s) && UniqueTags(key)
    ensures Hit(s.sh, key, env.policy) <==> Serving(s, key)
  {
    SelfReusable(key, env.policy);
    hide Reusable, UniqueTags, FlightsOk, ThreadsOk, OwnersDistinct, RunningOwned, IdsOk, Proper;
    if key in s.sh.cache {
      assert EntryOk(env, s.sh, key, s.sh.cache[key]);
    }
  }

  /** Exactly when a probe hits: some earlier commit published the key and no
      invalidation or supersession matched it since. */
  lemma HitIsExact(env: Env, tr: Trace, j: nat, key: CacheKey)
    requires Valid(env, tr) && j < |tr.states| && UniqueTags(key)
    ensures Hit(tr.states[j].sh, key, env.policy) <==> exists k :: ServedSince(tr, k, j, key)
  {
    hide Inv, Hit, Step, ServedSince, UniqueTags;
    ReachableInv(env, tr, j);
    HitIsServing(env, tr.states[j], key);
    ServingIsExact(env, tr, 0, j, key);
    assert !Serving(tr.states[0], key);
  }

  /** Exactly when a call compiles a key that the cache would serve: between its
      miss and its registration some commit published the key, and nothing took
      it out of service since.  (`DuplicateCompile` is such a run.) */
  lemma DuplicateIsExact(env: Env, tr: Trace, i: nat, j: nat, t: nat)
    requires Valid(env, tr) && i < j < |tr.acts|
    requires tr.acts[i] == Probe(t) && t < |tr.states[i + 1].threads| && tr.states[i + 1].threads[t].Joining?
    requires tr.acts[j] == Join(t) && t < |tr.states[j + 1].threads| && tr.states[j + 1].threads[t].Building?
    requires UniqueTags(tr.states[j + 1].threads[t].key)
    ensures tr.states[j + 1].threads[t].key == tr.states[i + 1].threads[t].key
    ensures var key := tr.states[j + 1].threads[t].key;
            Hit(tr.states[j].sh, key, env.policy) <==> exists k :: i < k && ServedSince(tr, k, j, key)
  {
    hide Inv, Reusable, UniqueTags, Publishes, Hurts;
    var key := tr.states[j + 1].threads[t].key;
    assert Step(env, tr.states[i], tr.acts[i], tr.states[i + 1]);
    assert Step(env, tr.states[j], tr.acts[j], tr.states[j + 1]);
    SameCall(env, tr, i, j, t);
    hide Step;
    ReachableInv(env, tr, i);
    ReachableInv(env, tr, j);
    HitIsServing(env, tr.states[i], key);
    HitIsServing(env, tr.states[j], key);
    ServingIsExact(env, tr, i, j, key);
    MissPublishesNothing(tr, i, j, key);
  }

  lemma MissPublishesNothing(tr: Trace, i: nat, j: nat, key: CacheKey)
    requires i < j <= |tr.acts| && |tr.states| == |tr.acts| + 1 && tr.acts[i].Probe?
    ensures ServedWithin(tr, i, j, key) <==> exists k :: i < k && ServedSince(tr, k, j, key)
  {
    hide Hurts;
    if ServedWithin(tr, i, j, key) {
      var k :| i <= k && ServedSince(tr, k, j, key);
      assert Publishes(tr.states[k], tr.acts[k], key);
      assert i < k && ServedSince(tr, k, j, key);
    }
  }

  /** A call keeps its request and its key. */
  lemma {:induction false} SameCall(env: Env, tr: Trace, i: nat, j: nat, t: nat)
    requires Valid(env, tr) && i <= j < |tr.states| && t < |tr.states[i].threads|
    ensures t < |tr.states[j].threads|
    ensures tr.states[j].threads[t].key == tr.states[i].threads[t].key && tr.states[j].threads[t].r == tr.states[i].threads[t].r
  {
    hide Step;
    if i < j {
      SameCall(env, tr, i, j - 1, t);
      assert Step(env, tr.states[j - 1], tr.acts[j - 1], tr.states[j]);
      SameCallStep(env, tr.states[j - 1], tr.acts[j - 1], tr.states[j], t);
    }
  }

  lemma SameCallStep(env: Env, s: Sys, a: Action, s': Sys, t: nat)
    requires Step(env, s, a, s') && t < |s.threads|
    ensures t < |s'.threads| && s'.threads[t].key == s.threads[t].key && s'.threads[t].r == s.threads[t].r
  {
    hide Hit, Invalidated, Superseded, Settled, Installed, Registered, Touched;
  }

  // ------------------------------------------------ what a waiter receives

  /** The cache serves this very artifact under the key. */
  predicate ServingThis(s: Sys, key: CacheKey, id: nat) { Serving(s, key) && s.sh.cache[key].art.id == id }

  /** The id has been drawn and will not be published again. */
  ghost predicate Spent(s: Sys, id: nat) {
    id <= s.sh.counter && forall t :: 0 <= t < |s.threads| && Pending(s.threads[t]) ==> PendingId(s.threads[t]) != id
  }

  lemma SpentStep(env: Env, s: Sys, a: Action, s': Sys, id: nat)
    requires Step(env, s, a, s') && Spent(s, id)
    ensures Spent(s', id)
  {
    StepCache(env, s, a, s');
    hide Step;
    forall t | 0 <= t < |s'.threads| && Pending(s'.threads[t]) ensures PendingId(s'.threads[t]) != id {
      StepPending(env, s, a, s', t);
    }
  }

  /** One step: the artifact is served after it exactly if it was before and the
      step neither hurt nor replaced it. */
  lemma ServingThisStep(env: Env, s: Sys, a: Action, s': Sys, key: CacheKey, id: nat)
    requires Inv(env, s) && Step(env, s, a, s') && Spent(s, id)
    ensures ServingThis(s', key, id) <==> ServingThis(s, key, id) && !Hurts(s, a, key) && !Publishes(s, a, key)
  {
    ServingStep(env, s, a, s', key);
    SameArtifact(env, s, a, s', key);
    hide Inv, Step, Hurts;
    if Publishes(s, a, key) {
      assert PendingId(s.threads[a.t]) != id;
    }
  }

  /** Which artifact a key holds changes only by a publication. */
  lemma SameArtifact(env: Env, s: Sys, a: Action, s': Sys, key: CacheKey)
    requires Step(env, s, a, s')
    ensures Publishes(s, a, key) ==> key in s'.sh.cache && s'.sh.cache[key].art.id == s.threads[a.t].art.id
    ensures !Publishes(s, a, key) && key in s'.sh.cache ==> key in s.sh.cache && s'.sh.cache[key].art.id == s.sh.cache[key].art.id
  {
    hide Reusable, Matches, Supersedable;
  }

  lemma CommitSpends(env: Env, s: Sys, t: nat, s': Sys)
    requires Inv(env, s) && Step(env, s, Commit(t), s') && s'.threads[t].Finishing?
    ensures Spent(s', s'.threads[t].result.art.id)
  {
    hide CacheOk, FlightsOk, RunningOwned, OwnersDistinct, Proper, ReplyOk;
    assert ThreadOk(env, s.sh, s.threads[t]);
  }

  /** Exactly when a published artifact is still the one that serves its key, at
      any later moment: no invalidation or supersession matched the key's entry
      since, and no later commit replaced it. */
  lemma {:induction false} ArtifactServedIff(env: Env, tr: Trace, c: nat, j: nat, t: nat)
    requires Valid(env, tr) && c < j < |tr.states| && tr.acts[c] == Commit(t)
    requires t < |tr.states[c + 1].threads| && tr.states[c + 1].threads[t].Finishing?
    ensures var th := tr.states[c + 1].threads[t]; var id := th.result.art.id;
            && Spent(tr.states[j], id)
            && (ServingThis(tr.states[j], th.key, id)
                <==> forall k :: c < k < j ==> !Hurts(tr.states[k], tr.acts[k], th.key) && !Publishes(tr.states[k], tr.acts[k], th.key))
    decreases j
  {
    hide Inv, Hurts, Step, Publishes, Spent;
    var s, s' := tr.states[j - 1], tr.states[j];
    assert Step(env, s, tr.acts[j - 1], s');
    ReachableInv(env, tr, j - 1);
    if j == c + 1 {
      CommitPublishes(env, s, t, s');
      CommitSpends(env, s, t, s');
    } else {
      var th := tr.states[c + 1].threads[t];
      ArtifactServedIff(env, tr, c, j - 1, t);
      SpentStep(env, s, tr.acts[j - 1], s', th.result.art.id);
      ServingThisStep(env, s, tr.acts[j - 1], s', th.key, th.result.art.id);
    }
  }

  /** What a waiter receives when it wakes, and what it is worth then: exactly the
      owner's result, whose artifact the cache still serves if and only if, from
      the commit up to the wake-up, nothing took the key out of service and no
      later commit replaced it. */
  lemma WaiterIsExact(env: Env, tr: Trace, c: nat, w: nat, t: nat, u: nat)
    requires Valid(env, tr) && c < w < |tr.acts| && tr.acts[c] == Commit(t) && tr.acts[w] == Wake(u)
    requires t < |tr.states[c + 1].threads| && tr.states[c + 1].threads[t].Finishing?
    requires u < |tr.states[w].threads| && tr.states[w].threads[u].Waiting?
    requires tr.states[w].threads[u].ref == tr.states[c + 1].threads[t].ref
    ensures var th := tr.states[c + 1].threads[t];
            && u < |tr.states[w + 1].threads| && tr.states[w + 1].threads[u].Returned?
            && tr.states[w + 1].threads[u].outcome == Success(th.result)
            && (ServingThis(tr.states[w + 1], th.key, th.result.art.id)
                <==> forall k :: c < k < w ==> !Hurts(tr.states[k], tr.acts[k], th.key) && !Publishes(tr.states[k], tr.acts[k], th.key))
  {
    hide Inv, Hurts, Publishes;
    assert Step(env, tr.states[w], tr.acts[w], tr.states[w + 1]);
    hide Step;
    ArtifactServedIff(env, tr, c, w, t);
    StillFinishing(env, tr, c + 1, w, t);
    ReachableInv(env, tr, w);
    FlightOfOwner(env, tr.states[w], t, tr.states[c + 1].threads[t]);
  }

  /** The flight of a call that published records its result once it is done. */
  lemma FlightOfOwner(env: Env, s: Sys, t: nat, th: Thread)
    requires Inv(env, s) && t < |s.threads| && th.Finishing?
    requires s.threads[t] == th || s.threads[t] == Delivered(th)
    ensures th.ref in s.sh.flights
    ensures s.sh.flights[th.ref].outcome.Some? ==> s.sh.flights[th.ref].outcome == Some(Success(th.result))
  {
    hide CacheOk, FlightsOk, RunningOwned, OwnersDistinct, IdsOk, Proper, ReplyOk;
    assert ThreadOk(env, s.sh, s.threads[t]);
  }

  // ------------------------------------------------ which artifacts an invalidation hits

  lemma BaseStep(env: Env, s: Sys, a: Action, s': Sys, key: CacheKey)
    requires Step(env, s, a, s') && key in s'.sh.cache && !Publishes(s, a, key)
    ensures key in s.sh.cache && s'.sh.cache[key].baseToolchainGen == s.sh.cache[key].baseToolchainGen
  {
    hide Reusable, Matches, Supersedable;
  }

  /** As long as a published artifact serves its key, its entry is stamped with
      the toolchain generation of its commit. */
  lemma {:induction false} StampIsKept(env: Env, tr: Trace, c: nat, j: nat, t: nat)
    requires Valid(env, tr) && c < j < |tr.states| && tr.acts[c] == Commit(t)
    requires t < |tr.states[c + 1].threads| && tr.states[c + 1].threads[t].Finishing?
    ensures var th := tr.states[c + 1].threads[t];
            ServingThis(tr.states[j], th.key, th.result.art.id) ==>
              tr.states[j].sh.cache[th.key].baseToolchainGen == tr.states[c].sh.toolchainGen
    decreases j
  {
    hide Inv, Hurts, Publishes, Spent;
    var s, s' := tr.states[j - 1], tr.states[j];
    assert Step(env, s, tr.acts[j - 1], s');
    var th := tr.states[c + 1].threads[t];
    if j > c + 1 {
      hide Step;
      StampIsKept(env, tr, c, j - 1, t);
      ArtifactServedIff(env, tr, c, j - 1, t);
      ReachableInv(env, tr, j - 1);
      ServingThisStep(env, s, tr.acts[j - 1], s', th.key, th.result.art.id);
      if ServingThis(s', th.key, th.result.art.id) {
        BaseStep(env, s, tr.acts[j - 1], s', th.key);
      }
    }
  }

  /** Which artifacts in service an invalidation takes out: by compiler generation
      exactly those committed under a toolchain generation up to the given one, by
      id exactly the one with the id that its owner returned, by key exactly the
      one under the key. */
  lemma InvalidationHits(env: Env, tr: Trace, c: nat, j: nat, t: nat)
    requires Valid(env, tr) && c < j < |tr.acts| && tr.acts[c] == Commit(t) && tr.acts[j].Invalidate?
    requires t < |tr.states[c + 1].threads| && tr.states[c + 1].threads[t].Finishing?
    requires var th := tr.states[c + 1].threads[t]; ServingThis(tr.states[j], th.key, th.result.art.id)
    ensures var th := tr.states[c + 1].threads[t]; var out := !ServingThis(tr.states[j + 1], th.key, th.result.art.id);
            match tr.acts[j].target
            case ByCompilerGeneration(gen) => out <==> tr.states[c].sh.toolchainGen <= gen
            case ById(id) => out <==> id == th.result.art.id
            case ByKey(key) => out <==> key == th.key
            case ByOperation(op) => out <==> OperationOf(th.key) == Some(op)
            case ByDependencyGeneration(gen) => out <==> DependencyOf(th.key).Some? && DependencyOf(th.key).value <= gen
  {
    hide Inv, Spent;
    StampIsKept(env, tr, c, j, t);
    ReachableInv(env, tr, j);
    var th := tr.states[c + 1].threads[t];
    EntryKey(env, tr.states[j], th.key);
    assert Step(env, tr.states[j], tr.acts[j], tr.states[j + 1]);
  }

  lemma EntryKey(env: Env, s: Sys, key: CacheKey)
    requires Inv(env, s) && key in s.sh.cache
    ensures s.sh.cache[key].key == key
  {
    hide FlightsOk, ThreadsOk, OwnersDistinct, RunningOwned, IdsOk, Proper;
    assert EntryOk(env, s.sh, key, s.sh.cache[key]);
  }
}
