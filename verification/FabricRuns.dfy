/** `CompilationFabric::compile` as a step system: any number of concurrent
    calls, one step per lock region or atomic access, interleaved with
    invalidation and supersession.  Runs without `recover`. */
module FabricRuns {
  import opened Wire
  import opened Key
  import opened Compatibility
  import opened Fabric
  import Req = Request

  /** What the steps depend on: planning and key building, the bytes a backend
      may emit for a request, its validation verdict, the digest and the policy. */
  datatype Env = Env(
    keyOf: Req.Request -> Option<CacheKey>,
    makes: (Req.Request, Bytes) -> bool,
    validates: (CacheKey, Bytes) -> bool,
    hash: Bytes -> Digest,
    policy: Policy)

  datatype Via = FromCache | FromFlight(flight: nat)

  /** Where a call stands. */
  datatype Thread =
    | Probing(r: Req.Request, key: CacheKey)
    | Joining(r: Req.Request, key: CacheKey)
    | Waiting(r: Req.Request, key: CacheKey, ref: nat)
    | Building(r: Req.Request, key: CacheKey, ref: nat)
    | Stamping(r: Req.Request, key: CacheKey, ref: nat, id: nat, bytes: Bytes)
    | Validating(r: Req.Request, key: CacheKey, ref: nat, id: nat, gen: nat, bytes: Bytes)
    | Committing(r: Req.Request, key: CacheKey, ref: nat, art: Artifact, bytes: Bytes)
    | Finishing(r: Req.Request, key: CacheKey, ref: nat, result: Served)
    | Returned(r: Req.Request, key: CacheKey, via: Via, outcome: Reply)

  datatype Sys = Sys(sh: Shared, threads: seq<Thread>)

  datatype Action =
    | Call(r: Req.Request)
    | Probe(t: nat) | Join(t: nat) | Wake(t: nat)
    | Build(t: nat, bytes: Bytes) | Stamp(t: nat) | Validate(t: nat) | Abort(t: nat, why: Failure)
    | Commit(t: nat) | Finish(t: nat)
    | Invalidate(target: Target) | Supersede(id: nat, newGen: nat)

  predicate IsOwner(th: Thread) {
    th.Building? || th.Stamping? || th.Validating? || th.Committing? || th.Finishing?
  }

  predicate OwnerOf(th: Thread, ref: nat) { IsOwner(th) && th.ref == ref }

  /** An artifact id drawn but not yet published. */
  predicate Pending(th: Thread) { th.Stamping? || th.Validating? || th.Committing? }

  function PendingId(th: Thread): nat
    requires Pending(th)
  {
    if th.Committing? then th.art.id else th.id
  }

  function Move(s: Sys, t: nat, sh: Shared, th: Thread): Sys
    requires t < |s.threads|
  {
    Sys(sh, s.threads[t := th])
  }

  function Fresh(env: Env, th: Thread): Artifact
    requires th.Validating?
  {
    Artifact(th.id, th.gen, env.hash(th.bytes), th.ref, th.r.requestId, DEPLOYABLE, true, true, 0)
  }

  /** A hit returns the touched entry; a miss goes on to the join region. */
  ghost function AfterProbe(env: Env, s: Sys, t: nat): Sys
    requires t < |s.threads| && s.threads[t].Probing?
  {
    var Probing(r, key) := s.threads[t];
    if Hit(s.sh, key, env.policy) then
      var sh := Touched(s.sh, key);
      Move(s, t, sh, Returned(r, key, FromCache,
        Success(Served(r.requestId, key, sh.cache[key].art, sh.cache[key].bytes, true))))
    else Move(s, t, s.sh, Joining(r, key))
  }

  function AfterJoin(s: Sys, t: nat): Sys
    requires t < |s.threads| && s.threads[t].Joining?
  {
    var Joining(r, key) := s.threads[t];
    if Joinable(s.sh, key) then Move(s, t, s.sh, Waiting(r, key, s.sh.inflight[key]))
    else Move(s, t, Registered(s.sh, key), Building(r, key, s.sh.counter + 1))
  }

  function AfterCommit(s: Sys, t: nat): Sys
    requires t < |s.threads| && s.threads[t].Committing? && s.threads[t].ref in s.sh.flights
  {
    var Committing(r, key, ref, art, bytes) := s.threads[t];
    if Outdated(s.sh, ref) then
      Move(s, t, Settled(s.sh, ref, Failed(StaleGeneration)), Returned(r, key, FromFlight(ref), Failed(StaleGeneration)))
    else Move(s, t, Installed(s.sh, key, art, bytes),
              Finishing(r, key, ref, Served(r.requestId, key, art, bytes, false)))
  }

  function AfterEnd(s: Sys, t: nat, o: Reply): Sys
    requires t < |s.threads| && IsOwner(s.threads[t]) && s.threads[t].ref in s.sh.flights
  {
    var th := s.threads[t];
    Move(s, t, Settled(s.sh, th.ref, o), Returned(th.r, th.key, FromFlight(th.ref), o))
  }

  function Actor(a: Action): Option<nat> {
    if a.Call? || a.Invalidate? || a.Supersede? then None else Some(a.t)
  }

  ghost predicate Step(env: Env, s: Sys, a: Action, s': Sys) {
    && (Actor(a).Some? ==> Actor(a).value < |s.threads|)
    && match a
       case Call(r) => env.keyOf(r).Some? && s' == s.(threads := s.threads + [Probing(r, env.keyOf(r).value)])
       case Probe(t) => s.threads[t].Probing? && s' == AfterProbe(env, s, t)
       case Join(t) => s.threads[t].Joining? && s' == AfterJoin(s, t)
       case Wake(t) => StepWake(s, t, s')
       case Build(t, bytes) => StepBuild(env, s, t, bytes, s')
       case Stamp(t) => StepStamp(s, t, s')
       case Validate(t) => StepValidate(env, s, t, s')
       case Abort(t, why) =>
         && (s.threads[t].Building? || s.threads[t].Validating?) && s.threads[t].ref in s.sh.flights
         && s' == AfterEnd(s, t, Failed(why))
       case Commit(t) =>
         s.threads[t].Committing? && s.threads[t].ref in s.sh.flights && s' == AfterCommit(s, t)
       case Finish(t) =>
         && s.threads[t].Finishing? && s.threads[t].ref in s.sh.flights
         && s' == AfterEnd(s, t, Success(s.threads[t].result))
       case Invalidate(target) => s' == s.(sh := Invalidated(s.sh, target))
       case Supersede(id, newGen) => s' == s.(sh := Superseded(s.sh, id, newGen))
  }

  /** The condition variable lets a waiter go once the flight is done. */
  ghost predicate StepWake(s: Sys, t: nat, s': Sys)
    requires t < |s.threads|
  {
    && s.threads[t].Waiting? && s.threads[t].ref in s.sh.flights
    && var Waiting(r, key, ref) := s.threads[t];
    && s.sh.flights[ref].outcome.Some?
    && s' == Move(s, t, s.sh, Returned(r, key, FromFlight(ref), s.sh.flights[ref].outcome.value))
  }

  /** The unlocked compilation, up to drawing the artifact id. */
  ghost predicate StepBuild(env: Env, s: Sys, t: nat, bytes: Bytes, s': Sys)
    requires t < |s.threads|
  {
    && s.threads[t].Building? && bytes != [] && env.makes(s.threads[t].r, bytes)
    && var Building(r, key, ref) := s.threads[t];
    s' == Move(s, t, s.sh.(counter := s.sh.counter + 1), Stamping(r, key, ref, s.sh.counter + 1, bytes))
  }

  /** The generation is a second, separate read of the counter. */
  ghost predicate StepStamp(s: Sys, t: nat, s': Sys)
    requires t < |s.threads|
  {
    && s.threads[t].Stamping?
    && var Stamping(r, key, ref, id, bytes) := s.threads[t];
    s' == Move(s, t, s.sh, Validating(r, key, ref, id, s.sh.counter, bytes))
  }

  ghost predicate StepValidate(env: Env, s: Sys, t: nat, s': Sys)
    requires t < |s.threads|
  {
    && s.threads[t].Validating?
    && var th := s.threads[t];
    && env.validates(th.key, th.bytes)
    && s' == Move(s, t, s.sh, Committing(th.r, th.key, th.ref, Fresh(env, th), th.bytes))
  }

  // ------------------------------------------------------------- invariant

  /** Some request with this key can be compiled to these bytes. */
  ghost predicate Genuine(env: Env, key: CacheKey, bytes: Bytes) {
    exists r: Req.Request :: env.keyOf(r) == Some(key) && env.makes(r, bytes)
  }

  ghost predicate Proper(env: Env, key: CacheKey, art: Artifact, bytes: Bytes) {
    Genuine(env, key, bytes) && env.validates(key, bytes) && art.contentDigest == env.hash(bytes)
  }

  ghost predicate ReplyOk(env: Env, key: CacheKey, o: Reply) {
    o.Success? ==> o.result.key == key && Proper(env, key, o.result.art, o.result.bytes)
  }

  predicate InService(art: Artifact) { art.state == DEPLOYABLE && art.passed && art.deployable }

  predicate EntryStateOk(art: Artifact) {
    || InService(art)
    || ((art.state == INVALIDATED || art.state == SUPERSEDED) && !art.deployable)
  }

  ghost predicate EntryOk(env: Env, sh: Shared, k: CacheKey, e: CacheEntry) {
    && e.key == k && Proper(env, k, e.art, e.bytes) && EntryStateOk(e.art)
    && e.art.id <= sh.counter && e.baseCacheGen <= sh.cacheGen && e.baseToolchainGen <= sh.toolchainGen
  }

  ghost predicate FlightOk(env: Env, sh: Shared, ref: nat, f: Flight) {
    && ref <= sh.counter && f.baseCacheGen <= sh.cacheGen && f.baseToolchainGen <= sh.toolchainGen
    && (f.outcome.Some? ==> ReplyOk(env, f.key, f.outcome.value))
  }

  ghost predicate CacheOk(env: Env, sh: Shared) {
    && (forall k :: k in sh.cache ==> EntryOk(env, sh, k, sh.cache[k]))
    && (forall k, k' :: k in sh.cache && k' in sh.cache && k != k' ==> sh.cache[k].art.id != sh.cache[k'].art.id)
  }

  ghost predicate FlightsOk(env: Env, sh: Shared) {
    && (forall ref :: ref in sh.flights ==> FlightOk(env, sh, ref, sh.flights[ref]))
    && (forall k :: k in sh.inflight ==> sh.inflight[k] in sh.flights && sh.flights[sh.inflight[k]].key == k)
  }

  /** The call owns the running flight its key points to. */
  predicate Owns(sh: Shared, key: CacheKey, ref: nat) {
    && ref in sh.flights && sh.flights[ref].key == key && sh.flights[ref].outcome.None?
    && key in sh.inflight && sh.inflight[key] == ref
  }

  ghost predicate ThreadOk(env: Env, sh: Shared, th: Thread) {
    && env.keyOf(th.r) == Some(th.key)
    && (IsOwner(th) ==> Owns(sh, th.key, th.ref))
    && (Pending(th) ==> PendingId(th) <= sh.counter && Genuine(env, th.key, th.bytes))
    && (th.Committing? ==> Proper(env, th.key, th.art, th.bytes) && InService(th.art))
    && (th.Finishing? ==> ReplyOk(env, th.key, Success(th.result)))
    && (th.Waiting? ==> th.ref in sh.flights && sh.flights[th.ref].key == th.key)
    && (th.Returned? ==> ReplyOk(env, th.key, th.outcome))
    && (th.Returned? && th.via.FromFlight? ==> th.via.flight in sh.flights && sh.flights[th.via.flight].outcome == Some(th.outcome))
  }

  ghost predicate ThreadsOk(env: Env, s: Sys) {
    forall t :: 0 <= t < |s.threads| ==> ThreadOk(env, s.sh, s.threads[t])
  }

  ghost predicate OwnersDistinct(s: Sys) {
    forall t, u :: 0 <= t < u < |s.threads| && IsOwner(s.threads[t]) && IsOwner(s.threads[u])
      ==> s.threads[t].ref != s.threads[u].ref
  }

  ghost predicate HasOwner(s: Sys, ref: nat) {
    exists t :: 0 <= t < |s.threads| && OwnerOf(s.threads[t], ref)
  }

  ghost predicate RunningOwned(s: Sys) {
    forall ref :: ref in s.sh.flights && s.sh.flights[ref].outcome.None? ==> HasOwner(s, ref)
  }

  /** No pending id is in the cache or pending twice. */
  ghost predicate IdsOk(s: Sys) {
    && (forall t, k :: 0 <= t < |s.threads| && Pending(s.threads[t]) && k in s.sh.cache
          ==> PendingId(s.threads[t]) != s.sh.cache[k].art.id)
    && (forall t, u :: 0 <= t < u < |s.threads| && Pending(s.threads[t]) && Pending(s.threads[u])
          ==> PendingId(s.threads[t]) != PendingId(s.threads[u]))
  }

  ghost predicate Inv(env: Env, s: Sys) {
    CacheOk(env, s.sh) && FlightsOk(env, s.sh) && ThreadsOk(env, s) && OwnersDistinct(s) && RunningOwned(s) && IdsOk(s)
  }

  // --------------------------------------- preservation, region by region

  /** A change of the shared state that leaves the flights alone. */
  predicate FlightsKept(sh: Shared, sh': Shared) {
    && sh'.flights == sh.flights && sh'.inflight == sh.inflight
    && sh.counter <= sh'.counter && sh.cacheGen <= sh'.cacheGen && sh.toolchainGen <= sh'.toolchainGen
  }

  lemma KeptFlightsOk(env: Env, sh: Shared, sh': Shared)
    requires FlightsOk(env, sh) && FlightsKept(sh, sh')
    ensures FlightsOk(env, sh')
  {
    forall ref | ref in sh'.flights ensures FlightOk(env, sh', ref, sh'.flights[ref]) {
      assert FlightOk(env, sh, ref, sh.flights[ref]);
    }
  }

  lemma KeptThreadOk(env: Env, sh: Shared, sh': Shared, th: Thread)
    requires ThreadOk(env, sh, th) && FlightsKept(sh, sh')
    ensures ThreadOk(env, sh', th)
  {
    hide Proper, Genuine, ReplyOk;
  }

  lemma RegisteredThreadOk(env: Env, sh: Shared, key: CacheKey, th: Thread)
    requires FlightsOk(env, sh) && ThreadOk(env, sh, th) && !Joinable(sh, key)
    ensures ThreadOk(env, Registered(sh, key), th)
  {
    hide Proper, Genuine, ReplyOk;
    var sh' := Registered(sh, key);
    forall ref | ref in sh.flights ensures sh'.flights[ref] == sh.flights[ref] {
      assert FlightOk(env, sh, ref, sh.flights[ref]);
    }
  }

  lemma RegisteredFlightsOk(env: Env, sh: Shared, key: CacheKey)
    requires FlightsOk(env, sh)
    ensures FlightsOk(env, Registered(sh, key))
  {
    hide ReplyOk;
    var sh' := Registered(sh, key);
    forall ref | ref in sh'.flights ensures FlightOk(env, sh', ref, sh'.flights[ref]) {
      if ref in sh.flights { assert FlightOk(env, sh, ref, sh.flights[ref]); }
    }
    forall k | k in sh'.inflight ensures sh'.inflight[k] in sh'.flights && sh'.flights[sh'.inflight[k]].key == k {
      if k != key {
        assert FlightOk(env, sh, sh.inflight[k], sh.flights[sh.inflight[k]]);
      }
    }
  }

  lemma SettledThreadOk(env: Env, sh: Shared, ref: nat, o: Reply, th: Thread)
    requires ThreadOk(env, sh, th) && ref in sh.flights && sh.flights[ref].outcome.None?
    requires IsOwner(th) ==> th.ref != ref
    ensures ThreadOk(env, Settled(sh, ref, o), th)
  {
    hide Proper, Genuine, ReplyOk;
  }

  lemma SettledFlightsOk(env: Env, sh: Shared, ref: nat, o: Reply)
    requires FlightsOk(env, sh) && ref in sh.flights && ReplyOk(env, sh.flights[ref].key, o)
    ensures FlightsOk(env, Settled(sh, ref, o))
  {
    hide ReplyOk;
    var sh' := Settled(sh, ref, o);
    forall x | x in sh'.flights ensures FlightOk(env, sh', x, sh'.flights[x]) {
      assert FlightOk(env, sh, x, sh.flights[x]);
    }
  }

  /** Entries may change state, but keep identity and content. */
  ghost predicate EntriesKept(env: Env, sh: Shared, sh': Shared) {
    && sh'.cache.Keys == sh.cache.Keys
    && sh.counter <= sh'.counter && sh.cacheGen <= sh'.cacheGen && sh.toolchainGen <= sh'.toolchainGen
    && forall k :: k in sh.cache ==> EntryKept(sh.cache[k], sh'.cache[k])
  }

  predicate EntryKept(e: CacheEntry, e': CacheEntry) {
    && e'.key == e.key && e'.bytes == e.bytes && e'.art.id == e.art.id
    && e'.art.contentDigest == e.art.contentDigest
    && e'.baseCacheGen == e.baseCacheGen && e'.baseToolchainGen == e.baseToolchainGen
    && (EntryStateOk(e.art) ==> EntryStateOk(e'.art))
    && (e'.art.state == DEPLOYABLE ==> e.art.state == DEPLOYABLE)
  }

  lemma KeptCacheOk(env: Env, sh: Shared, sh': Shared)
    requires CacheOk(env, sh) && EntriesKept(env, sh, sh')
    ensures CacheOk(env, sh')
  {
    hide Genuine, EntryStateOk;
    forall k | k in sh'.cache ensures EntryOk(env, sh', k, sh'.cache[k]) {
      assert EntryOk(env, sh, k, sh.cache[k]);
      assert EntryKept(sh.cache[k], sh'.cache[k]);
    }
    forall k, k' | k in sh'.cache && k' in sh'.cache && k != k'
      ensures sh'.cache[k].art.id != sh'.cache[k'].art.id
    {
      assert EntryKept(sh.cache[k], sh'.cache[k]) && EntryKept(sh.cache[k'], sh'.cache[k']);
    }
  }

  lemma TouchedKeeps(env: Env, sh: Shared, key: CacheKey)
    requires key in sh.cache
    ensures EntriesKept(env, sh, Touched(sh, key)) && FlightsKept(sh, Touched(sh, key))
  {
  }

  lemma InvalidatedKeeps(env: Env, sh: Shared, target: Target)
    ensures EntriesKept(env, sh, Invalidated(sh, target)) && FlightsKept(sh, Invalidated(sh, target))
  {
    hide Matches;
  }

  lemma SupersededKeeps(env: Env, sh: Shared, id: nat, newGen: nat)
    ensures EntriesKept(env, sh, Superseded(sh, id, newGen)) && FlightsKept(sh, Superseded(sh, id, newGen))
  {
    hide Supersedable;
  }

  lemma InstalledCacheOk(env: Env, sh: Shared, key: CacheKey, art: Artifact, bytes: Bytes)
    requires CacheOk(env, sh) && Proper(env, key, art, bytes) && EntryStateOk(art) && art.id <= sh.counter
    requires forall k :: k in sh.cache ==> sh.cache[k].art.id != art.id
    ensures CacheOk(env, Installed(sh, key, art, bytes))
  {
    hide Proper, EntryStateOk;
    var sh' := Installed(sh, key, art, bytes);
    forall k | k in sh'.cache ensures EntryOk(env, sh', k, sh'.cache[k]) {
      if k != key { assert EntryOk(env, sh, k, sh.cache[k]); }
    }
  }

  // ------------------------------------------- preservation, step by step

  /** The shape of every step by a call: it alone moves, and no other call's
      view of the flights is disturbed. */
  ghost predicate Moves(env: Env, s: Sys, t: nat, s': Sys) {
    && t < |s.threads| == |s'.threads|
    && (forall u :: 0 <= u < |s.threads| && u != t ==> s'.threads[u] == s.threads[u])
    && (forall u :: 0 <= u < |s.threads| && u != t ==> ThreadOk(env, s'.sh, s.threads[u]))
    && ThreadOk(env, s'.sh, s'.threads[t])
  }

  lemma MovesThreadsOk(env: Env, s: Sys, t: nat, s': Sys)
    requires Moves(env, s, t, s')
    ensures ThreadsOk(env, s')
  {
    hide ThreadOk;
    forall u | 0 <= u < |s'.threads| ensures ThreadOk(env, s'.sh, s'.threads[u]) {
      if u != t { assert s'.threads[u] == s.threads[u]; }
    }
  }

  /** Owners stay distinct if the mover keeps its flight, gives it up, or takes
      a flight nobody owns. */
  lemma MovesOwners(env: Env, s: Sys, t: nat, s': Sys)
    requires OwnersDistinct(s) && Moves(env, s, t, s')
    requires IsOwner(s'.threads[t]) && !OwnerOf(s.threads[t], s'.threads[t].ref) ==> !HasOwner(s, s'.threads[t].ref)
    ensures OwnersDistinct(s')
  {
    hide ThreadOk;
    forall u, v | 0 <= u < v < |s'.threads| && IsOwner(s'.threads[u]) && IsOwner(s'.threads[v])
      ensures s'.threads[u].ref != s'.threads[v].ref
    {
      var o := if u == t then v else u;
      assert o != t ==> s'.threads[o] == s.threads[o];
      if u == t || v == t {
        assert OwnerOf(s.threads[o], s'.threads[o].ref);
      } else {
        assert s'.threads[v] == s.threads[v];
      }
    }
  }

  /** Running flights stay owned if only the mover's flight can lose its owner. */
  lemma MovesRunning(env: Env, s: Sys, t: nat, s': Sys)
    requires RunningOwned(s) && Moves(env, s, t, s')
    requires forall ref :: ref in s'.sh.flights && s'.sh.flights[ref].outcome.None? ==>
      OwnerOf(s'.threads[t], ref) || (ref in s.sh.flights && s.sh.flights[ref].outcome.None? && !OwnerOf(s.threads[t], ref))
    ensures RunningOwned(s')
  {
    hide ThreadOk;
    forall ref | ref in s'.sh.flights && s'.sh.flights[ref].outcome.None? ensures HasOwner(s', ref) {
      if !OwnerOf(s'.threads[t], ref) {
        assert HasOwner(s, ref);
        var u :| 0 <= u < |s.threads| && OwnerOf(s.threads[u], ref);
        assert s'.threads[u] == s.threads[u];
      }
    }
  }

  /** Ids stay apart if the mover's pending id is its old one or brand new, and
      the cache gains no id other than the mover's. */
  lemma MovesIds(env: Env, s: Sys, t: nat, s': Sys)
    requires Inv(env, s) && Moves(env, s, t, s')
    requires Pending(s'.threads[t]) ==>
      PendingId(s'.threads[t]) == s.sh.counter + 1 || (Pending(s.threads[t]) && PendingId(s'.threads[t]) == PendingId(s.threads[t]))
    requires forall k :: k in s'.sh.cache ==>
      (k in s.sh.cache && s'.sh.cache[k].art.id == s.sh.cache[k].art.id)
      || (Pending(s.threads[t]) && !Pending(s'.threads[t]) && s'.sh.cache[k].art.id == PendingId(s.threads[t]))
    ensures IdsOk(s')
  {
    hide Proper, Genuine, ReplyOk, Owns, FlightOk, FlightsOk, OwnersDistinct, RunningOwned, EntryStateOk;
    forall u, k | 0 <= u < |s'.threads| && Pending(s'.threads[u]) && k in s'.sh.cache
      ensures PendingId(s'.threads[u]) != s'.sh.cache[k].art.id
    {
      assert ThreadOk(env, s.sh, s.threads[t]);
      assert k in s.sh.cache ==> EntryOk(env, s.sh, k, s.sh.cache[k]);
      if u != t { assert s'.threads[u] == s.threads[u]; }
    }
    forall u, v | 0 <= u < v < |s'.threads| && Pending(s'.threads[u]) && Pending(s'.threads[v])
      ensures PendingId(s'.threads[u]) != PendingId(s'.threads[v])
    {
      var o := if u == t then v else u;
      assert o != t ==> s'.threads[o] == s.threads[o];
      assert ThreadOk(env, s.sh, s.threads[o]);
      if u != t && v != t { assert s'.threads[v] == s.threads[v]; }
    }
  }

  lemma CallKeeps(env: Env, s: Sys, a: Action, s': Sys)
    requires Inv(env, s) && Step(env, s, a, s') && a.Call?
    ensures Inv(env, s')
  {
    hide CacheOk, FlightsOk, Owns, Proper, Genuine, ReplyOk;
    var n := |s.threads|;
    assert forall t :: 0 <= t < n ==> s'.threads[t] == s.threads[t];
    assert s'.threads[n].Probing?;
    forall ref | ref in s'.sh.flights && s'.sh.flights[ref].outcome.None? ensures HasOwner(s', ref) {
      assert HasOwner(s, ref);
      var u :| 0 <= u < n && OwnerOf(s.threads[u], ref);
      assert s'.threads[u] == s.threads[u];
    }
    hide ThreadOk;
    forall t | 0 <= t < |s'.threads| ensures ThreadOk(env, s'.sh, s'.threads[t]) {
      if t < n {
        assert s'.threads[t] == s.threads[t];
      } else {
        ProbingOk(env, s.sh, s'.threads[t]);
      }
    }
  }

  lemma ProbingOk(env: Env, sh: Shared, th: Thread)
    requires th.Probing? && env.keyOf(th.r) == Some(th.key)
    ensures ThreadOk(env, sh, th)
  {
  }

  /** A change of the cache or the generations alone. */
  lemma OutsideKeeps(env: Env, s: Sys, s': Sys)
    requires Inv(env, s) && s'.threads == s.threads
    requires EntriesKept(env, s.sh, s'.sh) && FlightsKept(s.sh, s'.sh)
    ensures Inv(env, s')
  {
    KeptCacheOk(env, s.sh, s'.sh);
    KeptFlightsOk(env, s.sh, s'.sh);
    hide ThreadOk, EntryOk, FlightOk;
    forall t | 0 <= t < |s'.threads| ensures ThreadOk(env, s'.sh, s'.threads[t]) {
      KeptThreadOk(env, s.sh, s'.sh, s.threads[t]);
    }
    forall t, k | 0 <= t < |s'.threads| && Pending(s'.threads[t]) && k in s'.sh.cache
      ensures PendingId(s'.threads[t]) != s'.sh.cache[k].art.id
    {
      assert EntryKept(s.sh.cache[k], s'.sh.cache[k]);
    }
    assert forall ref :: HasOwner(s, ref) ==> HasOwner(s', ref);
  }

  lemma QuietMoves(env: Env, s: Sys, t: nat, sh: Shared, th: Thread)
    requires Inv(env, s) && t < |s.threads| && FlightsKept(s.sh, sh) && ThreadOk(env, sh, th)
    ensures Moves(env, s, t, Move(s, t, sh, th))
  {
    hide ThreadOk, CacheOk, FlightsOk;
    forall u | 0 <= u < |s.threads| && u != t ensures ThreadOk(env, sh, s.threads[u]) {
      KeptThreadOk(env, s.sh, sh, s.threads[u]);
    }
  }

  /** A step that leaves the flights alone and does not change what the caller owns. */
  lemma QuietKeeps(env: Env, s: Sys, t: nat, sh: Shared, th: Thread)
    requires Inv(env, s) && t < |s.threads| && FlightsKept(s.sh, sh) && ThreadOk(env, sh, th)
    requires forall ref :: OwnerOf(th, ref) <==> OwnerOf(s.threads[t], ref)
    requires CacheOk(env, sh)
    requires Pending(th) ==>
      PendingId(th) == s.sh.counter + 1 || (Pending(s.threads[t]) && PendingId(th) == PendingId(s.threads[t]))
    requires forall k :: k in sh.cache ==>
      (k in s.sh.cache && sh.cache[k].art.id == s.sh.cache[k].art.id)
      || (Pending(s.threads[t]) && !Pending(th) && sh.cache[k].art.id == PendingId(s.threads[t]))
    ensures Inv(env, Move(s, t, sh, th))
  {
    var s' := Move(s, t, sh, th);
    QuietMoves(env, s, t, sh, th);
    hide ThreadOk, CacheOk, Moves;
    assert IsOwner(th) ==> OwnerOf(th, th.ref);
    KeptFlightsOk(env, s.sh, sh);
    MovesThreadsOk(env, s, t, s');
    MovesOwners(env, s, t, s');
    MovesRunning(env, s, t, s');
    MovesIds(env, s, t, s');
  }

  lemma ProbeKeeps(env: Env, s: Sys, t: nat)
    requires Inv(env, s) && t < |s.threads| && s.threads[t].Probing?
    ensures Inv(env, AfterProbe(env, s, t))
  {
    hide FlightsOk, OwnersDistinct, RunningOwned, IdsOk, Reusable, Proper, EntryStateOk;
    var Probing(r, key) := s.threads[t];
    if Hit(s.sh, key, env.policy) {
      var sh := Touched(s.sh, key);
      TouchedKeeps(env, s.sh, key);
      KeptCacheOk(env, s.sh, sh);
      assert EntryOk(env, sh, key, sh.cache[key]);
      QuietKeeps(env, s, t, sh, AfterProbe(env, s, t).threads[t]);
    } else {
      QuietKeeps(env, s, t, s.sh, Joining(r, key));
    }
  }

  lemma WakeKeeps(env: Env, s: Sys, t: nat, s': Sys)
    requires Inv(env, s) && t < |s.threads| && StepWake(s, t, s')
    ensures Inv(env, s')
  {
    hide CacheOk, OwnersDistinct, RunningOwned, IdsOk, ReplyOk;
    var Waiting(r, key, ref) := s.threads[t];
    assert FlightOk(env, s.sh, ref, s.sh.flights[ref]);
    QuietKeeps(env, s, t, s.sh, s'.threads[t]);
  }

  lemma BuildKeeps(env: Env, s: Sys, t: nat, bytes: Bytes, s': Sys)
    requires Inv(env, s) && t < |s.threads| && StepBuild(env, s, t, bytes, s')
    ensures Inv(env, s')
  {
    assert ThreadOk(env, s.sh, s.threads[t]);
    var sh := s.sh.(counter := s.sh.counter + 1);
    assert EntriesKept(env, s.sh, sh);
    KeptCacheOk(env, s.sh, sh);
    assert Genuine(env, s.threads[t].key, bytes);
    hide CacheOk, FlightsOk, OwnersDistinct, RunningOwned, IdsOk, ReplyOk;
    QuietKeeps(env, s, t, sh, s'.threads[t]);
  }

  lemma StampKeeps(env: Env, s: Sys, t: nat, s': Sys)
    requires Inv(env, s) && t < |s.threads| && StepStamp(s, t, s')
    ensures Inv(env, s')
  {
    hide CacheOk, FlightsOk, OwnersDistinct, RunningOwned, IdsOk, ReplyOk, Genuine;
    assert ThreadOk(env, s.sh, s.threads[t]);
    QuietKeeps(env, s, t, s.sh, s'.threads[t]);
  }

  lemma ValidateKeeps(env: Env, s: Sys, t: nat, s': Sys)
    requires Inv(env, s) && t < |s.threads| && StepValidate(env, s, t, s')
    ensures Inv(env, s')
  {
    hide CacheOk, FlightsOk, OwnersDistinct, RunningOwned, IdsOk, ReplyOk, Genuine;
    assert ThreadOk(env, s.sh, s.threads[t]);
    QuietKeeps(env, s, t, s.sh, s'.threads[t]);
  }

  lemma InstallKeeps(env: Env, s: Sys, t: nat)
    requires Inv(env, s) && t < |s.threads| && s.threads[t].Committing? && s.threads[t].ref in s.sh.flights
    requires !Outdated(s.sh, s.threads[t].ref)
    ensures Inv(env, AfterCommit(s, t))
  {
    var Committing(r, key, ref, art, bytes) := s.threads[t];
    assert ThreadOk(env, s.sh, s.threads[t]);
    forall k | k in s.sh.cache ensures s.sh.cache[k].art.id != art.id {
      assert PendingId(s.threads[t]) != s.sh.cache[k].art.id;
    }
    InstalledCacheOk(env, s.sh, key, art, bytes);
    hide CacheOk, FlightsOk, OwnersDistinct, RunningOwned, IdsOk, Proper;
    QuietKeeps(env, s, t, Installed(s.sh, key, art, bytes), AfterCommit(s, t).threads[t]);
  }

  /** Every way an owner leaves. */
  lemma EndKeeps(env: Env, s: Sys, t: nat, o: Reply)
    requires Inv(env, s) && t < |s.threads| && IsOwner(s.threads[t]) && s.threads[t].ref in s.sh.flights
    requires ReplyOk(env, s.threads[t].key, o)
    ensures Inv(env, AfterEnd(s, t, o))
  {
    var th := s.threads[t];
    var s' := AfterEnd(s, t, o);
    hide ReplyOk, Proper, Genuine, EntryStateOk;
    assert ThreadOk(env, s.sh, th);
    EndMoves(env, s, t, o);
    SettledFlightsOk(env, s.sh, th.ref, o);
    assert CacheOk(env, s'.sh) by {
      assert EntriesKept(env, s.sh, s'.sh) by { hide EntryOk; }
      KeptCacheOk(env, s.sh, s'.sh);
    }
    hide ThreadOk, CacheOk, Moves, FlightsOk;
    MovesThreadsOk(env, s, t, s');
    MovesOwners(env, s, t, s');
    MovesRunning(env, s, t, s');
    MovesIds(env, s, t, s');
  }

  lemma EndMoves(env: Env, s: Sys, t: nat, o: Reply)
    requires Inv(env, s) && t < |s.threads| && IsOwner(s.threads[t]) && s.threads[t].ref in s.sh.flights
    requires ReplyOk(env, s.threads[t].key, o)
    ensures Moves(env, s, t, AfterEnd(s, t, o))
  {
    var th := s.threads[t];
    var s' := AfterEnd(s, t, o);
    hide ReplyOk, Proper, Genuine, EntryStateOk, CacheOk, FlightsOk, RunningOwned, IdsOk;
    assert ThreadOk(env, s.sh, th);
    forall u | 0 <= u < |s.threads| && u != t ensures ThreadOk(env, s'.sh, s.threads[u]) {
      hide ThreadOk;
      SettledThreadOk(env, s.sh, th.ref, o, s.threads[u]);
    }
  }

  lemma JoinKeeps(env: Env, s: Sys, t: nat)
    requires Inv(env, s) && t < |s.threads| && s.threads[t].Joining?
    ensures Inv(env, AfterJoin(s, t))
  {
    if Joinable(s.sh, s.threads[t].key) {
      hide CacheOk, OwnersDistinct, RunningOwned, IdsOk;
      QuietKeeps(env, s, t, s.sh, AfterJoin(s, t).threads[t]);
    } else {
      RegisterKeeps(env, s, t);
    }
  }

  lemma RegisterMoves(env: Env, s: Sys, t: nat)
    requires Inv(env, s) && t < |s.threads| && s.threads[t].Joining? && !Joinable(s.sh, s.threads[t].key)
    ensures Moves(env, s, t, AfterJoin(s, t))
  {
    hide CacheOk, OwnersDistinct, RunningOwned, IdsOk;
    var s' := AfterJoin(s, t);
    assert ThreadOk(env, s'.sh, s'.threads[t]) by {
      hide Proper, Genuine;
    }
    forall u | 0 <= u < |s.threads| && u != t ensures ThreadOk(env, s'.sh, s.threads[u]) {
      hide ThreadOk, FlightsOk;
      RegisteredThreadOk(env, s.sh, s.threads[t].key, s.threads[u]);
    }
  }

  lemma NewRefUnowned(env: Env, s: Sys)
    requires Inv(env, s)
    ensures !HasOwner(s, s.sh.counter + 1)
    ensures s.sh.counter + 1 !in s.sh.flights
  {
    hide CacheOk, OwnersDistinct, RunningOwned, IdsOk, Proper, Genuine, ReplyOk;
    forall t | 0 <= t < |s.threads| ensures !OwnerOf(s.threads[t], s.sh.counter + 1) {
      assert ThreadOk(env, s.sh, s.threads[t]);
      if IsOwner(s.threads[t]) {
        assert FlightOk(env, s.sh, s.threads[t].ref, s.sh.flights[s.threads[t].ref]);
      }
    }
    assert forall ref :: ref in s.sh.flights ==> FlightOk(env, s.sh, ref, s.sh.flights[ref]);
  }

  lemma RegisterKeeps(env: Env, s: Sys, t: nat)
    requires Inv(env, s) && t < |s.threads| && s.threads[t].Joining? && !Joinable(s.sh, s.threads[t].key)
    ensures Inv(env, AfterJoin(s, t))
  {
    var s' := AfterJoin(s, t);
    RegisterMoves(env, s, t);
    NewRefUnowned(env, s);
    RegisteredFlightsOk(env, s.sh, s.threads[t].key);
    assert EntriesKept(env, s.sh, s'.sh) by { hide EntryOk; }
    KeptCacheOk(env, s.sh, s'.sh);
    hide ThreadOk, CacheOk, Moves, FlightsOk;
    MovesThreadsOk(env, s, t, s');
    MovesOwners(env, s, t, s');
    MovesRunning(env, s, t, s');
    MovesIds(env, s, t, s');
  }

  /** Every step of every call, and every invalidation and supersession, keeps the invariant. */
  lemma StepKeeps(env: Env, s: Sys, a: Action, s': Sys)
    requires Inv(env, s) && Step(env, s, a, s')
    ensures Inv(env, s')
  {
    match a
    case Call(_) => CallKeeps(env, s, a, s');
    case Probe(t) => ProbeKeeps(env, s, t);
    case Join(t) => JoinKeeps(env, s, t);
    case Wake(t) => WakeKeeps(env, s, t, s');
    case Build(t, bytes) => BuildKeeps(env, s, t, bytes, s');
    case Stamp(t) => StampKeeps(env, s, t, s');
    case Validate(t) => ValidateKeeps(env, s, t, s');
    case Abort(t, why) => EndKeeps(env, s, t, Failed(why));
    case Commit(t) => CommitKeeps(env, s, t);
    case Finish(t) => FinishKeeps(env, s, t);
    case Invalidate(target) =>
      InvalidatedKeeps(env, s.sh, target);
      OutsideKeeps(env, s, s');
    case Supersede(id, newGen) =>
      SupersededKeeps(env, s.sh, id, newGen);
      OutsideKeeps(env, s, s');
  }

  lemma CommitKeeps(env: Env, s: Sys, t: nat)
    requires Inv(env, s) && t < |s.threads| && s.threads[t].Committing? && s.threads[t].ref in s.sh.flights
    ensures Inv(env, AfterCommit(s, t))
  {
    if Outdated(s.sh, s.threads[t].ref) {
      EndKeeps(env, s, t, Failed(StaleGeneration));
    } else {
      InstallKeeps(env, s, t);
    }
  }

  lemma FinishKeeps(env: Env, s: Sys, t: nat)
    requires Inv(env, s) && t < |s.threads| && s.threads[t].Finishing? && s.threads[t].ref in s.sh.flights
    ensures Inv(env, AfterEnd(s, t, Success(s.threads[t].result)))
  {
    hide CacheOk, FlightsOk, OwnersDistinct, RunningOwned, IdsOk, Proper;
    assert ThreadOk(env, s.sh, s.threads[t]);
    EndKeeps(env, s, t, Success(s.threads[t].result));
  }
}
