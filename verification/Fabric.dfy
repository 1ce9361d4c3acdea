/** The shared state of src/Fabric.cpp and its lock regions.  Every region that
    runs under `regMutex_` is a function on a `Shared` value; the class at the
    end of the module performs the same regions on its fields. */
module Fabric {
  import opened Wire
  import opened Canonical
  import opened Key
  import opened Compatibility
  import Lifecycle
  import Req = Request

  type CacheKey = seq<Entry>

  datatype Artifact = Artifact(
    id: nat, generation: nat, contentDigest: Digest, attempt: nat, requestId: Id128,
    state: StateName, passed: bool, deployable: bool, reuseCount: nat)

  datatype CacheEntry = CacheEntry(
    key: CacheKey, art: Artifact, bytes: Bytes, baseCacheGen: nat, baseToolchainGen: nat)

  datatype Failure =
    NoBackend | Incompatible | InvalidSource | BuildFailed | ValidationError | ValidationFailed | StaleGeneration

  datatype Served = Served(requestId: Id128, key: CacheKey, art: Artifact, bytes: Bytes, reused: bool)

  datatype Reply = Success(result: Served) | Failed(why: Failure)

  /** An in-flight entry; `outcome` is set when the source sets `done`. */
  datatype Flight = Flight(key: CacheKey, baseCacheGen: nat, baseToolchainGen: nat, outcome: Option<Reply>)

  /** `flights` is the heap of shared entries, named by attempt id; `inflight`
      points each key to its latest one.  Counters are unbounded here. */
  datatype Shared = Shared(
    cache: map<CacheKey, CacheEntry>, inflight: map<CacheKey, nat>, flights: map<nat, Flight>,
    cacheGen: nat, toolchainGen: nat, counter: nat)

  const INITIAL := Shared(map[], map[], map[], 1, 1, 0)

  // ------------------------------------------------------------- regions

  /** The fast path serves this key. */
  ghost predicate Hit(sh: Shared, key: CacheKey, policy: Policy) {
    && key in sh.cache
    && Reusable(sh.cache[key].key, key, sh.cache[key].art.state, policy)
    && sh.cache[key].art.state == DEPLOYABLE
  }

  function Touched(sh: Shared, key: CacheKey): Shared
    requires key in sh.cache
  {
    var e := sh.cache[key];
    sh.(cache := sh.cache[key := e.(art := e.art.(reuseCount := e.art.reuseCount + 1))])
  }

  /** Another attempt for this key is still running. */
  predicate Joinable(sh: Shared, key: CacheKey) {
    && key in sh.inflight && sh.inflight[key] in sh.flights
    && sh.flights[sh.inflight[key]].outcome.None?
  }

  function Registered(sh: Shared, key: CacheKey): Shared {
    var ref := sh.counter + 1;
    sh.(counter := ref,
        flights := sh.flights[ref := Flight(key, sh.cacheGen, sh.toolchainGen, None)],
        inflight := sh.inflight[key := ref])
  }

  function Settled(sh: Shared, ref: nat, o: Reply): Shared
    requires ref in sh.flights
  {
    sh.(flights := sh.flights[ref := sh.flights[ref].(outcome := Some(o))])
  }

  predicate Outdated(sh: Shared, ref: nat)
    requires ref in sh.flights
  {
    sh.flights[ref].baseCacheGen != sh.cacheGen || sh.flights[ref].baseToolchainGen != sh.toolchainGen
  }

  function Installed(sh: Shared, key: CacheKey, art: Artifact, bytes: Bytes): Shared {
    sh.(cache := sh.cache[key := CacheEntry(key, art, bytes, sh.cacheGen, sh.toolchainGen)])
  }

  /** The five ways to invalidate. */
  datatype Target =
    | ByKey(key: CacheKey) | ById(id: nat) | ByOperation(op: Id128)
    | ByCompilerGeneration(gen: nat) | ByDependencyGeneration(gen: nat)

  predicate Matches(target: Target, k: CacheKey, e: CacheEntry) {
    match target
    case ByKey(key) => k == key
    case ById(id) => e.art.id == id
    case ByOperation(op) => OperationOf(e.key) == Some(op)
    case ByCompilerGeneration(gen) => e.baseToolchainGen <= gen
    case ByDependencyGeneration(gen) =>
      DependencyOf(e.key).Some? && DependencyOf(e.key).value <= gen
  }

  function OperationOf(key: CacheKey): Option<Id128> {
    match Lookup(key, Req.LOGICAL_OPERATION)
    case None => None
    case Some(v) => DecId(v)
  }

  function DependencyOf(key: CacheKey): Option<U64> {
    match Lookup(key, Req.DEPENDENCY_GENERATIONS)
    case None => None
    case Some(v) => DecU64(v)
  }

  function Killed(e: CacheEntry): CacheEntry {
    e.(art := e.art.(state := INVALIDATED, deployable := false, passed := false))
  }

  function Invalidated(sh: Shared, target: Target): Shared {
    sh.(cache := map k | k in sh.cache :: if Matches(target, k, sh.cache[k]) then Killed(sh.cache[k]) else sh.cache[k],
        cacheGen := sh.cacheGen + 1,
        toolchainGen := if target.ByCompilerGeneration? then sh.toolchainGen + 1 else sh.toolchainGen)
  }

  predicate Supersedable(e: CacheEntry, id: nat, newGen: nat) {
    e.art.id == id && e.art.generation < newGen
  }

  function Retired(e: CacheEntry): CacheEntry {
    e.(art := e.art.(state := SUPERSEDED, deployable := false))
  }

  /** `supersede` looks at neither the state nor the generations of the cache. */
  function Superseded(sh: Shared, id: nat, newGen: nat): Shared {
    sh.(cache := map k | k in sh.cache ::
          if Supersedable(sh.cache[k], id, newGen) then Retired(sh.cache[k]) else sh.cache[k])
  }

  /** `deploy` admits this entry. */
  predicate Admitted(e: CacheEntry, id: nat) {
    e.art.id == id && (e.art.state == DEPLOYABLE || e.art.state == Named(Lifecycle.Deployed))
  }

  /** No two entries share an id. */
  ghost predicate UniqueIds(sh: Shared) {
    forall k, k' :: k in sh.cache && k' in sh.cache && sh.cache[k].art.id == sh.cache[k'].art.id ==> k == k'
  }

  /** `recover` installs every valid persisted record under the current generations. */
  function Recovered(sh: Shared, records: seq<CacheEntry>): Shared
    decreases records
  {
    if records == [] then sh
    else Recovered(Installed(sh, records[0].key, records[0].art, records[0].bytes), records[1..])
  }

  // --------------------------------------------- what the regions get wrong

  /** Operation invalidation matches exactly the keys of that operation ... */
  lemma OperationInvalidationExact(r: Req.Request, p: Req.Plan, t: Req.Toolchain, op: Id128, e: CacheEntry)
    requires e.key == Req.KeyOf(r, p, t)
    ensures Matches(ByOperation(op), e.key, e) <==> r.logicalOperation == op
  {
    Req.KeyOfMeaning(r, p, t, Req.LOGICAL_OPERATION);
    DecIdOfEnc(r.logicalOperation);
  }

  /** ... but dependency invalidation matches no key a request can have: the
      key holds a counted list and the reader expects a single integer. */
  lemma DependencyInvalidationMatchesNothing(r: Req.Request, p: Req.Plan, t: Req.Toolchain, gen: nat, e: CacheEntry)
    requires e.key == Req.KeyOf(r, p, t)
    ensures !Matches(ByDependencyGeneration(gen), e.key, e)
  {
    hide DecU64, EncU64s, Req.KeyOf, Lookup;
    Req.KeyOfMeaning(r, p, t, Req.DEPENDENCY_GENERATIONS);
    ListNeverReadsAsU64(r.dependencyGenerations);
  }

  /** What one invalidation may do to an entry: nothing, or take it out of service
      and nothing else. */
  ghost predicate OnlyKilled(e: CacheEntry, e': CacheEntry, killed: bool) {
    && e' == e.(art := e'.art)
    && e'.art == if killed then e.art.(state := INVALIDATED, passed := false, deployable := false) else e.art
  }

  /** Exactly what invalidation by key, by id and by compiler generation does to
      each entry, to each hit and to the generations. */
  lemma InvalidationIsExact(sh: Shared, key: CacheKey, id: nat, gen: nat, k: CacheKey, policy: Policy)
    requires k in sh.cache
    ensures var sh' := Invalidated(sh, ByKey(key));
            && sh'.cache.Keys == sh.cache.Keys && OnlyKilled(sh.cache[k], sh'.cache[k], k == key)
            && (Hit(sh', k, policy) <==> Hit(sh, k, policy) && k != key)
            && sh'.cacheGen == sh.cacheGen + 1 && sh'.toolchainGen == sh.toolchainGen
    ensures var sh' := Invalidated(sh, ById(id));
            && sh'.cache.Keys == sh.cache.Keys && OnlyKilled(sh.cache[k], sh'.cache[k], sh.cache[k].art.id == id)
            && (Hit(sh', k, policy) <==> Hit(sh, k, policy) && sh.cache[k].art.id != id)
            && sh'.cacheGen == sh.cacheGen + 1 && sh'.toolchainGen == sh.toolchainGen
    ensures var sh' := Invalidated(sh, ByCompilerGeneration(gen));
            && sh'.cache.Keys == sh.cache.Keys && OnlyKilled(sh.cache[k], sh'.cache[k], sh.cache[k].baseToolchainGen <= gen)
            && (Hit(sh', k, policy) <==> Hit(sh, k, policy) && sh.cache[k].baseToolchainGen > gen)
            && sh'.cacheGen == sh.cacheGen + 1 && sh'.toolchainGen == sh.toolchainGen + 1
  {
    hide Reusable;
  }

  /** The same for the operation and the dependency generation of a key that a
      request has: the first kills exactly the operation's entries, the second none. */
  lemma RequestInvalidationIsExact(sh: Shared, r: Req.Request, p: Req.Plan, t: Req.Toolchain, op: Id128, gen: nat, policy: Policy)
    requires var k := Req.KeyOf(r, p, t); k in sh.cache && sh.cache[k].key == k
    ensures var k := Req.KeyOf(r, p, t); var sh' := Invalidated(sh, ByOperation(op));
            && k in sh'.cache && OnlyKilled(sh.cache[k], sh'.cache[k], r.logicalOperation == op)
            && (Hit(sh', k, policy) <==> Hit(sh, k, policy) && r.logicalOperation != op)
    ensures var k := Req.KeyOf(r, p, t); var sh' := Invalidated(sh, ByDependencyGeneration(gen));
            && k in sh'.cache && sh'.cache[k] == sh.cache[k] && sh'.cacheGen == sh.cacheGen + 1
            && (Hit(sh', k, policy) <==> Hit(sh, k, policy))
  {
    hide Reusable, Req.KeyOf, OperationOf, DependencyOf;
    var k := Req.KeyOf(r, p, t);
    OperationInvalidationExact(r, p, t, op, sh.cache[k]);
    DependencyInvalidationMatchesNothing(r, p, t, gen, sh.cache[k]);
  }

  /** Supersession retires exactly the entries with the id and an older generation. */
  lemma SupersessionIsExact(sh: Shared, id: nat, newGen: nat, k: CacheKey, policy: Policy)
    requires k in sh.cache
    ensures var e := sh.cache[k]; var sh' := Superseded(sh, id, newGen);
            && sh' == sh.(cache := sh'.cache) && sh'.cache.Keys == sh.cache.Keys
            && sh'.cache[k] == (if e.art.id == id && e.art.generation < newGen
                                then e.(art := e.art.(state := SUPERSEDED, deployable := false)) else e)
            && (Hit(sh', k, policy) <==> Hit(sh, k, policy) && !(e.art.id == id && e.art.generation < newGen))
  {
    hide Reusable;
  }

  /** `lookup` reports an entry as reusable unless its state is blocked.  After
      an invalidation a supersession lifts that block exactly when it applies to
      the entry; neither `compile` nor `deploy` serves it either way. */
  lemma SupersedeUndoesInvalidationForLookup(sh: Shared, key: CacheKey, id: nat, newGen: nat, policy: Policy)
    requires key in sh.cache && sh.cache[key].key == key && UniqueTags(key)
    ensures var dead := Invalidated(sh, ByKey(key));
            var sup := Superseded(dead, id, newGen);
            && !Reusable(key, key, dead.cache[key].art.state, policy)
            && (Reusable(key, key, sup.cache[key].art.state, policy)
                <==> sh.cache[key].art.id == id && sh.cache[key].art.generation < newGen)
            && !Hit(sup, key, policy) && !Admitted(sup.cache[key], sh.cache[key].art.id)
  {
    hide UniqueTags, Lookup, Diffs;
    KeyEqIffMap(key, key);
  }

  /** The last persisted record with this key. */
  function LastFor(records: seq<CacheEntry>, key: CacheKey): Option<CacheEntry> {
    if records == [] then None
    else if records[|records| - 1].key == key then Some(records[|records| - 1])
    else LastFor(records[..|records| - 1], key)
  }

  lemma {:induction false} RecoveredSnoc(sh: Shared, records: seq<CacheEntry>, r: CacheEntry)
    ensures Recovered(sh, records + [r]) == Installed(Recovered(sh, records), r.key, r.art, r.bytes)
    decreases records
  {
    hide Installed;
    if records == [] {
      assert records + [r] == [r] && [r][1..] == [];
      assert Recovered(sh, [r]) == Recovered(Installed(sh, r.key, r.art, r.bytes), []);
    } else {
      assert (records + [r])[1..] == records[1..] + [r];
      RecoveredSnoc(Installed(sh, records[0].key, records[0].art, records[0].bytes), records[1..], r);
    }
  }

  /** What recovery leaves behind, for every list of records: under each key the
      last record with it or what was there before, and nothing else changed. */
  lemma {:induction false} RecoveredState(sh: Shared, records: seq<CacheEntry>, key: CacheKey)
    ensures var sh' := Recovered(sh, records);
            && sh' == sh.(cache := sh'.cache)
            && match LastFor(records, key)
               case Some(r) => key in sh'.cache && sh'.cache[key] == CacheEntry(key, r.art, r.bytes, sh.cacheGen, sh.toolchainGen)
               case None => (key in sh'.cache <==> key in sh.cache) && (key in sh.cache ==> sh'.cache[key] == sh.cache[key])
  {
    hide Recovered;
    if records == [] {
      assert Recovered(sh, records) == sh by { RecoveredNothing(sh); }
    } else {
      var init, last := records[..|records| - 1], records[|records| - 1];
      assert records == init + [last];
      RecoveredSnoc(sh, init, last);
      RecoveredState(sh, init, key);
    }
  }

  lemma RecoveredNothing(sh: Shared)
    ensures Recovered(sh, []) == sh
  {
  }

  /** Exactly when a key is a hit after recovery: the last record with it is
      Deployable and reusable, or no record has it and it was a hit before. */
  lemma HitAfterRecovery(sh: Shared, records: seq<CacheEntry>, key: CacheKey, policy: Policy)
    ensures Hit(Recovered(sh, records), key, policy)
       <==> match LastFor(records, key)
            case Some(r) => r.art.state == DEPLOYABLE && Reusable(key, key, DEPLOYABLE, policy)
            case None => Hit(sh, key, policy)
  {
    hide Reusable, Recovered, LastFor;
    RecoveredState(sh, records, key);
  }

  /** Invalidation is not persisted: an invalidated key is a hit again after
      recovery exactly when the last record stored for it was Deployable, and
      then it serves that record's artifact. */
  lemma RecoverRevivesInvalidated(sh: Shared, records: seq<CacheEntry>, key: CacheKey, policy: Policy)
    requires UniqueTags(key)
    ensures var dead := Invalidated(sh, ByKey(key));
            var back := Recovered(dead, records);
            var last := LastFor(records, key);
            && !Hit(dead, key, policy)
            && (Hit(back, key, policy) <==> last.Some? && last.value.art.state == DEPLOYABLE)
            && (last.Some? ==> key in back.cache && back.cache[key].art == last.value.art && back.cache[key].bytes == last.value.bytes)
  {
    SelfReusable(key, policy);
    hide UniqueTags, Reusable, Recovered, LastFor;
    var dead := Invalidated(sh, ByKey(key));
    HitAfterRecovery(dead, records, key, policy);
    RecoveredState(dead, records, key);
  }

  lemma SelfReusable(key: CacheKey, policy: Policy)
    requires UniqueTags(key)
    ensures Reusable(key, key, DEPLOYABLE, policy)
  {
    KeyEqIffMap(key, key);
  }

  // ------------------------------------------------------------- the class

  class Fabric {
    var cache: map<CacheKey, CacheEntry>
    var inflight: map<CacheKey, nat>
    var flights: map<nat, Flight>
    var cacheGen: nat
    var toolchainGen: nat
    var counter: nat
    const policy: Policy

    ghost function View(): Shared
      reads this
    {
      Shared(cache, inflight, flights, cacheGen, toolchainGen, counter)
    }

    constructor (policy: Policy)
      ensures View() == INITIAL && this.policy == policy
    {
      cache, inflight, flights := map[], map[], map[];
      cacheGen, toolchainGen, counter := 1, 1, 0;
      this.policy := policy;
    }

    /** The fast path of `compile`. */
    method Probe(requestId: Id128, key: CacheKey) returns (r: Option<Served>)
      requires UniqueTags(key) && (key in cache ==> UniqueTags(cache[key].key))
      modifies this`cache
      ensures r.Some? <==> old(Hit(View(), key, policy))
      ensures r.Some? ==> View() == Touched(old(View()), key) && r.value == Served(requestId, key, cache[key].art, cache[key].bytes, true)
      ensures r.Some? ==> r.value.art == old(cache[key].art).(reuseCount := old(cache[key].art.reuseCount) + 1)
      ensures r.None? ==> View() == old(View())
    {
      hide UniqueTags, Diffs, KeyEq, Reusable, OutcomeOf;
      if key !in cache { return None; }
      var e := cache[key];
      var dec := Decide(e.key, key, e.art.state, policy);
      if dec.reusable && e.art.state == DEPLOYABLE {
        var art := e.art.(reuseCount := e.art.reuseCount + 1);
        cache := cache[key := e.(art := art)];
        return Some(Served(requestId, key, art, e.bytes, true));
      }
      return None;
    }

    /** Join the running attempt for this key, or register a new one. */
    method JoinOrRegister(key: CacheKey) returns (joined: bool, ref: nat)
      modifies this
      ensures joined <==> old(Joinable(View(), key))
      ensures joined ==> ref == old(inflight[key]) && View() == old(View())
      ensures !joined ==> ref == counter && View() == Registered(old(View()), key)
    {
      if key in inflight && inflight[key] in flights && flights[inflight[key]].outcome.None? {
        return true, inflight[key];
      }
      counter := counter + 1;
      flights := flights[counter := Flight(key, cacheGen, toolchainGen, None)];
      inflight := inflight[key := counter];
      return false, counter;
    }

    method Settle(ref: nat, o: Reply)
      requires ref in flights
      modifies this`flights
      ensures View() == Settled(old(View()), ref, o)
    {
      flights := flights[ref := flights[ref].(outcome := Some(o))];
    }

    method DrawId() returns (id: nat)
      modifies this`counter
      ensures View() == old(View()).(counter := id) && id == old(counter) + 1
    {
      counter := counter + 1;
      id := counter;
    }

    /** The commit region: reject a stale attempt, otherwise publish. */
    method Commit(ref: nat, key: CacheKey, art: Artifact, bytes: Bytes) returns (ok: bool)
      requires ref in flights
      modifies this`flights, this`cache
      ensures ok <==> !old(Outdated(View(), ref))
      ensures ok <==> old(flights[ref].baseCacheGen == cacheGen && flights[ref].baseToolchainGen == toolchainGen)
      ensures ok ==> View() == Installed(old(View()), key, art, bytes)
      ensures !ok ==> View() == Settled(old(View()), ref, Failed(StaleGeneration))
    {
      if flights[ref].baseCacheGen != cacheGen || flights[ref].baseToolchainGen != toolchainGen {
        Settle(ref, Failed(StaleGeneration));
        return false;
      }
      cache := cache[key := CacheEntry(key, art, bytes, cacheGen, toolchainGen)];
      return true;
    }

    /** `compile` from the cache probe on, for a call that nothing interleaves
        with: `built` is what the backend emitted, `passed` its validation verdict.
        There is no reply while another attempt for the key is running; the call
        then waits.  Under interleaving the regions are the steps of FabricRuns. */
    method Compile(requestId: Id128, key: CacheKey, built: Option<Bytes>, passed: bool, hash: Bytes -> Digest)
      returns (r: Option<Reply>)
      requires UniqueTags(key) && (key in cache ==> UniqueTags(cache[key].key))
      modifies this
      ensures r.None? <==> !old(Hit(View(), key, policy)) && old(Joinable(View(), key))
      ensures r.None? ==> View() == old(View())
      ensures r.Some? && r.value.Success? && r.value.result.reused <==> old(Hit(View(), key, policy))
      ensures old(Hit(View(), key, policy)) ==> View() == Touched(old(View()), key) && r.value.result.bytes == cache[key].bytes
      ensures r.Some? && r.value.Success? && !r.value.result.reused ==>
        && built == Some(r.value.result.bytes) && passed && Hit(View(), key, policy)
        && cache[key].art == r.value.result.art && !Joinable(View(), key)
      ensures r.Some? && r.value.Failed? ==> cache == old(cache) && !Joinable(View(), key)
      ensures r.Some? && r.value.Failed? <==>
        !old(Hit(View(), key, policy)) && !old(Joinable(View(), key)) && (built.None? || built == Some([]) || !passed)
    {
      SelfReusable(key, policy);
      hide UniqueTags, Reusable;
      var hit := Probe(requestId, key);
      if hit.Some? { return Some(Success(hit.value)); }
      var joined, ref := JoinOrRegister(key);
      if joined { return None; }
      if built.None? || built.value == [] {
        Settle(ref, Failed(BuildFailed));
        return Some(Failed(BuildFailed));
      }
      var id := DrawId();
      var art := Artifact(id, counter, hash(built.value), ref, requestId, DEPLOYABLE, true, true, 0);
      if !passed {
        Settle(ref, Failed(ValidationFailed));
        return Some(Failed(ValidationFailed));
      }
      var ok := Commit(ref, key, art, built.value);
      assert ok;
      var reply := Success(Served(requestId, key, art, built.value, false));
      Settle(ref, reply);
      r := Some(reply);
    }

    /** The locked part of `recover`, given the valid records of the store. */
    method Recover(records: seq<CacheEntry>)
      modifies this`cache
      ensures View() == Recovered(old(View()), records)
    {
      hide Recovered, Installed;
      ghost var start := View();
      RecoveredNothing(start);
      for i := 0 to |records|
        invariant View() == Recovered(start, records[..i])
      {
        var r := records[i];
        assert records[..i + 1] == records[..i] + [r];
        RecoveredSnoc(start, records[..i], r);
        Put(r);
      }
      assert records[..|records|] == records;
    }

    method Put(r: CacheEntry)
      modifies this`cache
      ensures View() == Installed(old(View()), r.key, r.art, r.bytes)
    {
      cache := cache[r.key := CacheEntry(r.key, r.art, r.bytes, cacheGen, toolchainGen)];
    }

    /** One loop serves the scans of the invalidation family. */
    method Invalidate(target: Target)
      modifies this
      ensures View() == Invalidated(old(View()), target)
    {
      hide Matches, Killed;
      var todo := cache.Keys;
      ghost var start := cache;
      while todo != {}
        invariant todo <= cache.Keys == start.Keys
        invariant inflight == old(inflight) && flights == old(flights)
        invariant cacheGen == old(cacheGen) && toolchainGen == old(toolchainGen) && counter == old(counter)
        invariant forall k :: k in start ==>
          cache[k] == if k !in todo && Matches(target, k, start[k]) then Killed(start[k]) else start[k]
      {
        var k :| k in todo;
        if Matches(target, k, cache[k]) {
          cache := cache[k := Killed(cache[k])];
        }
        todo := todo - {k};
      }
      if target.ByCompilerGeneration? { toolchainGen := toolchainGen + 1; }
      cacheGen := cacheGen + 1;
      assert cache == Invalidated(old(View()), target).cache;
    }

    method Supersede(id: nat, newGen: nat)
      modifies this`cache
      ensures View() == Superseded(old(View()), id, newGen)
    {
      var todo := cache.Keys;
      ghost var start := cache;
      while todo != {}
        invariant todo <= cache.Keys == start.Keys
        invariant forall k :: k in start ==>
          cache[k] == if k !in todo && Supersedable(start[k], id, newGen) then Retired(start[k]) else start[k]
      {
        hide Supersedable, Retired;
        var k :| k in todo;
        if Supersedable(cache[k], id, newGen) {
          cache := cache[k := Retired(cache[k])];
        }
        todo := todo - {k};
      }
      assert cache == Superseded(old(View()), id, newGen).cache;
    }

    /** The locked part of `deploy`: the first entry with this id decides.  Where
        ids are unique, as in every reachable state, an entry is returned exactly
        if the one with this id is admitted. */
    method Deploy(id: nat) returns (r: Option<CacheEntry>)
      ensures r.Some? ==> exists k :: k in cache && cache[k] == r.value && Admitted(r.value, id)
      ensures r.Some? ==> r.value.art.id == id && (r.value.art.state == DEPLOYABLE || r.value.art.state == Named(Lifecycle.Deployed))
      ensures r.None? ==> forall k :: k in cache && Admitted(cache[k], id) ==>
        exists k' :: k' in cache && k' != k && cache[k'].art.id == id && !Admitted(cache[k'], id)
      ensures UniqueIds(View()) ==>
        (r.Some? <==> exists k :: && k in cache && cache[k].art.id == id
                                  && (cache[k].art.state == DEPLOYABLE || cache[k].art.state == Named(Lifecycle.Deployed)))
      ensures UniqueIds(View()) ==> forall k :: k in cache && Admitted(cache[k], id) ==> r == Some(cache[k])
    {
      var todo := cache.Keys;
      while todo != {}
        invariant todo <= cache.Keys
        invariant forall k :: k in cache && k !in todo ==> cache[k].art.id != id
      {
        var k :| k in todo;
        if cache[k].art.id == id {
          var e := cache[k];
          if e.art.state != DEPLOYABLE && e.art.state != Named(Lifecycle.Deployed) { return None; }
          return Some(e);
        }
        todo := todo - {k};
      }
      return None;
    }
  }
}
