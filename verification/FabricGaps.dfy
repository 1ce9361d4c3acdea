/** Concrete runs that mark the limits of the compile protocol. */
module FabricGaps {
  import opened Wire
  import opened Canonical
  import opened Compatibility
  import opened Fabric
  import opened FabricRuns
  import opened FabricTheorems
  import T = Traces
  import Req = Request

  lemma ExtendValid(env: Env, tr: Trace, a: Action, s: Sys)
    requires tr.states != [] && Valid(env, tr) && Step(env, T.Last(tr), a, s)
    ensures T.Extend(tr, a, s).states != []
    ensures Valid(env, T.Extend(tr, a, s)) && T.Last(T.Extend(tr, a, s)) == s
  {
    hide Step;
    T.ExtendLinked((x: Sys, b: Action, y: Sys) => Step(env, x, b, y), tr, a, s);
  }

  /** Two requests with one key, and bytes the backend makes and accepts for it. */
  ghost predicate Setting(env: Env, r: Req.Request, q: Req.Request, key: CacheKey, b: Bytes) {
    && env.keyOf(r) == Some(key) && env.keyOf(q) == Some(key)
    && b != [] && env.makes(r, b) && env.makes(q, b) && env.validates(key, b)
  }

  function Flying(key: CacheKey, counter: nat): Shared {
    Shared(map[], map[key := 1], map[1 := Flight(key, 1, 1, None)], 1, 1, counter)
  }

  function ArtifactOf(env: Env, r: Req.Request, b: Bytes): Artifact {
    Artifact(2, 2, env.hash(b), 1, r.requestId, DEPLOYABLE, true, true, 0)
  }

  function ResultOf(env: Env, r: Req.Request, key: CacheKey, b: Bytes): Served {
    Served(r.requestId, key, ArtifactOf(env, r, b), b, false)
  }

  /** Both calls miss the cache, and the first registers. */
  lemma BothMiss(env: Env, r: Req.Request, q: Req.Request, key: CacheKey, b: Bytes) returns (tr: Trace)
    requires Setting(env, r, q, key, b)
    ensures tr.states != [] && Valid(env, tr) && T.Last(tr) == Sys(Flying(key, 1), [Building(r, key, 1), Joining(q, key)])
  {
    hide Reusable;
    tr := T.Trace([Sys(INITIAL, [])], []);
    assert Valid(env, tr);
    hide Valid, T.Extend;
    var s := Sys(INITIAL, [Probing(r, key)]);
    ExtendValid(env, tr, Call(r), s);
    tr := T.Extend(tr, Call(r), s);
    s := Sys(INITIAL, [Probing(r, key), Probing(q, key)]);
    ExtendValid(env, tr, Call(q), s);
    tr := T.Extend(tr, Call(q), s);
    s := Sys(INITIAL, [Joining(r, key), Probing(q, key)]);
    ExtendValid(env, tr, Probe(0), s);
    tr := T.Extend(tr, Probe(0), s);
    s := Sys(INITIAL, [Joining(r, key), Joining(q, key)]);
    ExtendValid(env, tr, Probe(1), s);
    tr := T.Extend(tr, Probe(1), s);
    s := Sys(Flying(key, 1), [Building(r, key, 1), Joining(q, key)]);
    ExtendValid(env, tr, Join(0), s);
    tr := T.Extend(tr, Join(0), s);
  }

  /** The first call commits; the second still stands before the join region. */
  lemma FirstCommits(env: Env, r: Req.Request, q: Req.Request, key: CacheKey, b: Bytes) returns (tr: Trace)
    requires Setting(env, r, q, key, b)
    ensures tr.states != [] && Valid(env, tr)
    ensures T.Last(tr) == Sys(Installed(Flying(key, 2), key, ArtifactOf(env, r, b), b),
                            [Finishing(r, key, 1, ResultOf(env, r, key, b)), Joining(q, key)])
  {
    hide Reusable, Valid, T.Extend;
    tr := BothMiss(env, r, q, key, b);
    var s := Sys(Flying(key, 2), [Stamping(r, key, 1, 2, b), Joining(q, key)]);
    ExtendValid(env, tr, Build(0, b), s);
    tr := T.Extend(tr, Build(0, b), s);
    s := Sys(Flying(key, 2), [Validating(r, key, 1, 2, 2, b), Joining(q, key)]);
    ExtendValid(env, tr, Stamp(0), s);
    tr := T.Extend(tr, Stamp(0), s);
    s := Sys(Flying(key, 2), [Committing(r, key, 1, ArtifactOf(env, r, b), b), Joining(q, key)]);
    ExtendValid(env, tr, Validate(0), s);
    tr := T.Extend(tr, Validate(0), s);
    s := Sys(Installed(Flying(key, 2), key, ArtifactOf(env, r, b), b),
             [Finishing(r, key, 1, ResultOf(env, r, key, b)), Joining(q, key)]);
    ExtendValid(env, tr, Commit(0), s);
    tr := T.Extend(tr, Commit(0), s);
  }

  /** The waiter gap: a waiter that joins between commit and done receives an
      artifact as deployable although it is already invalidated in the cache.
      It also receives the owner's request id, not its own.
      `FabricTheorems.WaiterIsExact` says exactly when this happens. */
  lemma WaiterGap(env: Env, r: Req.Request, q: Req.Request, key: CacheKey, b: Bytes) returns (tr: Trace)
    requires Setting(env, r, q, key, b)
    ensures tr.states != [] && Valid(env, tr)
    ensures var s := T.Last(tr);
            && |s.threads| == 2 && s.threads[1].Returned? && s.threads[1].r == q
            && s.threads[1].outcome.Success?
            && var res := s.threads[1].outcome.result;
            && res.art.state == DEPLOYABLE && res.art.deployable
            && key in s.sh.cache && s.sh.cache[key].art.id == res.art.id
            && s.sh.cache[key].art.state == INVALIDATED
            && res.requestId == r.requestId
  {
    hide Reusable, Valid, T.Extend;
    tr := FirstCommits(env, r, q, key, b);
    var sh := Installed(Flying(key, 2), key, ArtifactOf(env, r, b), b);
    var res := ResultOf(env, r, key, b);
    var s := Sys(sh, [Finishing(r, key, 1, res), Waiting(q, key, 1)]);
    ExtendValid(env, tr, Join(1), s);
    tr := T.Extend(tr, Join(1), s);
    s := Sys(Invalidated(sh, ByKey(key)), s.threads);
    ExtendValid(env, tr, Invalidate(ByKey(key)), s);
    tr := T.Extend(tr, Invalidate(ByKey(key)), s);
    var done := Settled(s.sh, 1, Success(res));
    s := Sys(done, [Returned(r, key, FromFlight(1), Success(res)), Waiting(q, key, 1)]);
    ExtendValid(env, tr, Finish(0), s);
    tr := T.Extend(tr, Finish(0), s);
    s := Sys(done, [s.threads[0], Returned(q, key, FromFlight(1), Success(res))]);
    ExtendValid(env, tr, Wake(1), s);
    tr := T.Extend(tr, Wake(1), s);
  }

  /** The gap stays open after done: an invalidation between the owner's notification
      and the moment the waiter has the lock again is missed as well.
      `FabricTheorems.WaiterIsExact` covers both. */
  lemma WaiterGapAfterDone(env: Env, r: Req.Request, q: Req.Request, key: CacheKey, b: Bytes) returns (tr: Trace)
    requires Setting(env, r, q, key, b)
    ensures tr.states != [] && Valid(env, tr)
    ensures var s := T.Last(tr);
            && |s.threads| == 2 && s.threads[0].Returned? && s.threads[1].Returned? && s.threads[1].r == q
            && s.threads[1].outcome.Success?
            && var res := s.threads[1].outcome.result;
            && res.art.state == DEPLOYABLE && res.art.deployable
            && key in s.sh.cache && s.sh.cache[key].art.id == res.art.id
            && s.sh.cache[key].art.state == INVALIDATED
  {
    hide Reusable, Valid, T.Extend;
    tr := FirstCommits(env, r, q, key, b);
    var sh := Installed(Flying(key, 2), key, ArtifactOf(env, r, b), b);
    var res := ResultOf(env, r, key, b);
    var s := Sys(sh, [Finishing(r, key, 1, res), Waiting(q, key, 1)]);
    ExtendValid(env, tr, Join(1), s);
    tr := T.Extend(tr, Join(1), s);
    s := Sys(Settled(sh, 1, Success(res)), [Returned(r, key, FromFlight(1), Success(res)), Waiting(q, key, 1)]);
    ExtendValid(env, tr, Finish(0), s);
    tr := T.Extend(tr, Finish(0), s);
    var dead := Invalidated(s.sh, ByKey(key));
    s := Sys(dead, s.threads);
    ExtendValid(env, tr, Invalidate(ByKey(key)), s);
    tr := T.Extend(tr, Invalidate(ByKey(key)), s);
    s := Sys(dead, [s.threads[0], Returned(q, key, FromFlight(1), Success(res))]);
    ExtendValid(env, tr, Wake(1), s);
    tr := T.Extend(tr, Wake(1), s);
  }

  /** Single flight is per flight, not per key: a call that missed the cache
      before the commit and joins after done compiles the key a second time,
      although the cache would serve it.  `FabricTheorems.DuplicateIsExact` says
      exactly when that happens; this is one such run. */
  lemma DuplicateCompile(env: Env, r: Req.Request, q: Req.Request, key: CacheKey, b: Bytes) returns (tr: Trace)
    requires Setting(env, r, q, key, b) && UniqueTags(key)
    ensures tr.states != [] && Valid(env, tr)
    ensures var s := T.Last(tr);
            && |s.threads| == 2 && Hit(s.sh, key, env.policy)
            && s.threads[0].Returned? && s.threads[0].outcome.Success?
            && s.threads[1].Building? && s.threads[1].key == key
  {
    hide Reusable, Valid, T.Extend;
    tr := FirstCommits(env, r, q, key, b);
    var sh := Installed(Flying(key, 2), key, ArtifactOf(env, r, b), b);
    var res := ResultOf(env, r, key, b);
    var done := Settled(sh, 1, Success(res));
    var s := Sys(done, [Returned(r, key, FromFlight(1), Success(res)), Joining(q, key)]);
    ExtendValid(env, tr, Finish(0), s);
    tr := T.Extend(tr, Finish(0), s);
    s := Sys(Registered(done, key), [s.threads[0], Building(q, key, 3)]);
    ExtendValid(env, tr, Join(1), s);
    tr := T.Extend(tr, Join(1), s);
    SelfReusable(key, env.policy);
  }
}
