/** Runs after a restart: the cache is recovered from disk, the id counter begins
    at zero again. */
module FabricRestart {
  import opened Wire
  import opened Compatibility
  import opened Fabric
  import opened FabricRuns
  import opened FabricTheorems
  import Req = Request
  import T = Traces

  ghost predicate RestartRun(env: Env, records: seq<CacheEntry>, tr: Trace) {
    && |tr.states| == |tr.acts| + 1
    && tr.states[0] == Sys(Recovered(INITIAL, records), [])
    && forall i :: 0 <= i < |tr.acts| ==> Step(env, tr.states[i], tr.acts[i], tr.states[i + 1])
  }

  lemma ExtendRestart(env: Env, records: seq<CacheEntry>, tr: Trace, a: Action, s: Sys)
    requires tr.states != [] && RestartRun(env, records, tr) && Step(env, T.Last(tr), a, s)
    ensures T.Extend(tr, a, s).states != []
    ensures RestartRun(env, records, T.Extend(tr, a, s)) && T.Last(T.Extend(tr, a, s)) == s
  {
    hide Step, Recovered;
    T.ExtendLinked((x: Sys, b: Action, y: Sys) => Step(env, x, b, y), tr, a, s);
  }

  // ------------------------------------------------------- the ids of a run

  /** Attempts count from 1, artifacts from 2. */
  ghost predicate Bounds(s: Sys) {
    forall t :: 0 <= t < |s.threads| ==> ThreadBounds(s.sh.counter, s.threads[t])
  }

  predicate ThreadBounds(counter: nat, th: Thread) {
    && (IsOwner(th) ==> 1 <= th.ref <= counter)
    && (Pending(th) ==> 2 <= PendingId(th) <= counter)
  }

  lemma BoundsStep(env: Env, s: Sys, a: Action, s': Sys)
    requires Bounds(s) && Step(env, s, a, s')
    ensures Bounds(s')
  {
    StepCache(env, s, a, s');
    forall t | 0 <= t < |s'.threads| ensures ThreadBounds(s'.sh.counter, s'.threads[t]) {
      ThreadBoundsStep(env, s, a, s', t);
    }
  }

  lemma ThreadBoundsStep(env: Env, s: Sys, a: Action, s': Sys, t: nat)
    requires Bounds(s) && Step(env, s, a, s') && t < |s'.threads| && s.sh.counter <= s'.sh.counter
    ensures ThreadBounds(s'.sh.counter, s'.threads[t])
  {
    hide Hit, Settled, Installed, Touched, Invalidated, Superseded;
    if t < |s.threads| {
      assert ThreadBounds(s.sh.counter, s.threads[t]);
    }
  }

  /** An entry under a key that was not recovered has an id of this run. */
  ghost predicate NewEntries(records: seq<CacheEntry>, s: Sys) {
    forall k :: k in s.sh.cache && LastFor(records, k).None? ==> 2 <= s.sh.cache[k].art.id <= s.sh.counter
  }

  lemma NewEntriesStep(env: Env, records: seq<CacheEntry>, s: Sys, a: Action, s': Sys)
    requires Bounds(s) && NewEntries(records, s) && Step(env, s, a, s')
    ensures NewEntries(records, s')
  {
    StepCache(env, s, a, s');
    hide Step, LastFor, EntryStateOk;
    if Actor(a).Some? && Actor(a).value < |s.threads| {
      assert ThreadBounds(s.sh.counter, s.threads[Actor(a).value]);
    }
  }

  lemma {:induction false} RestartBounds(env: Env, records: seq<CacheEntry>, tr: Trace, i: nat)
    requires RestartRun(env, records, tr) && i < |tr.states|
    ensures Bounds(tr.states[i]) && NewEntries(records, tr.states[i])
  {
    if i == 0 {
      hide Recovered, LastFor;
      forall k | k in tr.states[0].sh.cache ensures LastFor(records, k).Some? {
        RecoveredState(INITIAL, records, k);
      }
    } else {
      hide Step, Bounds, NewEntries, Recovered;
      RestartBounds(env, records, tr, i - 1);
      assert Step(env, tr.states[i - 1], tr.acts[i - 1], tr.states[i]);
      BoundsStep(env, tr.states[i - 1], tr.acts[i - 1], tr.states[i]);
      NewEntriesStep(env, records, tr.states[i - 1], tr.acts[i - 1], tr.states[i]);
    }
  }

  /** Every artifact published after a restart has an id between 2 and the counter. */
  lemma PublishedIdsInRange(env: Env, records: seq<CacheEntry>, tr: Trace, i: nat, key: CacheKey)
    requires RestartRun(env, records, tr) && i < |tr.acts| && Publishes(tr.states[i], tr.acts[i], key)
    ensures 2 <= tr.states[i].threads[tr.acts[i].t].art.id <= tr.states[i].sh.counter
  {
    hide Step, Recovered, NewEntries;
    RestartBounds(env, records, tr, i);
    assert ThreadBounds(tr.states[i].sh.counter, tr.states[i].threads[tr.acts[i].t]);
  }

  // --------------------------------------------------- reaching any id

  /** A request whose key was not recovered and can be compiled. */
  ghost predicate Compilable(env: Env, records: seq<CacheEntry>, r: Req.Request, key: CacheKey, b: Bytes) {
    && env.keyOf(r) == Some(key) && LastFor(records, key).None?
    && b != [] && env.makes(r, b) && env.validates(key, b)
  }

  /** Nothing is running for the key, nothing was published, and `n` ids are drawn. */
  ghost predicate Quiet(records: seq<CacheEntry>, key: CacheKey, n: nat, s: Sys) {
    && s.sh.counter == n && s.sh.cacheGen == 1 && s.sh.toolchainGen == 1
    && s.sh.cache == Recovered(INITIAL, records).cache && key !in s.sh.cache && !Joinable(s.sh, key)
  }

  lemma RestartState(records: seq<CacheEntry>, key: CacheKey)
    requires LastFor(records, key).None?
    ensures Quiet(records, key, 0, Sys(Recovered(INITIAL, records), []))
  {
    hide Recovered, LastFor;
    RecoveredState(INITIAL, records, key);
  }

  /** A call is made, misses and registers. */
  lemma Registers(env: Env, records: seq<CacheEntry>, r: Req.Request, key: CacheKey, n: nat, tr0: Trace) returns (tr: Trace, t: nat)
    requires tr0.states != [] && RestartRun(env, records, tr0) && Quiet(records, key, n, T.Last(tr0)) && env.keyOf(r) == Some(key)
    ensures tr.states != [] && RestartRun(env, records, tr)
    ensures var s := T.Last(tr);
            && t < |s.threads| && s.threads[t] == Building(r, key, n + 1)
            && s.sh == Registered(T.Last(tr0).sh, key)
  {
    hide Recovered, RestartRun, T.Extend, Reusable;
    tr := tr0;
    var s := T.Last(tr);
    t := |s.threads|;
    var ths := s.threads;
    var s1 := Sys(s.sh, ths + [Probing(r, key)]);
    ExtendRestart(env, records, tr, Call(r), s1);
    tr := T.Extend(tr, Call(r), s1);
    var s2 := Sys(s.sh, s1.threads[t := Joining(r, key)]);
    ExtendRestart(env, records, tr, Probe(t), s2);
    tr := T.Extend(tr, Probe(t), s2);
    var s3 := Sys(Registered(s.sh, key), s2.threads[t := Building(r, key, n + 1)]);
    ExtendRestart(env, records, tr, Join(t), s3);
    tr := T.Extend(tr, Join(t), s3);
  }

  /** Failing attempts draw any number of ids. */
  lemma {:induction false} FailingAttempts(env: Env, records: seq<CacheEntry>, r: Req.Request, key: CacheKey, n: nat)
    returns (tr: Trace)
    requires LastFor(records, key).None? && env.keyOf(r) == Some(key)
    ensures tr.states != [] && RestartRun(env, records, tr) && Quiet(records, key, n, T.Last(tr))
  {
    hide Recovered, LastFor, T.Extend;
    if n == 0 {
      tr := T.Trace([Sys(Recovered(INITIAL, records), [])], []);
      RestartState(records, key);
    } else {
      tr := FailingAttempts(env, records, r, key, n - 1);
      hide RestartRun;
      var t;
      tr, t := Registers(env, records, r, key, n - 1, tr);
      var s := T.Last(tr);
      var s' := AfterEnd(s, t, Failed(BuildFailed));
      ExtendRestart(env, records, tr, Abort(t, BuildFailed), s');
      tr := T.Extend(tr, Abort(t, BuildFailed), s');
    }
  }

  /** The attempt after them emits bytes under the next artifact id ... */
  lemma BuildsNext(env: Env, records: seq<CacheEntry>, r: Req.Request, key: CacheKey, b: Bytes, n: nat) returns (tr: Trace, t: nat)
    requires Compilable(env, records, r, key, b)
    ensures tr.states != [] && RestartRun(env, records, tr)
    ensures var s := T.Last(tr);
            && t < |s.threads| && s.threads[t] == Validating(r, key, n + 1, n + 2, n + 2, b)
            && s.sh.cache == Recovered(INITIAL, records).cache
            && n + 1 in s.sh.flights && !Outdated(s.sh, n + 1)
  {
    hide Recovered, LastFor, T.Extend, RestartRun;
    tr := FailingAttempts(env, records, r, key, n);
    tr, t := Registers(env, records, r, key, n, tr);
    var s := T.Last(tr);
    var sh := s.sh.(counter := n + 2);
    var s1 := Move(s, t, sh, Stamping(r, key, n + 1, n + 2, b));
    ExtendRestart(env, records, tr, Build(t, b), s1);
    tr := T.Extend(tr, Build(t, b), s1);
    var s2 := Move(s1, t, sh, Validating(r, key, n + 1, n + 2, n + 2, b));
    ExtendRestart(env, records, tr, Stamp(t), s2);
    tr := T.Extend(tr, Stamp(t), s2);
  }

  /** ... and publishes it. */
  lemma PublishesNext(env: Env, records: seq<CacheEntry>, r: Req.Request, key: CacheKey, b: Bytes, n: nat) returns (tr: Trace)
    requires Compilable(env, records, r, key, b)
    ensures tr.states != [] && RestartRun(env, records, tr)
    ensures var s := T.Last(tr);
            key in s.sh.cache && s.sh.cache[key].art.id == n + 2
            && s.sh.cache == Recovered(INITIAL, records).cache[key := s.sh.cache[key]]
  {
    hide Recovered, LastFor, T.Extend, RestartRun;
    var t;
    tr, t := BuildsNext(env, records, r, key, b, n);
    var s := T.Last(tr);
    var s1 := Move(s, t, s.sh, Committing(r, key, n + 1, Fresh(env, s.threads[t]), b));
    ExtendRestart(env, records, tr, Validate(t), s1);
    tr := T.Extend(tr, Validate(t), s1);
    ExtendRestart(env, records, tr, Commit(t), AfterCommit(s1, t));
    tr := T.Extend(tr, Commit(t), AfterCommit(s1, t));
  }

  /** Two entries, one recovered and one new, share the id. */
  predicate SharesId(s: Sys, known: CacheKey, key: CacheKey, d: nat) {
    && known in s.sh.cache && key in s.sh.cache && known != key
    && s.sh.cache[known].art.id == d && s.sh.cache[key].art.id == d
  }

  /** Exactly which ids of recovered artifacts are given out again: for every
      recovered artifact and every key that was not recovered and can be compiled,
      some run ends with the two sharing an id if and only if that id is at least
      2.  Ids are then no longer unique, and `deploy` by id is ambiguous. */
  lemma RestartReusesIds(env: Env, records: seq<CacheEntry>, known: CacheKey, r: Req.Request, key: CacheKey, b: Bytes, d: nat)
    requires LastFor(records, known).Some? && LastFor(records, known).value.art.id == d
    requires Compilable(env, records, r, key, b)
    ensures (exists tr: Trace :: tr.states != [] && RestartRun(env, records, tr) && SharesId(T.Last(tr), known, key, d)) <==> d >= 2
  {
    hide Recovered, LastFor, RestartRun;
    if exists tr: Trace :: tr.states != [] && RestartRun(env, records, tr) && SharesId(T.Last(tr), known, key, d) {
      var tr: Trace :| tr.states != [] && RestartRun(env, records, tr) && SharesId(T.Last(tr), known, key, d);
      RestartBounds(env, records, tr, |tr.states| - 1);
    }
    if d >= 2 {
      var tr := PublishesNext(env, records, r, key, b, d - 2);
      RecoveredState(INITIAL, records, known);
      assert SharesId(T.Last(tr), known, key, d);
    }
  }
}
