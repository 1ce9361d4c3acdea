/** Where the contents of a published artifact come from, and how its reuse is
    counted. */
module FabricAccounts {
  import opened Wire
  import opened Canonical
  import opened Compatibility
  import opened Fabric
  import opened FabricRuns
  import opened FabricTheorems

  // --------------------------------------------------------------- origins

  /** What a call's own step makes of it while it owns a compilation. */
  ghost predicate Advances(env: Env, sh: Shared, a: Action, th: Thread, th': Thread) {
    match th'
    case Building(r, key, ref) => a.Join? && r == th.r && key == th.key && ref == sh.counter + 1
    case Stamping(r, key, ref, id, bytes) =>
      a.Build? && th == Building(r, key, ref) && id == sh.counter + 1 && bytes == a.bytes
    case Validating(r, key, ref, id, gen, bytes) => a.Stamp? && th == Stamping(r, key, ref, id, bytes) && gen == sh.counter
    case Committing(r, key, ref, art, bytes) =>
      && a.Validate? && th.Validating? && th == Validating(r, key, ref, th.id, th.gen, bytes)
      && art == Artifact(th.id, th.gen, env.hash(bytes), ref, r.requestId, DEPLOYABLE, true, true, 0)
    case Finishing(r, key, ref, result) =>
      a.Commit? && th.Committing? && th.key == key && result == Served(r.requestId, key, th.art, th.bytes, false)
    case _ => true
  }

  lemma OwnStep(env: Env, s: Sys, a: Action, s': Sys, t: nat)
    requires Step(env, s, a, s') && Actor(a) == Some(t)
    ensures t < |s.threads| && t < |s'.threads| && Advances(env, s.sh, a, s.threads[t], s'.threads[t])
  {
    hide Hit, Touched, Registered, Installed, Settled, Invalidated, Superseded, Joinable, Outdated;
  }

  lemma OthersStay(env: Env, s: Sys, a: Action, s': Sys, t: nat)
    requires Step(env, s, a, s') && Actor(a) != Some(t) && t < |s'.threads| && IsOwner(s'.threads[t])
    ensures t < |s.threads| && s'.threads[t] == s.threads[t]
  {
    hide Hit, Touched, Registered, Installed, Settled, Invalidated, Superseded, Joinable, Outdated;
  }

  /** One step and one call that owns a compilation: it is as before, or the step
      is its own and says what the new state holds. */
  lemma OriginStep(env: Env, s: Sys, a: Action, s': Sys, t: nat)
    requires Step(env, s, a, s') && t < |s'.threads| && IsOwner(s'.threads[t])
    ensures t < |s.threads|
    ensures s'.threads[t] == s.threads[t] || (Actor(a) == Some(t) && Advances(env, s.sh, a, s.threads[t], s'.threads[t]))
  {
    hide Step, Advances;
    if Actor(a) == Some(t) {
      OwnStep(env, s, a, s', t);
    } else {
      OthersStay(env, s, a, s', t);
    }
  }

  /** The call drew its attempt at `j`, its artifact id at `b`, and read its
      generation at `g`. */
  ghost predicate Drawn(tr: Trace, t: nat, j: nat, b: nat, g: nat, i: nat, ref: nat, id: nat, gen: nat, bytes: Bytes)
    requires i <= |tr.acts| && |tr.states| == |tr.acts| + 1
  {
    && j < b < g < i && tr.acts[j] == Join(t) && tr.acts[b] == Build(t, bytes) && tr.acts[g] == Stamp(t)
    && ref == tr.states[j].sh.counter + 1 && id == tr.states[b].sh.counter + 1 && gen == tr.states[g].sh.counter
  }

  lemma {:induction false} BuildingOrigin(env: Env, tr: Trace, i: nat, t: nat) returns (j: nat)
    requires Valid(env, tr) && i < |tr.states| && t < |tr.states[i].threads| && tr.states[i].threads[t].Building?
    ensures j < i && tr.acts[j] == Join(t) && tr.states[i].threads[t].ref == tr.states[j].sh.counter + 1
  {
    hide Step;
    assert Step(env, tr.states[i - 1], tr.acts[i - 1], tr.states[i]);
    OriginStep(env, tr.states[i - 1], tr.acts[i - 1], tr.states[i], t);
    j := i - 1;
    if tr.states[i - 1].threads[t] == tr.states[i].threads[t] {
      j := BuildingOrigin(env, tr, i - 1, t);
    }
  }

  lemma {:induction false} StampingOrigin(env: Env, tr: Trace, i: nat, t: nat) returns (j: nat, b: nat)
    requires Valid(env, tr) && i < |tr.states| && t < |tr.states[i].threads| && tr.states[i].threads[t].Stamping?
    ensures var th := tr.states[i].threads[t];
            && j < b < i && tr.acts[j] == Join(t) && th.ref == tr.states[j].sh.counter + 1
            && tr.acts[b] == Build(t, th.bytes) && th.id == tr.states[b].sh.counter + 1
  {
    hide Step;
    assert Step(env, tr.states[i - 1], tr.acts[i - 1], tr.states[i]);
    OriginStep(env, tr.states[i - 1], tr.acts[i - 1], tr.states[i], t);
    if tr.states[i - 1].threads[t] == tr.states[i].threads[t] {
      j, b := StampingOrigin(env, tr, i - 1, t);
    } else {
      j := BuildingOrigin(env, tr, i - 1, t);
      b := i - 1;
    }
  }

  lemma {:induction false} ValidatingOrigin(env: Env, tr: Trace, i: nat, t: nat) returns (j: nat, b: nat, g: nat)
    requires Valid(env, tr) && i < |tr.states| && t < |tr.states[i].threads| && tr.states[i].threads[t].Validating?
    ensures var th := tr.states[i].threads[t]; Drawn(tr, t, j, b, g, i, th.ref, th.id, th.gen, th.bytes)
  {
    hide Step;
    assert Step(env, tr.states[i - 1], tr.acts[i - 1], tr.states[i]);
    OriginStep(env, tr.states[i - 1], tr.acts[i - 1], tr.states[i], t);
    if tr.states[i - 1].threads[t] == tr.states[i].threads[t] {
      j, b, g := ValidatingOrigin(env, tr, i - 1, t);
    } else {
      j, b := StampingOrigin(env, tr, i - 1, t);
      g := i - 1;
    }
  }

  /** What every artifact about to be committed consists of: the id and the
      generation its own call drew, in two separate reads of the counter, the
      digest of the bytes that its build produced, the attempt and the request of
      the call, in service and never reused. */
  lemma {:induction false} CommittingOrigin(env: Env, tr: Trace, i: nat, t: nat) returns (j: nat, b: nat, g: nat)
    requires Valid(env, tr) && i < |tr.states| && t < |tr.states[i].threads| && tr.states[i].threads[t].Committing?
    ensures var th := tr.states[i].threads[t];
            && Drawn(tr, t, j, b, g, i, th.ref, th.art.id, th.art.generation, th.bytes)
            && th.art.contentDigest == env.hash(th.bytes) && th.art.attempt == th.ref && th.art.requestId == th.r.requestId
            && InService(th.art) && th.art.reuseCount == 0
  {
    hide Step;
    assert Step(env, tr.states[i - 1], tr.acts[i - 1], tr.states[i]);
    OriginStep(env, tr.states[i - 1], tr.acts[i - 1], tr.states[i], t);
    if tr.states[i - 1].threads[t] == tr.states[i].threads[t] {
      j, b, g := CommittingOrigin(env, tr, i - 1, t);
    } else {
      j, b, g := ValidatingOrigin(env, tr, i - 1, t);
    }
  }

  // ----------------------------------------------------------------- reuse

  /** This step is a probe that hits the key. */
  ghost predicate HitsKey(env: Env, s: Sys, a: Action, key: CacheKey) {
    && a.Probe? && a.t < |s.threads| && s.threads[a.t].Probing? && s.threads[a.t].key == key
    && Hit(s.sh, key, env.policy)
  }

  /** How many steps from `i` to `j` are such probes. */
  ghost function HitCount(env: Env, tr: Trace, i: nat, j: nat, key: CacheKey): nat
    requires j <= |tr.acts| && |tr.states| == |tr.acts| + 1
    decreases j
  {
    if j <= i then 0
    else HitCount(env, tr, i, j - 1, key) + if HitsKey(env, tr.states[j - 1], tr.acts[j - 1], key) then 1 else 0
  }

  lemma ReuseStep(env: Env, s: Sys, a: Action, s': Sys, key: CacheKey)
    requires Step(env, s, a, s') && key in s'.sh.cache && !Publishes(s, a, key)
    ensures key in s.sh.cache
    ensures s'.sh.cache[key].art.reuseCount == s.sh.cache[key].art.reuseCount + if HitsKey(env, s, a, key) then 1 else 0
  {
    hide Reusable, Matches, Supersedable;
  }

  lemma NewIsUnused(env: Env, tr: Trace, c: nat, t: nat)
    requires Valid(env, tr) && c < |tr.acts| && tr.acts[c] == Commit(t)
    requires t < |tr.states[c + 1].threads| && tr.states[c + 1].threads[t].Finishing?
    ensures var key := tr.states[c + 1].threads[t].key;
            key in tr.states[c + 1].sh.cache && tr.states[c + 1].sh.cache[key].art.reuseCount == 0
  {
    assert Step(env, tr.states[c], tr.acts[c], tr.states[c + 1]);
    var j, b, g := CommittingOrigin(env, tr, c, t);
    hide Drawn;
  }

  /** Conservation: while an artifact is in service, its reuse counter is the
      number of hits on its key since its commit. */
  lemma {:induction false} ReuseIsCounted(env: Env, tr: Trace, c: nat, j: nat, t: nat)
    requires Valid(env, tr) && c < j < |tr.states| && tr.acts[c] == Commit(t)
    requires t < |tr.states[c + 1].threads| && tr.states[c + 1].threads[t].Finishing?
    requires var th := tr.states[c + 1].threads[t]; ServingThis(tr.states[j], th.key, th.result.art.id)
    ensures var th := tr.states[c + 1].threads[t];
            tr.states[j].sh.cache[th.key].art.reuseCount == HitCount(env, tr, c + 1, j, th.key)
    decreases j
  {
    hide Inv, Step, Hurts, Publishes, Spent, HitsKey;
    var s, s' := tr.states[j - 1], tr.states[j];
    assert Step(env, s, tr.acts[j - 1], s');
    var th := tr.states[c + 1].threads[t];
    if j == c + 1 {
      NewIsUnused(env, tr, c, t);
    } else {
      ArtifactServedIff(env, tr, c, j - 1, t);
      ReachableInv(env, tr, j - 1);
      ServingThisStep(env, s, tr.acts[j - 1], s', th.key, th.result.art.id);
      ReuseStep(env, s, tr.acts[j - 1], s', th.key);
      ReuseIsCounted(env, tr, c, j - 1, t);
    }
  }

  // ------------------------------------------------------- generation tests

  /** A flight that has seen the current cache generation has seen the current
      toolchain generation. */
  ghost predicate Together(sh: Shared) {
    forall ref :: ref in sh.flights ==>
      && sh.flights[ref].baseCacheGen <= sh.cacheGen
      && (sh.flights[ref].baseCacheGen == sh.cacheGen ==> sh.flights[ref].baseToolchainGen == sh.toolchainGen)
  }

  lemma TogetherStep(env: Env, s: Sys, a: Action, s': Sys)
    requires Step(env, s, a, s') && Together(s.sh)
    ensures Together(s'.sh)
  {
    hide Reusable, Matches, Supersedable;
  }

  lemma {:induction false} ReachableTogether(env: Env, tr: Trace, i: nat)
    requires Valid(env, tr) && i < |tr.states|
    ensures Together(tr.states[i].sh)
  {
    hide Step;
    if i > 0 {
      ReachableTogether(env, tr, i - 1);
      assert Step(env, tr.states[i - 1], tr.acts[i - 1], tr.states[i]);
      hide Together;
      TogetherStep(env, tr.states[i - 1], tr.acts[i - 1], tr.states[i]);
    }
  }

  /** The second comparison of the commit test never decides: every step that
      moves the toolchain generation moves the cache generation too. */
  lemma ToolchainTestIsRedundant(env: Env, tr: Trace, i: nat, ref: nat)
    requires Valid(env, tr) && i < |tr.states| && ref in tr.states[i].sh.flights
    ensures var sh := tr.states[i].sh;
            Outdated(sh, ref) <==> sh.flights[ref].baseCacheGen != sh.cacheGen
  {
    ReachableTogether(env, tr, i);
  }

  // -------------------------------------------------------- what replies say

  predicate Unreused(o: Reply) { o.Success? ==> !o.result.reused }

  predicate Marked(th: Thread) {
    match th
    case Finishing(_, _, _, result) => !result.reused
    case Returned(r, _, via, outcome) =>
      if via.FromCache? then outcome.Success? && outcome.result.reused && outcome.result.requestId == r.requestId
      else Unreused(outcome)
    case _ => true
  }

  ghost predicate AllMarked(s: Sys) {
    && (forall ref :: ref in s.sh.flights && s.sh.flights[ref].outcome.Some? ==> Unreused(s.sh.flights[ref].outcome.value))
    && (forall t :: 0 <= t < |s.threads| ==> Marked(s.threads[t]))
  }

  lemma MarkedStep(env: Env, s: Sys, a: Action, s': Sys)
    requires Step(env, s, a, s') && AllMarked(s)
    ensures AllMarked(s')
  {
    hide Reusable, Matches, Supersedable;
    if a.Finish? {
      assert Marked(s.threads[a.t]);
    }
  }

  /** A success is marked as reused exactly if it came from the cache; then it
      carries the caller's own request id.  A waiter's is not marked. */
  lemma {:induction false} ReusedMeansFromCache(env: Env, tr: Trace, i: nat)
    requires Valid(env, tr) && i < |tr.states|
    ensures AllMarked(tr.states[i])
  {
    hide Step;
    if i > 0 {
      ReusedMeansFromCache(env, tr, i - 1);
      assert Step(env, tr.states[i - 1], tr.acts[i - 1], tr.states[i]);
      hide AllMarked;
      MarkedStep(env, tr.states[i - 1], tr.acts[i - 1], tr.states[i]);
    }
  }
}
