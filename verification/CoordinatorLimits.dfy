/** Exactly when the coordinator publishes a frame that has been overtaken, and
    exactly when a promise is lost. */
module CoordinatorLimits {
  import opened Wire
  import opened Hex
  import opened Coordinator
  import opened CoordinatorRuns

  // ------------------------------------------------- publishing overtaken frames

  /** Each clock moves by its own bump only. */
  lemma ClockStep(s: Sys, a: Action, s': Sys)
    requires Step(s, a, s')
    ensures s'.sh.epoch == s.sh.epoch + if a.RollEpoch? then 1 else 0
    ensures s'.sh.cacheGen == s.sh.cacheGen + if a.BumpCache? then 1 else 0
    ensures s'.sh.toolchainGen == s.sh.toolchainGen + if a.BumpToolchain? then 1 else 0
  {
    hide IdHex, BytesHex, Authorized, PublicName, Raised;
    if OnResult(a) {
      hide SubmitStep, OutsideStep;
    } else if OnSubmit(a) {
      hide ResultStep, OutsideStep;
    } else {
      hide ResultStep, SubmitStep;
    }
  }

  /** A clock has moved over a stretch of a run exactly if one of its bumps lies in it. */
  lemma {:induction false} ClocksAreExact(tr: Trace, i: nat, j: nat)
    requires Valid(tr) && i <= j < |tr.states|
    ensures tr.states[i].sh.epoch <= tr.states[j].sh.epoch
    ensures tr.states[i].sh.cacheGen <= tr.states[j].sh.cacheGen
    ensures tr.states[i].sh.toolchainGen <= tr.states[j].sh.toolchainGen
    ensures tr.states[i].sh.epoch < tr.states[j].sh.epoch <==> exists k :: i <= k < j && tr.acts[k].RollEpoch?
    ensures tr.states[i].sh.cacheGen < tr.states[j].sh.cacheGen <==> exists k :: i <= k < j && tr.acts[k].BumpCache?
    ensures tr.states[i].sh.toolchainGen < tr.states[j].sh.toolchainGen <==> exists k :: i <= k < j && tr.acts[k].BumpToolchain?
    decreases j
  {
    hide Step;
    if i < j {
      ClocksAreExact(tr, i, j - 1);
      assert Step(tr.states[j - 1], tr.acts[j - 1], tr.states[j]);
      ClockStep(tr.states[j - 1], tr.acts[j - 1], tr.states[j]);
    }
  }

  lemma FrameStep(s: Sys, a: Action, s': Sys, t: nat)
    requires Step(s, a, s') && t < |s.results|
    ensures t < |s'.results| && s'.results[t].f == s.results[t].f
  {
    hide IdHex, BytesHex, Authorized, PublicName, Publication, Promised;
  }

  /** A task keeps its frame. */
  lemma {:induction false} SameFrame(tr: Trace, i: nat, j: nat, t: nat)
    requires Valid(tr) && i <= j < |tr.states| && t < |tr.states[i].results|
    ensures t < |tr.states[j].results| && tr.states[j].results[t].f == tr.states[i].results[t].f
  {
    hide Step;
    if i < j {
      SameFrame(tr, i, j - 1, t);
      assert Step(tr.states[j - 1], tr.acts[j - 1], tr.states[j]);
      FrameStep(tr.states[j - 1], tr.acts[j - 1], tr.states[j], t);
    }
  }

  /** A check that the frame passed: at `c` for the epoch, the cache and the
      toolchain generation. */
  predicate PassesEpoch(tr: Trace, c: nat, t: nat)
    requires c < |tr.acts| && |tr.states| == |tr.acts| + 1
  {
    tr.acts[c] == CheckEpoch(t) && t < |tr.states[c + 1].results| && tr.states[c + 1].results[t].EpochOk?
  }

  predicate PassesCache(tr: Trace, c: nat, t: nat)
    requires c < |tr.acts| && |tr.states| == |tr.acts| + 1
  {
    tr.acts[c] == CheckCache(t) && t < |tr.states[c + 1].results| && tr.states[c + 1].results[t].CacheOk?
  }

  predicate PassesToolchain(tr: Trace, c: nat, t: nat)
    requires c < |tr.acts| && |tr.states| == |tr.acts| + 1
  {
    tr.acts[c] == CheckToolchain(t) && t < |tr.states[c + 1].results| && tr.states[c + 1].results[t].GensOk?
  }

  /** A frame that passed the epoch check at `c` is of an old epoch at a later
      moment `p`, its publication for one, exactly if the epoch rolled in between:
      inside the check as well as after it. */
  lemma LateEpochIsExact(tr: Trace, c: nat, p: nat, t: nat)
    requires Valid(tr) && c < p < |tr.states| && PassesEpoch(tr, c, t)
    ensures t < |tr.states[p].results|
    ensures tr.states[p].results[t].f.env.epoch < tr.states[p].sh.epoch <==> exists k :: c < k < p && tr.acts[k].RollEpoch?
  {
    hide IdHex;
    assert Step(tr.states[c], tr.acts[c], tr.states[c + 1]);
    hide Step;
    SameFrame(tr, c + 1, p, t);
    ClocksAreExact(tr, c + 1, p);
  }

  lemma LateCacheIsExact(tr: Trace, c: nat, p: nat, t: nat)
    requires Valid(tr) && c < p < |tr.states| && PassesCache(tr, c, t)
    ensures t < |tr.states[p].results|
    ensures tr.states[p].results[t].f.env.cacheGen < tr.states[p].sh.cacheGen <==> exists k :: c < k < p && tr.acts[k].BumpCache?
  {
    hide IdHex;
    assert Step(tr.states[c], tr.acts[c], tr.states[c + 1]);
    hide Step;
    SameFrame(tr, c + 1, p, t);
    ClocksAreExact(tr, c + 1, p);
  }

  lemma LateToolchainIsExact(tr: Trace, c: nat, p: nat, t: nat)
    requires Valid(tr) && c < p < |tr.states| && PassesToolchain(tr, c, t)
    ensures t < |tr.states[p].results|
    ensures tr.states[p].results[t].f.env.toolchainGen < tr.states[p].sh.toolchainGen
       <==> exists k :: c < k < p && tr.acts[k].BumpToolchain?
  {
    hide IdHex;
    assert Step(tr.states[c], tr.acts[c], tr.states[c + 1]);
    hide Step;
    SameFrame(tr, c + 1, p, t);
    ClocksAreExact(tr, c + 1, p);
  }

  /** This step publishes the artifact under at least this generation. */
  predicate Supersedes(s: Sys, a: Action, artifact: string, gen: nat) {
    && a.Publish? && a.t < |s.results|
    && IdHex(s.results[a.t].f.env.artifactId) == artifact && gen <= s.results[a.t].f.env.artifactGen
  }

  lemma RecordedStep(s: Sys, a: Action, s': Sys, artifact: string, gen: nat)
    requires Step(s, a, s')
    ensures Recorded(s'.sh, artifact, gen) <==> Recorded(s.sh, artifact, gen) || Supersedes(s, a, artifact, gen)
  {
    hide IdHex, BytesHex;
    if a.Publish? {
      hide SubmitStep, OutsideStep;
    } else if Stirs(a) {
      hide ResultStep, OutsideStep;
    } else {
      QuietStep(s, a, s');
      hide Step;
    }
  }

  lemma {:induction false} RecordedIsExact(tr: Trace, i: nat, j: nat, artifact: string, gen: nat)
    requires Valid(tr) && i <= j < |tr.states|
    ensures Recorded(tr.states[j].sh, artifact, gen)
       <==> || Recorded(tr.states[i].sh, artifact, gen)
            || exists k :: i <= k < j && Supersedes(tr.states[k], tr.acts[k], artifact, gen)
    decreases j
  {
    hide Step, Supersedes, Recorded;
    if i < j {
      RecordedIsExact(tr, i, j - 1, artifact, gen);
      assert Step(tr.states[j - 1], tr.acts[j - 1], tr.states[j]);
      RecordedStep(tr.states[j - 1], tr.acts[j - 1], tr.states[j], artifact, gen);
    }
  }

  /** A frame that passed the locked checks is a duplicate when it is published
      exactly if another frame published its artifact, under at least its
      generation, since. */
  lemma LateArtifactIsExact(tr: Trace, c: nat, p: nat, t: nat)
    requires Valid(tr) && c < p < |tr.states| && tr.acts[c] == CheckLocked(t)
    requires t < |tr.states[c + 1].results| && Passed(tr.states[c + 1].results[t])
    ensures t < |tr.states[p].results|
    ensures var e := tr.states[p].results[t].f.env; var a := IdHex(e.artifactId);
            Recorded(tr.states[p].sh, a, e.artifactGen)
            <==> exists k :: c < k < p && Supersedes(tr.states[k], tr.acts[k], a, e.artifactGen)
  {
    hide IdHex, Recorded, Supersedes;
    assert Step(tr.states[c], tr.acts[c], tr.states[c + 1]);
    assert !Recorded(tr.states[c + 1].sh, IdHex(tr.states[c].results[t].f.env.artifactId), tr.states[c].results[t].f.env.artifactGen) by {
      RecordedStep(tr.states[c], tr.acts[c], tr.states[c + 1],
        IdHex(tr.states[c].results[t].f.env.artifactId), tr.states[c].results[t].f.env.artifactGen);
      CheckSupersedesNothing(tr.states[c], tr.acts[c],
        IdHex(tr.states[c].results[t].f.env.artifactId), tr.states[c].results[t].f.env.artifactGen);
    }
    SameFrame(tr, c, p, t);
    hide Step;
    var e := tr.states[p].results[t].f.env;
    RecordedIsExact(tr, c + 1, p, IdHex(e.artifactId), e.artifactGen);
  }

  lemma CheckSupersedesNothing(s: Sys, a: Action, artifact: string, gen: nat)
    requires !a.Publish?
    ensures !Supersedes(s, a, artifact, gen)
  {
  }

  /** All four at once: a frame that passed its checks at `ce`, `cc`, `ct` and `cl`
      is barred when it is published at `p` exactly if its epoch rolled, a
      generation was bumped or its artifact was published after the check that
      looked at it. */
  lemma PublishedThoughBarred(tr: Trace, ce: nat, cc: nat, ct: nat, cl: nat, p: nat, t: nat)
    requires Valid(tr) && p < |tr.acts| && tr.acts[p] == Publish(t)
    requires ce < p && cc < p && ct < p && cl < p
    requires PassesEpoch(tr, ce, t) && PassesCache(tr, cc, t) && PassesToolchain(tr, ct, t)
    requires tr.acts[cl] == CheckLocked(t) && t < |tr.states[cl + 1].results| && Passed(tr.states[cl + 1].results[t])
    ensures t < |tr.states[p].results|
    ensures var e := tr.states[p].results[t].f.env;
            Barred(tr.states[p].sh, e)
            <==> || (exists k :: ce < k < p && tr.acts[k].RollEpoch?)
                 || (exists k :: cc < k < p && tr.acts[k].BumpCache?)
                 || (exists k :: ct < k < p && tr.acts[k].BumpToolchain?)
                 || (exists k :: cl < k < p && Supersedes(tr.states[k], tr.acts[k], IdHex(e.artifactId), e.artifactGen))
  {
    hide IdHex, Step, Recorded, Supersedes;
    LateEpochIsExact(tr, ce, p, t);
    LateCacheIsExact(tr, cc, p, t);
    LateToolchainIsExact(tr, ct, p, t);
    LateArtifactIsExact(tr, cl, p, t);
  }

  // ------------------------------------------------------------- lost promises

  ghost predicate Awaits(sh: Shared, id: string, ref: nat) { id in sh.pending && sh.pending[id] == ref }

  /** The step replaces or erases the awaited promise of this request id: a
      second submission promises under it, or any submission under it gives up. */
  predicate Erases(s: Sys, a: Action, id: string) {
    && (a.Promise? || a.GiveUp?) && a.t < |s.submits| && IdHex(s.submits[a.t].rid) == id
    && (a.GiveUp? ==> s.submits[a.t].Sent?)
  }

  /** One step of an awaited promise: erased, fulfilled, or still awaited. */
  lemma AwaitedStep(s: Sys, a: Action, s': Sys, id: string, ref: nat)
    requires PendingOk(s.sh) && Step(s, a, s') && Awaits(s.sh, id, ref)
    ensures Orphaned(s'.sh, ref) <==> Erases(s, a, id)
    ensures Orphaned(s'.sh, ref) || Awaits(s'.sh, id, ref) || (ref < |s'.sh.promises| && s'.sh.promises[ref].Some?)
  {
    if Erases(s, a, id) {
      ErasedStep(s, a, s', id, ref);
    } else {
      KeptStep(s, a, s', id, ref);
      hide Step, Erases, PendingOk;
      assert Awaits(s'.sh, id, ref) ==> !Orphaned(s'.sh, ref);
    }
  }

  lemma ErasedStep(s: Sys, a: Action, s': Sys, id: string, ref: nat)
    requires PendingOk(s.sh) && Step(s, a, s') && Awaits(s.sh, id, ref) && Erases(s, a, id)
    ensures Orphaned(s'.sh, ref)
  {
    hide IdHex, BytesHex, ResultStep, OutsideStep;
    forall k | k in s'.sh.pending ensures s'.sh.pending[k] != ref {
      if k != id {
        assert k in s.sh.pending && s'.sh.pending[k] == s.sh.pending[k];
      }
    }
  }

  lemma KeptStep(s: Sys, a: Action, s': Sys, id: string, ref: nat)
    requires PendingOk(s.sh) && Step(s, a, s') && Awaits(s.sh, id, ref) && !Erases(s, a, id)
    ensures Awaits(s'.sh, id, ref) || (ref < |s'.sh.promises| && s'.sh.promises[ref].Some?)
  {
    if a.Publish? {
      hide IdHex, BytesHex, Raised, OutsideStep, SubmitStep;
    } else if Stirs(a) {
      hide IdHex, BytesHex, OutsideStep, ResultStep;
    } else {
      QuietStep(s, a, s');
      hide Step, Erases, PendingOk;
    }
  }

  /** The erasing event at `k`, while the promise is awaited. */
  ghost predicate LostAt(tr: Trace, k: nat, id: string, ref: nat)
    requires k < |tr.acts| && |tr.states| == |tr.acts| + 1
  {
    Awaits(tr.states[k].sh, id, ref) && Erases(tr.states[k], tr.acts[k], id)
  }

  /** From an awaited promise on: at every later moment it is awaited, fulfilled
      or orphaned, and orphaned exactly if it was erased while awaited. */
  lemma {:induction false} FateIsExact(tr: Trace, i: nat, j: nat, id: string, ref: nat)
    requires Valid(tr) && i <= j < |tr.states| && Awaits(tr.states[i].sh, id, ref)
    ensures Orphaned(tr.states[j].sh, ref) <==> exists k :: i <= k < j && LostAt(tr, k, id, ref)
    ensures ref < |tr.states[j].sh.promises|
    ensures Orphaned(tr.states[j].sh, ref) || Awaits(tr.states[j].sh, id, ref) || tr.states[j].sh.promises[ref].Some?
    decreases j
  {
    hide Step, Erases, Orphaned;
    ReachableCounts(tr, j);
    if i < j {
      var s, s' := tr.states[j - 1], tr.states[j];
      FateIsExact(tr, i, j - 1, id, ref);
      ReachableCounts(tr, j - 1);
      assert Step(s, tr.acts[j - 1], s');
      FateStep(s, tr.acts[j - 1], s', id, ref);
      assert LostAt(tr, j - 1, id, ref) <==> Awaits(s.sh, id, ref) && Erases(s, tr.acts[j - 1], id);
    } else {
      AwaitedIsNotOrphaned(tr.states[i].sh, id, ref);
    }
  }

  lemma AwaitedIsNotOrphaned(sh: Shared, id: string, ref: nat)
    requires PendingOk(sh) && Awaits(sh, id, ref)
    ensures !Orphaned(sh, ref) && ref < |sh.promises| && sh.promises[ref].None?
  {
  }

  lemma FateStep(s: Sys, a: Action, s': Sys, id: string, ref: nat)
    requires PendingOk(s.sh) && Step(s, a, s') && ref < |s.sh.promises|
    requires Orphaned(s.sh, ref) || Awaits(s.sh, id, ref) || s.sh.promises[ref].Some?
    ensures ref < |s'.sh.promises|
    ensures Orphaned(s'.sh, ref) || Awaits(s'.sh, id, ref) || s'.sh.promises[ref].Some?
    ensures Orphaned(s'.sh, ref) <==> Orphaned(s.sh, ref) || (Awaits(s.sh, id, ref) && Erases(s, a, id))
  {
    hide Step, Erases, PendingOk;
    PromiseStep(s, a, s', ref);
    if Awaits(s.sh, id, ref) {
      AwaitedIsNotOrphaned(s.sh, id, ref);
      AwaitedStep(s, a, s', id, ref);
    }
  }

  /** Exactly when the promise of a submission is lost: while it was the awaited
      one of its request id, another submission promised under that id, or one
      under that id gave up and erased it.  Otherwise it is awaited or fulfilled. */
  lemma PromiseLostIff(tr: Trace, i: nat, j: nat, t: nat)
    requires Valid(tr) && i < j < |tr.states| && tr.acts[i] == Promise(t) && t < |tr.states[i].submits|
    ensures var id, ref := IdHex(tr.states[i].submits[t].rid), |tr.states[i].sh.promises|;
            && (Orphaned(tr.states[j].sh, ref) <==> exists k :: i < k < j && LostAt(tr, k, id, ref))
            && ref < |tr.states[j].sh.promises|
            && (Orphaned(tr.states[j].sh, ref) || Awaits(tr.states[j].sh, id, ref) || tr.states[j].sh.promises[ref].Some?)
  {
    hide IdHex, BytesHex;
    assert Step(tr.states[i], tr.acts[i], tr.states[i + 1]);
    hide Step, LostAt, Orphaned;
    FateIsExact(tr, i + 1, j, IdHex(tr.states[i].submits[t].rid), |tr.states[i].sh.promises|);
  }

  /** A lost promise is never fulfilled: the client that waits for it waits forever. */
  lemma LostForever(tr: Trace, k: nat, j: nat, id: string, ref: nat)
    requires Valid(tr) && k < j < |tr.states| && LostAt(tr, k, id, ref)
    ensures Orphaned(tr.states[j].sh, ref)
  {
    hide Step, Orphaned;
    FateIsExact(tr, k, j, id, ref);
  }

  /** In particular a promise that a second submission under its request id replaces. */
  lemma OverwrittenPromiseIsLost(tr: Trace, i: nat, j: nat, t: nat)
    requires Valid(tr) && i < j < |tr.states| && tr.acts[i] == Promise(t)
    requires t < |tr.states[i].submits| && IdHex(tr.states[i].submits[t].rid) in tr.states[i].sh.pending
    ensures Orphaned(tr.states[j].sh, tr.states[i].sh.pending[IdHex(tr.states[i].submits[t].rid)])
  {
    hide IdHex, Step, Orphaned;
    var id := IdHex(tr.states[i].submits[t].rid);
    LostForever(tr, i, j, id, tr.states[i].sh.pending[id]);
  }

  // ------------------------------------------------ whom the locked checks let through

  /** The step changes what is registered for the worker. */
  predicate Touches(a: Action, w: nat) {
    (a.Register? || a.Disconnect?) && a.id == w
  }

  lemma WorkerStep(s: Sys, a: Action, s': Sys, w: nat, caps: Worker)
    requires Step(s, a, s')
    ensures (w in s'.sh.workers && s'.sh.workers[w] == caps)
       <==> || a == Register(w, caps)
            || (w in s.sh.workers && s.sh.workers[w] == caps && !Touches(a, w))
  {
    hide IdHex, BytesHex, Authorized, PublicName, Publication, Promised;
    if OnResult(a) {
      hide SubmitStep, OutsideStep;
      WorkersOfPublication(s, a, s');
    } else if OnSubmit(a) {
      hide ResultStep, OutsideStep;
      WorkersOfSubmission(s, a, s');
    }
  }

  lemma WorkersOfPublication(s: Sys, a: Action, s': Sys)
    requires Step(s, a, s') && OnResult(a)
    ensures s'.sh.workers == s.sh.workers
  {
    hide IdHex, Authorized, PublicName, Raised;
  }

  lemma WorkersOfSubmission(s: Sys, a: Action, s': Sys)
    requires Step(s, a, s') && OnSubmit(a)
    ensures s'.sh.workers == s.sh.workers
  {
    hide IdHex, BytesHex;
  }

  /** The worker registered these capabilities at `k` and has neither registered
      again nor disconnected before `i`. */
  ghost predicate StillRegistered(tr: Trace, k: nat, i: nat, w: nat, caps: Worker)
    requires i <= |tr.acts|
  {
    k < i && tr.acts[k] == Register(w, caps) && forall m :: k < m < i ==> !Touches(tr.acts[m], w)
  }

  ghost predicate RegisteredBy(tr: Trace, i: nat, w: nat, caps: Worker)
    requires i <= |tr.acts|
  {
    exists k: nat :: StillRegistered(tr, k, i, w, caps)
  }

  lemma {:induction false} WorkersAreExact(tr: Trace, i: nat, w: nat, caps: Worker)
    requires Valid(tr) && i < |tr.states|
    ensures (w in tr.states[i].sh.workers && tr.states[i].sh.workers[w] == caps) <==> RegisteredBy(tr, i, w, caps)
  {
    if i > 0 {
      hide Step;
      var p := i - 1;
      WorkersAreExact(tr, p, w, caps);
      assert Step(tr.states[p], tr.acts[p], tr.states[i]);
      WorkerStep(tr.states[p], tr.acts[p], tr.states[i], w, caps);
      if RegisteredBy(tr, i, w, caps) {
        var k: nat :| StillRegistered(tr, k, i, w, caps);
        if k < p { assert StillRegistered(tr, k, p, w, caps); }
      }
      if tr.acts[p] == Register(w, caps) {
        assert StillRegistered(tr, p, i, w, caps);
      }
      if RegisteredBy(tr, p, w, caps) && !Touches(tr.acts[p], w) {
        var k: nat :| StillRegistered(tr, k, p, w, caps);
        assert StillRegistered(tr, k, i, w, caps);
      }
    }
  }

  predicate PromisesUnder(s: Sys, a: Action, id: string) {
    a.Promise? && a.t < |s.submits| && IdHex(s.submits[a.t].rid) == id
  }

  /** The step removes what is pending under the request id: a publication for it,
      or a submission under it that gives up after sending. */
  predicate Removes(s: Sys, a: Action, id: string) {
    || (a.Publish? && a.t < |s.results| && IdHex(s.results[a.t].f.env.requestId) == id)
    || (a.GiveUp? && a.t < |s.submits| && s.submits[a.t].Sent? && IdHex(s.submits[a.t].rid) == id)
  }

  lemma PendingNameStep(s: Sys, a: Action, s': Sys, id: string)
    requires PendingOk(s.sh) && Step(s, a, s')
    ensures id in s'.sh.pending <==> PromisesUnder(s, a, id) || (id in s.sh.pending && !Removes(s, a, id))
  {
    if a.Publish? {
      hide IdHex, BytesHex, Raised, OutsideStep, SubmitStep;
    } else if Stirs(a) {
      hide IdHex, BytesHex, OutsideStep, ResultStep, PendingOk;
    } else {
      QuietStep(s, a, s');
      hide Step, IdHex, PendingOk;
    }
  }

  /** A submission promised under the request id at `k`, and nothing removed that
      before `i`. */
  ghost predicate StillPending(tr: Trace, k: nat, i: nat, id: string)
    requires i <= |tr.acts| && |tr.states| == |tr.acts| + 1
  {
    && k < i && PromisesUnder(tr.states[k], tr.acts[k], id)
    && forall m :: k < m < i ==> !Removes(tr.states[m], tr.acts[m], id)
  }

  ghost predicate PendingSince(tr: Trace, i: nat, id: string)
    requires i <= |tr.acts| && |tr.states| == |tr.acts| + 1
  {
    exists k: nat :: StillPending(tr, k, i, id)
  }

  lemma StepAt(tr: Trace, p: nat)
    requires Valid(tr) && p < |tr.acts|
    ensures Step(tr.states[p], tr.acts[p], tr.states[p + 1])
  {
  }

  lemma {:induction false} PendingIsExact(tr: Trace, i: nat, id: string)
    requires Valid(tr) && i < |tr.states|
    ensures id in tr.states[i].sh.pending <==> PendingSince(tr, i, id)
  {
    hide Step, PromisesUnder, Removes;
    if i > 0 {
      hide PendingSince;
      PendingIsExact(tr, i - 1, id);
      PendingOver(tr, i - 1, id);
      PendingSinceStep(tr, i, id);
    }
  }

  lemma PendingOver(tr: Trace, p: nat, id: string)
    requires Valid(tr) && p < |tr.acts|
    ensures id in tr.states[p + 1].sh.pending
       <==> || PromisesUnder(tr.states[p], tr.acts[p], id)
            || (id in tr.states[p].sh.pending && !Removes(tr.states[p], tr.acts[p], id))
  {
    hide Step, PromisesUnder, Removes, PendingOk, Balanced, AttemptsOk;
    StepAt(tr, p);
    ReachableCounts(tr, p);
    hide Valid;
    PendingNameStep(tr.states[p], tr.acts[p], tr.states[p + 1], id);
  }

  lemma PendingSinceStep(tr: Trace, i: nat, id: string)
    requires 0 < i <= |tr.acts| && |tr.states| == |tr.acts| + 1
    ensures PendingSince(tr, i, id)
       <==> || PromisesUnder(tr.states[i - 1], tr.acts[i - 1], id)
            || (PendingSince(tr, i - 1, id) && !Removes(tr.states[i - 1], tr.acts[i - 1], id))
  {
    hide PromisesUnder, Removes;
    var p := i - 1;
    if PendingSince(tr, i, id) {
      var k: nat :| StillPending(tr, k, i, id);
      if k < p { assert StillPending(tr, k, p, id); }
    }
    if PromisesUnder(tr.states[p], tr.acts[p], id) {
      assert StillPending(tr, p, i, id);
    }
    if PendingSince(tr, p, id) && !Removes(tr.states[p], tr.acts[p], id) {
      var k: nat :| StillPending(tr, k, p, id);
      assert StillPending(tr, k, i, id);
    }
  }

  /** Nothing was ever published for this artifact under at least this generation. */
  ghost predicate Unpublished(tr: Trace, i: nat, artifact: string, gen: nat)
    requires i <= |tr.acts| && |tr.states| == |tr.acts| + 1
  {
    forall k :: 0 <= k < i ==> !Supersedes(tr.states[k], tr.acts[k], artifact, gen)
  }

  /** The frame's worker is registered with the frame's boot id: by its last
      registration, not followed by a disconnect. */
  ghost predicate BootIsCurrent(tr: Trace, i: nat, w: nat, boot: Id128)
    requires i <= |tr.acts|
  {
    exists caps: Worker :: caps.boot == Some(IdHex(boot)) && RegisteredBy(tr, i, w, caps)
  }

  /** Exactly which frames the locked checks let through, in terms of what
      happened in the run: the worker's last registration carries the frame's boot
      id and it has not disconnected since; the artifact generation is not zero
      and was not published before; and a submission promised under the request id
      that no publication and no give-up has removed. */
  lemma LockedChecksAreExact(tr: Trace, i: nat, t: nat)
    requires Valid(tr) && i < |tr.acts| && tr.acts[i] == CheckLocked(t)
    ensures t < |tr.states[i].results| && t < |tr.states[i + 1].results|
    ensures var e := tr.states[i].results[t].f.env;
            Passed(tr.states[i + 1].results[t])
            <==> && BootIsCurrent(tr, i, e.workerId, e.bootId)
                 && e.artifactGen != 0 && Unpublished(tr, i, IdHex(e.artifactId), e.artifactGen)
                 && PendingSince(tr, i, IdHex(e.requestId))
  {
    hide IdHex, Recorded, Supersedes, RegisteredBy, PendingSince;
    assert Step(tr.states[i], tr.acts[i], tr.states[i + 1]);
    hide Step;
    var e := tr.states[i].results[t].f.env;
    var sh := tr.states[i].sh;
    PendingIsExact(tr, i, IdHex(e.requestId));
    RecordedIsExact(tr, 0, i, IdHex(e.artifactId), e.artifactGen);
    NothingRecordedAtStart(tr, IdHex(e.artifactId), e.artifactGen);
    if e.workerId in sh.workers {
      WorkersAreExact(tr, i, e.workerId, sh.workers[e.workerId]);
    }
    if BootIsCurrent(tr, i, e.workerId, e.bootId) {
      var caps: Worker :| caps.boot == Some(IdHex(e.bootId)) && RegisteredBy(tr, i, e.workerId, caps);
      WorkersAreExact(tr, i, e.workerId, caps);
    }
  }

  lemma NothingRecordedAtStart(tr: Trace, artifact: string, gen: nat)
    requires Valid(tr)
    ensures !Recorded(tr.states[0].sh, artifact, gen)
  {
  }
}
