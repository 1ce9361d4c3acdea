/** The coordinator as a step system.  Every result frame and every submission
    is a task; a task advances by one atomic access or lock region at a time,
    interleaved with registrations, disconnects, invalidations and bumps. */
module CoordinatorRuns {
  import opened Wire
  import opened Key
  import opened Hex
  import opened Coordinator
  import T = Traces

  datatype Frame = Frame(env: Envelope, ok: bool, res: Res)

  /** Where a result frame stands: the three atomic comparisons one by one, the
      locked checks, the name lookup, the counter, the publication. */
  datatype Result =
    | Arrived(f: Frame) | EpochOk(f: Frame) | CacheOk(f: Frame) | GensOk(f: Frame)
    | Accepted(f: Frame) | Named(f: Frame, name: string) | Counted(f: Frame, name: string)
    | Published(f: Frame) | Rejected(f: Frame) | Ignored(f: Frame)

  /** Where a submission stands. */
  datatype Submission =
    | Decoded(rid: Id128, key: Digest) | Mapped(rid: Id128, key: Digest) | Missed(rid: Id128, key: Digest)
    | Waiting(rid: Id128, key: Digest, ref: nat)
    | Sent(rid: Id128, key: Digest, ref: nat)
    | Answered(rid: Id128, key: Digest, reply: Option<Res>)

  /** A dispatch frame sent to a worker. */
  datatype Dispatch = Dispatch(rid: Id128, key: string, attempt: nat)

  datatype Sys = Sys(sh: Shared, results: seq<Result>, submits: seq<Submission>, sent: seq<Dispatch>)

  datatype Action =
    | Arrive(f: Frame)
    | CheckEpoch(t: nat) | CheckCache(t: nat) | CheckToolchain(t: nat) | CheckLocked(t: nat)
    | Name(t: nat) | Count(t: nat) | Publish(t: nat)
    | Submit(rid: Id128, key: Digest)
    | Map(t: nat) | Lookup(t: nat) | Promise(t: nat) | Send(t: nat) | GiveUp(t: nat) | Receive(t: nat)
    | Register(id: nat, caps: Worker) | Disconnect(id: nat) | Invalidate(rid: Id128)
    | RollEpoch | BumpCache | BumpToolchain

  function Reject(s: Sys, t: nat): Sys
    requires t < |s.results|
  {
    s.(sh := s.sh.(rejected := s.sh.rejected + 1), results := s.results[t := Rejected(s.results[t].f)])
  }

  ghost predicate ResultStep(s: Sys, a: Action, s': Sys)
    requires a.CheckEpoch? || a.CheckCache? || a.CheckToolchain? || a.CheckLocked? || a.Name? || a.Count? || a.Publish?
  {
    && a.t < |s.results|
    && var t := a.t; var x := s.results[t]; var f := x.f;
    match a
    case CheckEpoch(_) =>
      x.Arrived? && s' == if f.env.epoch != s.sh.epoch then Reject(s, t) else s.(results := s.results[t := EpochOk(f)])
    case CheckCache(_) =>
      x.EpochOk? && s' == if f.env.cacheGen != s.sh.cacheGen then Reject(s, t) else s.(results := s.results[t := CacheOk(f)])
    case CheckToolchain(_) =>
      x.CacheOk? && s' == if f.env.toolchainGen != s.sh.toolchainGen then Reject(s, t) else s.(results := s.results[t := GensOk(f)])
    case CheckLocked(_) =>
      && x.GensOk?
      && s' == if !Authorized(s.sh, f.env) then Reject(s, t)
               else s.(results := s.results[t := if f.ok then Accepted(f) else Ignored(f)])
    case Name(_) =>
      x.Accepted? && s' == s.(results := s.results[t := Named(f, PublicName(s.sh, f.env))])
    case Count(_) =>
      x.Named? && s' == s.(sh := s.sh.(completed := s.sh.completed + 1), results := s.results[t := Counted(f, x.name)])
    case Publish(_) =>
      x.Counted? && s' == s.(sh := Publication(s.sh, f.env, x.name, f.res), results := s.results[t := Published(f)])
  }

  ghost predicate SubmitStep(s: Sys, a: Action, s': Sys)
    requires a.Map? || a.Lookup? || a.Promise? || a.Send? || a.GiveUp? || a.Receive?
  {
    && a.t < |s.submits|
    && var t := a.t; var x := s.submits[t]; var id := IdHex(x.rid); var name := BytesHex(x.key);
    match a
    case Map(_) =>
      && x.Decoded?
      && s' == s.(sh := s.sh.(reqToKey := s.sh.reqToKey[id := name]), submits := s.submits[t := Mapped(x.rid, x.key)])
    case Lookup(_) =>
      && x.Mapped?
      && s' == s.(submits := s.submits[t :=
                 if name in s.sh.published then Answered(x.rid, x.key, Some(s.sh.published[name])) else Missed(x.rid, x.key)])
    case Promise(_) =>
      x.Missed? && s' == s.(sh := Promised(s.sh, id), submits := s.submits[t := Waiting(x.rid, x.key, |s.sh.promises|)])
    // The envelope's epoch and generations are separate loads; only the attempt id matters here.
    case Send(_) =>
      && x.Waiting?
      && s' == s.(sh := s.sh.(dispatched := s.sh.dispatched + 1), submits := s.submits[t := Sent(x.rid, x.key, x.ref)],
                  sent := s.sent + [Dispatch(x.rid, name, s.sh.dispatched + 1)])
    // No capable worker, or the channel is gone or broken; the promise is erased by request id.
    case GiveUp(_) =>
      && (x.Missed? || x.Sent?)
      && s' == s.(sh := if x.Sent? then s.sh.(pending := s.sh.pending - {id}) else s.sh,
                  submits := s.submits[t := Answered(x.rid, x.key, None)])
    case Receive(_) =>
      && x.Sent? && x.ref < |s.sh.promises| && s.sh.promises[x.ref].Some?
      && s' == s.(submits := s.submits[t := Answered(x.rid, x.key, s.sh.promises[x.ref])])
  }

  ghost predicate OutsideStep(s: Sys, a: Action, s': Sys)
    requires a.Arrive? || a.Submit? || a.Register? || a.Disconnect? || a.Invalidate? || a.RollEpoch? || a.BumpCache? || a.BumpToolchain?
  {
    match a
    case Arrive(f) => s' == s.(results := s.results + [Arrived(f)])
    case Submit(rid, key) => s' == s.(submits := s.submits + [Decoded(rid, key)])
    case Register(id, caps) =>
      s' == s.(sh := s.sh.(workers := s.sh.workers[id := caps], channels := s.sh.channels + {id}))
    case Disconnect(id) =>
      s' == s.(sh := s.sh.(workers := s.sh.workers - {id}, channels := s.sh.channels - {id}))
    case Invalidate(rid) => s' == s.(sh := s.sh.(published := s.sh.published - {IdHex(rid)}))
    case RollEpoch => s' == s.(sh := s.sh.(epoch := s.sh.epoch + 1))
    case BumpCache => s' == s.(sh := s.sh.(cacheGen := s.sh.cacheGen + 1))
    case BumpToolchain => s' == s.(sh := s.sh.(toolchainGen := s.sh.toolchainGen + 1))
  }

  predicate OnResult(a: Action) {
    a.CheckEpoch? || a.CheckCache? || a.CheckToolchain? || a.CheckLocked? || a.Name? || a.Count? || a.Publish?
  }

  predicate OnSubmit(a: Action) {
    a.Map? || a.Lookup? || a.Promise? || a.Send? || a.GiveUp? || a.Receive?
  }

  ghost predicate Step(s: Sys, a: Action, s': Sys) {
    if OnResult(a) then ResultStep(s, a, s')
    else if OnSubmit(a) then SubmitStep(s, a, s')
    else OutsideStep(s, a, s')
  }

  type Trace = T.Trace<Sys, Action>

  ghost predicate Valid(tr: Trace) {
    && |tr.states| == |tr.acts| + 1
    && (exists e, c, g :: tr.states[0] == Sys(Start(e, c, g), [], [], []))
    && forall i :: 0 <= i < |tr.acts| ==> Step(tr.states[i], tr.acts[i], tr.states[i + 1])
  }

  // --------------------------------------------------------- replay safety

  /** This envelope has been overtaken: its epoch or a generation was passed, or
      its artifact generation has been published. */
  predicate Barred(sh: Shared, e: Envelope) {
    || e.epoch < sh.epoch || e.cacheGen < sh.cacheGen || e.toolchainGen < sh.toolchainGen
    || Recorded(sh, IdHex(e.artifactId), e.artifactGen)
  }

  /** The frame got past the authority check. */
  predicate Passed(x: Result) {
    x.Accepted? || x.Named? || x.Counted? || x.Published? || x.Ignored?
  }

  /** Some check still ahead of the frame will reject it, or one has. */
  predicate Doomed(sh: Shared, x: Result) {
    match x
    case Arrived(f) => Barred(sh, f.env)
    case EpochOk(f) =>
      f.env.cacheGen < sh.cacheGen || f.env.toolchainGen < sh.toolchainGen || Recorded(sh, IdHex(f.env.artifactId), f.env.artifactGen)
    case CacheOk(f) => f.env.toolchainGen < sh.toolchainGen || Recorded(sh, IdHex(f.env.artifactId), f.env.artifactGen)
    case GensOk(f) => Recorded(sh, IdHex(f.env.artifactId), f.env.artifactGen)
    case Rejected(_) => true
    case _ => false
  }

  /** Everything a check compares against only grows. */
  predicate Grows(sh: Shared, sh': Shared) {
    && sh.epoch <= sh'.epoch && sh.cacheGen <= sh'.cacheGen && sh.toolchainGen <= sh'.toolchainGen
    && forall a :: a in sh.artifactGen ==> a in sh'.artifactGen && sh.artifactGen[a] <= sh'.artifactGen[a]
  }

  /** Only these three steps touch the promises. */
  predicate Stirs(a: Action) { a.Publish? || a.Promise? || a.GiveUp? }

  lemma QuietStep(s: Sys, a: Action, s': Sys)
    requires Step(s, a, s') && !Stirs(a)
    ensures s'.sh.pending == s.sh.pending && s'.sh.promises == s.sh.promises && s'.sh.artifactGen == s.sh.artifactGen
    ensures s.sh.epoch <= s'.sh.epoch && s.sh.cacheGen <= s'.sh.cacheGen && s.sh.toolchainGen <= s'.sh.toolchainGen
  {
    hide IdHex, BytesHex, Authorized, PublicName;
    if OnResult(a) {
      hide SubmitStep, OutsideStep;
    } else if OnSubmit(a) {
      hide ResultStep, OutsideStep;
    } else {
      hide ResultStep, SubmitStep;
    }
  }

  lemma StepGrows(s: Sys, a: Action, s': Sys)
    requires Step(s, a, s')
    ensures Grows(s.sh, s'.sh)
  {
    hide IdHex, BytesHex, Authorized, PublicName;
    if !Stirs(a) {
      hide Step;
      QuietStep(s, a, s');
    }
  }

  lemma BarredGrows(sh: Shared, sh': Shared, e: Envelope)
    requires Grows(sh, sh') && Barred(sh, e)
    ensures Barred(sh', e)
  {
    hide IdHex;
  }

  lemma DoomedGrows(sh: Shared, sh': Shared, x: Result)
    requires Grows(sh, sh') && Doomed(sh, x)
    ensures Doomed(sh', x)
  {
    hide IdHex;
  }

  /** A doomed frame stays doomed under every step, its own included. */
  lemma DoomedStep(s: Sys, a: Action, s': Sys, t: nat)
    requires Step(s, a, s') && t < |s.results| && Doomed(s.sh, s.results[t])
    ensures t < |s'.results| && Doomed(s'.sh, s'.results[t]) && s'.results[t].f == s.results[t].f
  {
    StepGrows(s, a, s');
    if OnResult(a) && a.t == t {
      hide IdHex, Publication, PublicName, Grows;
    } else {
      OtherResults(s, a, s', t);
      hide Step, IdHex, Grows, Doomed;
      DoomedGrows(s.sh, s'.sh, s.results[t]);
    }
  }

  lemma OtherResults(s: Sys, a: Action, s': Sys, t: nat)
    requires Step(s, a, s') && t < |s.results| && !(OnResult(a) && a.t == t)
    ensures t < |s'.results| && s'.results[t] == s.results[t]
  {
    hide IdHex, BytesHex, Publication, Promised, PublicName, Authorized;
  }

  lemma {:induction false} DoomedForever(tr: Trace, i: nat, j: nat, t: nat)
    requires Valid(tr) && i <= j < |tr.states|
    requires t < |tr.states[i].results| && Doomed(tr.states[i].sh, tr.states[i].results[t])
    ensures t < |tr.states[j].results| && Doomed(tr.states[j].sh, tr.states[j].results[t])
  {
    hide Step, Doomed;
    if i < j {
      DoomedForever(tr, i, j - 1, t);
      assert Step(tr.states[j - 1], tr.acts[j - 1], tr.states[j]);
      DoomedStep(tr.states[j - 1], tr.acts[j - 1], tr.states[j], t);
    }
  }

  lemma {:induction false} GrowsOver(tr: Trace, i: nat, j: nat)
    requires Valid(tr) && i <= j < |tr.states|
    ensures Grows(tr.states[i].sh, tr.states[j].sh)
  {
    hide Step;
    if i < j {
      GrowsOver(tr, i, j - 1);
      assert Step(tr.states[j - 1], tr.acts[j - 1], tr.states[j]);
      StepGrows(tr.states[j - 1], tr.acts[j - 1], tr.states[j]);
    }
  }

  /** Replay safety: once an envelope is barred, no frame carrying it that
      arrives later passes the authority check, in any interleaving. */
  lemma ReplayNeverPasses(tr: Trace, i: nat, c: nat, j: nat, t: nat)
    requires Valid(tr) && i <= c < j < |tr.states|
    requires tr.acts[c].Arrive? && Barred(tr.states[i].sh, tr.acts[c].f.env)
    requires t == |tr.states[c].results|
    ensures t < |tr.states[j].results| && !Passed(tr.states[j].results[t])
  {
    GrowsOver(tr, i, c);
    BarredGrows(tr.states[i].sh, tr.states[c].sh, tr.acts[c].f.env);
    assert Step(tr.states[c], tr.acts[c], tr.states[c + 1]);
    DoomedForever(tr, c + 1, j, t);
  }

  /** Publishing bars the frame's own envelope, and so does any bump past it. */
  lemma PublishingBars(s: Sys, a: Action, s': Sys)
    requires Step(s, a, s')
    ensures a.Publish? ==> Barred(s'.sh, s.results[a.t].f.env)
    ensures a.RollEpoch? ==> forall e: Envelope :: e.epoch <= s.sh.epoch ==> Barred(s'.sh, e)
    ensures a.BumpCache? ==> forall e: Envelope :: e.cacheGen <= s.sh.cacheGen ==> Barred(s'.sh, e)
    ensures a.BumpToolchain? ==> forall e: Envelope :: e.toolchainGen <= s.sh.toolchainGen ==> Barred(s'.sh, e)
  {
    hide IdHex, BytesHex, PublicName;
  }

  /** The frame has not passed the locked checks yet. */
  predicate Unchecked(x: Result) { x.Arrived? || x.EpochOk? || x.CacheOk? || x.GensOk? }

  /** A publication also stops every frame in flight for the same artifact and no
      newer generation that has not passed the locked checks, however many of
      its other checks it has passed. */
  lemma InFlightReplayRejected(tr: Trace, p: nat, j: nat, u: nat, t: nat)
    requires Valid(tr) && p < j < |tr.states| && tr.acts[p] == Publish(u) && u < |tr.states[p].results|
    requires t < |tr.states[p + 1].results| && Unchecked(tr.states[p + 1].results[t])
    requires var e, done := tr.states[p + 1].results[t].f.env, tr.states[p].results[u].f.env;
             e.artifactId == done.artifactId && e.artifactGen <= done.artifactGen
    ensures t < |tr.states[j].results| && !Passed(tr.states[j].results[t])
  {
    hide IdHex;
    assert Step(tr.states[p], tr.acts[p], tr.states[p + 1]);
    hide Step;
    DoomedForever(tr, p + 1, j, t);
  }

  /** The generation recorded for an artifact never decreases. */
  lemma ArtifactGenerationsMonotone(tr: Trace, i: nat, j: nat, a: string)
    requires Valid(tr) && i <= j < |tr.states| && a in tr.states[i].sh.artifactGen
    ensures a in tr.states[j].sh.artifactGen
    ensures tr.states[i].sh.artifactGen[a] <= tr.states[j].sh.artifactGen[a]
  {
    GrowsOver(tr, i, j);
  }

  // ----------------------------------------------------------- conservation

  function Fulfilled(ps: seq<Option<Res>>): nat {
    if ps == [] then 0 else Fulfilled(ps[..|ps| - 1]) + if ps[|ps| - 1].Some? then 1 else 0
  }

  function InProgress(rs: seq<Result>): nat {
    if rs == [] then 0 else InProgress(rs[..|rs| - 1]) + if rs[|rs| - 1].Counted? then 1 else 0
  }

  lemma {:induction false} FulfilledUpdate(ps: seq<Option<Res>>, k: nat, r: Res)
    requires k < |ps| && ps[k].None?
    ensures Fulfilled(ps[k := Some(r)]) == Fulfilled(ps) + 1
  {
    var n := |ps| - 1;
    if k == n {
      assert ps[k := Some(r)][..n] == ps[..n];
    } else {
      assert ps[k := Some(r)][..n] == ps[..n][k := Some(r)];
      FulfilledUpdate(ps[..n], k, r);
    }
  }

  lemma {:induction false} InProgressUpdate(rs: seq<Result>, k: nat, x: Result)
    requires k < |rs|
    ensures InProgress(rs[k := x]) + (if rs[k].Counted? then 1 else 0) == InProgress(rs) + if x.Counted? then 1 else 0
  {
    var n := |rs| - 1;
    if k == n {
      assert rs[k := x][..n] == rs[..n];
    } else {
      assert rs[k := x][..n] == rs[..n][k := x];
      InProgressUpdate(rs[..n], k, x);
    }
  }

  /** Every awaited promise exists, is unset, and is awaited under one name. */
  ghost predicate PendingOk(sh: Shared) {
    && (forall k :: k in sh.pending ==> sh.pending[k] < |sh.promises| && sh.promises[sh.pending[k]].None?)
    && (forall k, k' :: k in sh.pending && k' in sh.pending && k != k' ==> sh.pending[k] != sh.pending[k'])
  }

  predicate Balanced(s: Sys) {
    s.sh.completed == Fulfilled(s.sh.promises) + s.sh.duplicates + InProgress(s.results)
  }

  predicate AttemptsOk(s: Sys) {
    |s.sent| == s.sh.dispatched && forall i :: 0 <= i < |s.sent| ==> s.sent[i].attempt == i + 1
  }

  lemma StepPending(s: Sys, a: Action, s': Sys)
    requires PendingOk(s.sh) && Step(s, a, s')
    ensures PendingOk(s'.sh)
  {
    if Stirs(a) {
      hide IdHex, BytesHex, Raised;
    } else {
      QuietStep(s, a, s');
      hide Step;
    }
  }

  lemma PublishBalanced(s: Sys, t: nat, s': Sys)
    requires PendingOk(s.sh) && Balanced(s) && Step(s, Publish(t), s')
    ensures Balanced(s')
  {
    hide IdHex, Raised, Fulfilled, InProgress;
    var x := s.results[t];
    InProgressUpdate(s.results, t, Published(x.f));
    var id := IdHex(x.f.env.requestId);
    if Awaited(s.sh, id) {
      FulfilledUpdate(s.sh.promises, s.sh.pending[id], x.f.res);
    }
  }

  /** What a check, name or count step does to the counters. */
  lemma ResultCounts(s: Sys, a: Action, s': Sys)
    requires Step(s, a, s') && OnResult(a) && !a.Publish?
    ensures a.t < |s.results| && s'.results == s.results[a.t := s'.results[a.t]] && !s.results[a.t].Counted?
    ensures s'.sh.promises == s.sh.promises && s'.sh.duplicates == s.sh.duplicates
    ensures s'.sh.completed == s.sh.completed + if s'.results[a.t].Counted? then 1 else 0
  {
    hide IdHex, Authorized, PublicName;
  }

  lemma ResultBalanced(s: Sys, a: Action, s': Sys)
    requires PendingOk(s.sh) && Balanced(s) && Step(s, a, s') && OnResult(a)
    ensures Balanced(s')
  {
    if a.Publish? {
      PublishBalanced(s, a.t, s');
    } else {
      ResultCounts(s, a, s');
      hide Step, Fulfilled, InProgress, PendingOk;
      InProgressUpdate(s.results, a.t, s'.results[a.t]);
    }
  }

  lemma SnocUnset(ps: seq<Option<Res>>)
    ensures Fulfilled(ps + [None]) == Fulfilled(ps)
  {
    assert (ps + [None])[..|ps|] == ps;
  }

  lemma SnocArrived(rs: seq<Result>, f: Frame)
    ensures InProgress(rs + [Arrived(f)]) == InProgress(rs)
  {
    assert (rs + [Arrived(f)])[..|rs|] == rs;
  }

  lemma StepBalanced(s: Sys, a: Action, s': Sys)
    requires PendingOk(s.sh) && Balanced(s) && Step(s, a, s')
    ensures Balanced(s')
  {
    hide IdHex, BytesHex, Fulfilled, InProgress;
    if OnResult(a) {
      ResultBalanced(s, a, s');
    } else if a.Promise? {
      SnocUnset(s.sh.promises);
    } else if a.Arrive? {
      SnocArrived(s.results, a.f);
    }
  }

  lemma StepAttempts(s: Sys, a: Action, s': Sys)
    requires AttemptsOk(s) && Step(s, a, s')
    ensures AttemptsOk(s')
  {
    hide IdHex, BytesHex, Authorized, PublicName, Raised;
  }

  lemma {:induction false} ReachableCounts(tr: Trace, i: nat)
    requires Valid(tr) && i < |tr.states|
    ensures PendingOk(tr.states[i].sh) && Balanced(tr.states[i]) && AttemptsOk(tr.states[i])
  {
    if i > 0 {
      hide Step, PendingOk, Balanced, AttemptsOk;
      ReachableCounts(tr, i - 1);
      assert Step(tr.states[i - 1], tr.acts[i - 1], tr.states[i]);
      StepPending(tr.states[i - 1], tr.acts[i - 1], tr.states[i]);
      StepBalanced(tr.states[i - 1], tr.acts[i - 1], tr.states[i]);
      StepAttempts(tr.states[i - 1], tr.acts[i - 1], tr.states[i]);
    }
  }

  /** Conservation: in every reachable state `completed` is the number of
      fulfilled promises plus suppressed duplicates plus publications in
      progress, so with none in progress the two counters account for it. */
  lemma CompletedIsAccounted(tr: Trace, i: nat)
    requires Valid(tr) && i < |tr.states|
    ensures var s := tr.states[i];
            s.sh.completed == Fulfilled(s.sh.promises) + s.sh.duplicates + InProgress(s.results)
    ensures var s := tr.states[i];
            (forall t :: 0 <= t < |s.results| ==> !s.results[t].Counted?)
            ==> s.sh.completed == Fulfilled(s.sh.promises) + s.sh.duplicates
  {
    ReachableCounts(tr, i);
    if forall t :: 0 <= t < |tr.states[i].results| ==> !tr.states[i].results[t].Counted? {
      NoneInProgress(tr.states[i].results);
    }
  }

  lemma {:induction false} NoneInProgress(rs: seq<Result>)
    requires forall t :: 0 <= t < |rs| ==> !rs[t].Counted?
    ensures InProgress(rs) == 0
  {
    if rs != [] {
      NoneInProgress(rs[..|rs| - 1]);
    }
  }

  /** No two dispatches of a run carry the same attempt id. */
  lemma AttemptsDistinct(tr: Trace, i: nat, d: nat, e: nat)
    requires Valid(tr) && i < |tr.states| && d < e < |tr.states[i].sent|
    ensures tr.states[i].sent[d].attempt != tr.states[i].sent[e].attempt
  {
    ReachableCounts(tr, i);
  }

  lemma PromiseStep(s: Sys, a: Action, s': Sys, ref: nat)
    requires PendingOk(s.sh) && Step(s, a, s') && ref < |s.sh.promises|
    ensures ref < |s'.sh.promises|
    ensures s.sh.promises[ref].Some? ==> s'.sh.promises[ref] == s.sh.promises[ref]
    ensures (forall k :: k in s.sh.pending ==> s.sh.pending[k] != ref) ==>
      s'.sh.promises[ref] == s.sh.promises[ref] && forall k :: k in s'.sh.pending ==> s'.sh.pending[k] != ref
  {
    if Stirs(a) {
      hide IdHex, BytesHex, Raised, OutsideStep;
    } else {
      QuietStep(s, a, s');
      hide Step, PendingOk;
    }
  }

  /** A promise is fulfilled at most once: a value, once set, is never replaced. */
  lemma {:induction false} PromisesFulfilledOnce(tr: Trace, i: nat, j: nat, ref: nat)
    requires Valid(tr) && i <= j < |tr.states|
    requires ref < |tr.states[i].sh.promises| && tr.states[i].sh.promises[ref].Some?
    ensures ref < |tr.states[j].sh.promises| && tr.states[j].sh.promises[ref] == tr.states[i].sh.promises[ref]
  {
    hide Step, PendingOk;
    if i < j {
      PromisesFulfilledOnce(tr, i, j - 1, ref);
      ReachableCounts(tr, j - 1);
      assert Step(tr.states[j - 1], tr.acts[j - 1], tr.states[j]);
      PromiseStep(tr.states[j - 1], tr.acts[j - 1], tr.states[j], ref);
    }
  }

  ghost predicate Orphaned(sh: Shared, ref: nat) {
    ref < |sh.promises| && sh.promises[ref].None? && forall k :: k in sh.pending ==> sh.pending[k] != ref
  }
}
