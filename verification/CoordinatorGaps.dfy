/** A concrete run that marks the limit of the coordinator's authority check. */
module CoordinatorGaps {
  import opened Wire
  import opened Key
  import opened Hex
  import opened Coordinator
  import opened CoordinatorRuns
  import T = Traces

  lemma ExtendValid(tr: Trace, a: Action, s: Sys)
    requires tr.states != [] && Valid(tr) && Step(T.Last(tr), a, s)
    ensures T.Extend(tr, a, s).states != []
    ensures Valid(T.Extend(tr, a, s)) && T.Last(T.Extend(tr, a, s)) == s
  {
    hide Step;
    T.ExtendLinked((x: Sys, b: Action, y: Sys) => Step(x, b, y), tr, a, s);
  }

  function EnvelopeOf(rid: Id128, boot: Id128, artifact: Id128): Envelope {
    Envelope(1, 7, boot, 1, 1, rid, 1, artifact, 1)
  }

  function Stage(boot: Id128): Shared {
    Start(1, 1, 1).(workers := map[7 := Worker(Some(IdHex(boot)), "cpu")], channels := {7})
  }

  lemma InitialRun() returns (tr: Trace)
    ensures tr.states != [] && Valid(tr) && T.Last(tr) == Sys(Start(1, 1, 1), [], [], [])
  {
    tr := T.Trace([Sys(Start(1, 1, 1), [], [], [])], []);
  }

  /** One worker, one submission that is not in the published map. */
  lemma SubmissionMissed(rid: Id128, key: Digest, boot: Id128) returns (tr: Trace)
    ensures tr.states != [] && Valid(tr)
    ensures T.Last(tr) == Sys(Stage(boot).(reqToKey := map[IdHex(rid) := BytesHex(key)]), [], [Missed(rid, key)], [])
  {
    hide IdHex, BytesHex, Valid, T.Extend;
    tr := InitialRun();
    var s := Sys(Stage(boot), [], [], []);
    ExtendValid(tr, Register(7, Worker(Some(IdHex(boot)), "cpu")), s);
    tr := T.Extend(tr, Register(7, Worker(Some(IdHex(boot)), "cpu")), s);
    s := Sys(Stage(boot), [], [Decoded(rid, key)], []);
    ExtendValid(tr, Submit(rid, key), s);
    tr := T.Extend(tr, Submit(rid, key), s);
    var sh := Stage(boot).(reqToKey := map[IdHex(rid) := BytesHex(key)]);
    s := Sys(sh, [], [Mapped(rid, key)], []);
    ExtendValid(tr, Map(0), s);
    tr := T.Extend(tr, Map(0), s);
    s := Sys(sh, [], [Missed(rid, key)], []);
    ExtendValid(tr, Lookup(0), s);
    tr := T.Extend(tr, Lookup(0), s);
  }

  /** The submission has been dispatched. */
  lemma Dispatched(rid: Id128, key: Digest, boot: Id128) returns (tr: Trace)
    ensures tr.states != [] && Valid(tr)
    ensures var id, name := IdHex(rid), BytesHex(key);
            T.Last(tr) == Sys(Stage(boot).(reqToKey := map[id := name], promises := [None], pending := map[id := 0], dispatched := 1),
                            [], [Sent(rid, key, 0)], [Dispatch(rid, name, 1)])
  {
    hide IdHex, BytesHex, Valid, T.Extend;
    var id, name := IdHex(rid), BytesHex(key);
    tr := SubmissionMissed(rid, key, boot);
    var sh := T.Last(tr).sh.(promises := [None], pending := map[id := 0]);
    var s := Sys(sh, [], [Waiting(rid, key, 0)], []);
    ExtendValid(tr, Promise(0), s);
    tr := T.Extend(tr, Promise(0), s);
    s := Sys(sh.(dispatched := 1), [], [Sent(rid, key, 0)], [Dispatch(rid, name, 1)]);
    ExtendValid(tr, Send(0), s);
    tr := T.Extend(tr, Send(0), s);
  }

  /** Check and publication are separate regions: an epoch that rolls over
      after its comparison does not stop a frame of the old epoch from being
      published.  `CoordinatorLimits.PublishedThoughBarred` says exactly when
      that happens; this is one such run. */
  lemma LateBumpDoesNotStopPublication(rid: Id128, key: Digest, boot: Id128, artifact: Id128, body: Bytes) returns (tr: Trace)
    ensures tr.states != [] && Valid(tr)
    ensures var s := T.Last(tr);
            && |s.results| == 1 && s.results[0].Published?
            && s.results[0].f.env.epoch < s.sh.epoch
            && BytesHex(key) in s.sh.published && s.sh.published[BytesHex(key)].body == body
  {
    hide IdHex, BytesHex, Valid, T.Extend;
    tr := Dispatched(rid, key, boot);
    var base := T.Last(tr);
    var name := BytesHex(key);
    var e := EnvelopeOf(rid, boot, artifact);
    var f := Frame(e, true, Res(name, body));
    var s := base.(results := [Arrived(f)]);
    ExtendValid(tr, Arrive(f), s);
    tr := T.Extend(tr, Arrive(f), s);
    s := base.(results := [EpochOk(f)]);
    ExtendValid(tr, CheckEpoch(0), s);
    tr := T.Extend(tr, CheckEpoch(0), s);
    s := base.(results := [CacheOk(f)]);
    ExtendValid(tr, CheckCache(0), s);
    tr := T.Extend(tr, CheckCache(0), s);
    s := base.(results := [GensOk(f)]);
    ExtendValid(tr, CheckToolchain(0), s);
    tr := T.Extend(tr, CheckToolchain(0), s);
    s := base.(results := [Accepted(f)]);
    ExtendValid(tr, CheckLocked(0), s);
    tr := T.Extend(tr, CheckLocked(0), s);
    tr := FinishLate(tr, base, f, name);
  }

  lemma PublicationHolds(sh: Shared, e: Envelope, name: string, res: Res)
    ensures Publication(sh, e, name, res).epoch == sh.epoch
    ensures name in Publication(sh, e, name, res).published && Publication(sh, e, name, res).published[name] == res
  {
  }

  lemma FinishLate(tr0: Trace, base: Sys, f: Frame, name: string) returns (tr: Trace)
    requires tr0.states != [] && Valid(tr0) && T.Last(tr0) == base.(results := [Accepted(f)])
    requires PublicName(base.sh.(epoch := base.sh.epoch + 1), f.env) == name && f.env.epoch <= base.sh.epoch
    ensures tr.states != [] && Valid(tr)
    ensures var s := T.Last(tr);
            && |s.results| == 1 && s.results[0] == Published(f) && s.results[0].f.env.epoch < s.sh.epoch
            && name in s.sh.published && s.sh.published[name] == f.res
  {
    hide IdHex, BytesHex, Publication, PublicName, Valid, T.Extend;
    tr := tr0;
    var sh := base.sh.(epoch := base.sh.epoch + 1);
    var s := base.(sh := sh, results := [Accepted(f)]);
    ExtendValid(tr, RollEpoch, s);
    tr := T.Extend(tr, RollEpoch, s);
    s := base.(sh := sh, results := [Named(f, name)]);
    ExtendValid(tr, Name(0), s);
    tr := T.Extend(tr, Name(0), s);
    sh := sh.(completed := sh.completed + 1);
    s := base.(sh := sh, results := [Counted(f, name)]);
    ExtendValid(tr, Count(0), s);
    tr := T.Extend(tr, Count(0), s);
    PublicationHolds(sh, f.env, name, f.res);
    sh := Publication(sh, f.env, name, f.res);
    s := base.(sh := sh, results := [Published(f)]);
    ExtendValid(tr, Publish(0), s);
    tr := T.Extend(tr, Publish(0), s);
  }
}
