/** What the coordinator's published map can hold, over whole runs. */
module CoordinatorCache {
  import opened Wire
  import opened Hex
  import opened Coordinator
  import opened CoordinatorRuns

  // --------------------------------------------- names, for every run

  predicate Past(x: Submission) { !x.Decoded? }

  /** Names of keys have 64 characters and names of requests 32. */
  ghost predicate NamesOk(s: Sys) {
    && (forall k :: k in s.sh.pending ==> k in s.sh.reqToKey)
    && (forall k :: k in s.sh.reqToKey ==> |s.sh.reqToKey[k]| == 64)
    && (forall k :: k in s.sh.published ==> |k| == 64)
    && (forall t :: 0 <= t < |s.submits| && Past(s.submits[t]) ==> IdHex(s.submits[t].rid) in s.sh.reqToKey)
    && (forall t :: 0 <= t < |s.results| ==> ResultNamed(s.sh, s.results[t]))
  }

  predicate ResultNamed(sh: Shared, x: Result) {
    && (x.Accepted? ==> IdHex(x.f.env.requestId) in sh.reqToKey)
    && (x.Named? || x.Counted? ==> |x.name| == 64)
  }

  lemma OutsideNames(s: Sys, a: Action, s': Sys)
    requires NamesOk(s) && Step(s, a, s') && !OnResult(a) && !OnSubmit(a)
    ensures NamesOk(s')
  {
    hide IdHex, BytesHex;
    forall t | 0 <= t < |s'.results| ensures ResultNamed(s'.sh, s'.results[t]) {
      if t < |s.results| { assert ResultNamed(s.sh, s.results[t]); }
    }
  }

  lemma SubmitNames(s: Sys, a: Action, s': Sys)
    requires NamesOk(s) && Step(s, a, s') && OnSubmit(a)
    ensures NamesOk(s')
  {
    hide IdHex, BytesHex;
    forall t | 0 <= t < |s'.results| ensures ResultNamed(s'.sh, s'.results[t]) {
      assert ResultNamed(s.sh, s.results[t]);
    }
  }

  /** What a check, name or count step of one frame leaves unchanged. */
  lemma ResultShape(s: Sys, a: Action, s': Sys)
    requires Step(s, a, s') && OnResult(a) && !a.Publish?
    ensures a.t < |s.results| && s'.results == s.results[a.t := s'.results[a.t]]
    ensures s'.submits == s.submits && s'.sent == s.sent && s'.sh.published == s.sh.published
    ensures SameView(s.sh, s'.sh)
    ensures var x, x' := s.results[a.t], s'.results[a.t];
            && x'.f == x.f
            && (x'.Accepted? ==> IdHex(x.f.env.requestId) in s.sh.pending)
            && (x'.Named? ==> x.Accepted? && x'.name == PublicName(s.sh, x.f.env))
            && (x'.Counted? ==> x.Named? && x'.name == x.name)
  {
    hide IdHex, PublicName, Recorded;
  }

  lemma ResultNames(s: Sys, a: Action, s': Sys)
    requires NamesOk(s) && Step(s, a, s') && OnResult(a)
    ensures NamesOk(s')
  {
    if a.Publish? {
      PublishNames(s, a.t, s');
    } else {
      ResultShape(s, a, s');
      hide IdHex, Step;
      assert ResultNamed(s.sh, s.results[a.t]);
      forall t | 0 <= t < |s'.results| ensures ResultNamed(s'.sh, s'.results[t]) {
        assert ResultNamed(s.sh, s.results[t]);
      }
    }
  }

  lemma PublishNames(s: Sys, t: nat, s': Sys)
    requires NamesOk(s) && Step(s, Publish(t), s')
    ensures NamesOk(s')
  {
    hide IdHex, BytesHex, Raised;
    assert ResultNamed(s.sh, s.results[t]);
    forall u | 0 <= u < |s'.results| ensures ResultNamed(s'.sh, s'.results[u]) {
      assert ResultNamed(s.sh, s.results[u]);
    }
  }

  lemma {:induction false} ReachableNames(tr: Trace, i: nat)
    requires Valid(tr) && i < |tr.states|
    ensures NamesOk(tr.states[i])
  {
    if i > 0 {
      hide Step, NamesOk;
      ReachableNames(tr, i - 1);
      assert Step(tr.states[i - 1], tr.acts[i - 1], tr.states[i]);
      if OnResult(tr.acts[i - 1]) {
        ResultNames(tr.states[i - 1], tr.acts[i - 1], tr.states[i]);
      } else if OnSubmit(tr.acts[i - 1]) {
        SubmitNames(tr.states[i - 1], tr.acts[i - 1], tr.states[i]);
      } else {
        OutsideNames(tr.states[i - 1], tr.acts[i - 1], tr.states[i]);
      }
    }
  }

  /** Invalidate erases by request id, but every entry of every reachable state
      is stored under a key: the frame never changes anything. */
  lemma InvalidateIsNoOp(tr: Trace, i: nat)
    requires Valid(tr) && i < |tr.acts| && tr.acts[i].Invalidate?
    ensures tr.states[i + 1] == tr.states[i]
  {
    ReachableNames(tr, i);
    assert Step(tr.states[i], tr.acts[i], tr.states[i + 1]);
    var id := IdHex(tr.acts[i].rid);
    hide IdHex;
    assert id !in tr.states[i].sh.published;
    assert tr.states[i].sh.published - {id} == tr.states[i].sh.published;
  }

  // --------------------------------------------- agreement, for honest runs

  /** Workers answer a dispatched request with a result computed for it, and a
      request id always comes with the same key. */
  ghost predicate Honest(s: Sys, a: Action) {
    && (a.Arrive? ==> exists d :: d in s.sent && d.rid == a.f.env.requestId && d.key == a.f.res.key)
    && (a.Submit? ==> forall t :: 0 <= t < |s.submits| && s.submits[t].rid == a.rid ==> s.submits[t].key == a.key)
  }

  /** The request is mapped to this key. */
  predicate Maps(sh: Shared, rid: Id128, key: string) {
    IdHex(rid) in sh.reqToKey && sh.reqToKey[IdHex(rid)] == key
  }

  ghost predicate SubmissionOk(sh: Shared, x: Submission) {
    && (Past(x) ==> Maps(sh, x.rid, BytesHex(x.key)))
    && (x.Waiting? || x.Sent? ==> RefOk(sh, x.rid, BytesHex(x.key), x.ref))
    && (x.Answered? && x.reply.Some? ==> x.reply.value.key == BytesHex(x.key))
  }

  /** The promise is awaited under its request only, and holds what its key asks for. */
  ghost predicate RefOk(sh: Shared, rid: Id128, key: string, ref: nat) {
    && ref < |sh.promises|
    && (sh.promises[ref].Some? ==> sh.promises[ref].value.key == key)
    && (forall k :: k in sh.pending && sh.pending[k] == ref ==> k == IdHex(rid))
  }

  predicate ResultOk(sh: Shared, x: Result) {
    && Maps(sh, x.f.env.requestId, x.f.res.key)
    && (x.Named? || x.Counted? ==> x.name == x.f.res.key)
  }

  ghost predicate SubmitsOk(s: Sys) {
    && (forall t :: 0 <= t < |s.submits| ==> SubmissionOk(s.sh, s.submits[t]))
    && (forall t, u :: 0 <= t < u < |s.submits| && s.submits[t].rid == s.submits[u].rid ==> s.submits[t].key == s.submits[u].key)
  }

  /** Every mapping was made by a submission. */
  ghost predicate MappedBySubmission(s: Sys) {
    forall k :: k in s.sh.reqToKey ==> exists t :: 0 <= t < |s.submits| && MadeBy(s.submits[t], k, s.sh.reqToKey[k])
  }

  predicate MadeBy(x: Submission, id: string, name: string) { IdHex(x.rid) == id && BytesHex(x.key) == name }

  ghost predicate Agrees(s: Sys) {
    && PendingOk(s.sh) && SubmitsOk(s)
    && (forall k :: k in s.sh.published ==> s.sh.published[k].key == k)
    && (forall d :: d in s.sent ==> Maps(s.sh, d.rid, d.key))
    && (forall t :: 0 <= t < |s.results| ==> ResultOk(s.sh, s.results[t]))
  }

  /** Parts of the shared state that submissions and results look at. */
  predicate SameView(sh: Shared, sh': Shared) {
    sh'.reqToKey == sh.reqToKey && sh'.pending == sh.pending && sh'.promises == sh.promises
  }

  lemma OutsideAgrees(s: Sys, a: Action, s': Sys)
    requires Agrees(s) && Step(s, a, s') && Honest(s, a) && !OnResult(a) && !OnSubmit(a)
    ensures Agrees(s')
  {
    hide IdHex, BytesHex;
    assert SameView(s.sh, s'.sh);
    forall t | 0 <= t < |s'.submits| ensures SubmissionOk(s'.sh, s'.submits[t]) {
      if t < |s.submits| { assert SubmissionOk(s.sh, s.submits[t]); }
    }
    forall t | 0 <= t < |s'.results| ensures ResultOk(s'.sh, s'.results[t]) {
      if t < |s.results| { assert ResultOk(s.sh, s.results[t]); }
    }
  }

  lemma MappedKept(s: Sys, s': Sys)
    requires MappedBySubmission(s) && s'.sh.reqToKey == s.sh.reqToKey && |s.submits| <= |s'.submits|
    requires forall t :: 0 <= t < |s.submits| ==> s'.submits[t].rid == s.submits[t].rid && s'.submits[t].key == s.submits[t].key
    ensures MappedBySubmission(s')
  {
    hide IdHex, BytesHex;
    forall k | k in s'.sh.reqToKey
      ensures exists t :: 0 <= t < |s'.submits| && MadeBy(s'.submits[t], k, s'.sh.reqToKey[k])
    {
      var t :| 0 <= t < |s.submits| && MadeBy(s.submits[t], k, s.sh.reqToKey[k]);
      assert MadeBy(s'.submits[t], k, s'.sh.reqToKey[k]);
    }
  }

  lemma ResultAgrees(s: Sys, a: Action, s': Sys)
    requires Agrees(s) && Step(s, a, s') && OnResult(a) && !a.Publish?
    ensures Agrees(s')
  {
    ResultShape(s, a, s');
    hide IdHex, BytesHex, Step;
    assert ResultOk(s.sh, s.results[a.t]);
    forall t | 0 <= t < |s'.submits| ensures SubmissionOk(s'.sh, s'.submits[t]) {
      assert SubmissionOk(s.sh, s.submits[t]);
    }
    forall t | 0 <= t < |s'.results| ensures ResultOk(s'.sh, s'.results[t]) {
      assert ResultOk(s.sh, s.results[t]);
    }
  }

  lemma PublishAgrees(s: Sys, t: nat, s': Sys)
    requires Agrees(s) && Step(s, Publish(t), s')
    ensures Agrees(s')
  {
    StepPending(s, Publish(t), s');
    hide BytesHex, Raised, PendingOk;
    assert ResultOk(s.sh, s.results[t]);
    forall u | 0 <= u < |s'.results| ensures ResultOk(s'.sh, s'.results[u]) {
      assert ResultOk(s.sh, s.results[u]);
    }
    forall u | 0 <= u < |s'.submits| ensures SubmissionOk(s'.sh, s'.submits[u]) {
      PublishSubmission(s.sh, s.results[t], s.submits[u]);
    }
  }

  lemma PublishSubmission(sh: Shared, r: Result, x: Submission)
    requires r.Counted? && ResultOk(sh, r) && SubmissionOk(sh, x)
    ensures SubmissionOk(Publication(sh, r.f.env, r.name, r.f.res), x)
  {
    hide BytesHex, Raised;
    IdHexInjective(r.f.env.requestId, x.rid);
    hide IdHex;
  }

  /** Mapping a request again never changes what it maps to. */
  lemma MapIsStable(s: Sys, t: nat)
    requires Agrees(s) && MappedBySubmission(s) && t < |s.submits| && IdHex(s.submits[t].rid) in s.sh.reqToKey
    ensures s.sh.reqToKey[IdHex(s.submits[t].rid)] == BytesHex(s.submits[t].key)
  {
    var k := IdHex(s.submits[t].rid);
    var u :| 0 <= u < |s.submits| && MadeBy(s.submits[u], k, s.sh.reqToKey[k]);
    IdHexInjective(s.submits[u].rid, s.submits[t].rid);
    hide IdHex, BytesHex, PendingOk, SubmissionOk;
  }

  /** What a submission step does to the shared state. */
  lemma SubmitShape(s: Sys, a: Action, s': Sys)
    requires Step(s, a, s') && OnSubmit(a)
    ensures var x := s.submits[a.t]; var id := IdHex(x.rid);
            && a.t < |s.submits| && s'.submits == s.submits[a.t := s'.submits[a.t]]
            && s'.submits[a.t].rid == x.rid && s'.submits[a.t].key == x.key
            && s'.results == s.results && s'.sh.published == s.sh.published
            && (s'.sent == s.sent || (Past(x) && s'.sent == s.sent + [Dispatch(x.rid, BytesHex(x.key), s.sh.dispatched + 1)]))
            && (s'.sh.reqToKey == s.sh.reqToKey || s'.sh.reqToKey == s.sh.reqToKey[id := BytesHex(x.key)])
            && (forall k :: k in s'.sh.pending ==>
                  (k in s.sh.pending && s'.sh.pending[k] == s.sh.pending[k]) || (k == id && s'.sh.pending[k] == |s.sh.promises|))
            && |s.sh.promises| <= |s'.sh.promises| && s'.sh.promises[..|s.sh.promises|] == s.sh.promises
  {
    hide IdHex, BytesHex;
  }

  lemma SubmitMaps(s: Sys, a: Action, s': Sys, rid: Id128, key: string)
    requires Agrees(s) && MappedBySubmission(s) && Step(s, a, s') && OnSubmit(a) && Maps(s.sh, rid, key)
    ensures Maps(s'.sh, rid, key)
  {
    hide Agrees, MappedBySubmission, Step;
    SubmitShape(s, a, s');
    if IdHex(s.submits[a.t].rid) in s.sh.reqToKey {
      MapIsStable(s, a.t);
    }
    hide BytesHex, IdHex;
  }

  /** A submission other than the mover is not disturbed. */
  lemma SubmitOther(s: Sys, a: Action, s': Sys, u: nat)
    requires Agrees(s) && MappedBySubmission(s) && Step(s, a, s') && OnSubmit(a)
    requires u < |s.submits| && u != a.t
    ensures SubmissionOk(s'.sh, s.submits[u])
  {
    hide MappedBySubmission, Step;
    var y := s.submits[u];
    assert SubmissionOk(s.sh, y);
    SubmitShape(s, a, s');
    if Past(y) {
      SubmitMaps(s, a, s', y.rid, BytesHex(y.key));
    }
    hide BytesHex, IdHex, Agrees, Maps;
    if y.Waiting? || y.Sent? {
      assert s'.sh.promises[y.ref] == s'.sh.promises[..|s.sh.promises|][y.ref];
    }
  }

  lemma SubmitSelf(s: Sys, a: Action, s': Sys)
    requires Agrees(s) && Step(s, a, s') && OnSubmit(a)
    ensures SubmissionOk(s'.sh, s'.submits[a.t])
  {
    hide BytesHex, IdHex;
    assert SubmissionOk(s.sh, s.submits[a.t]);
  }

  lemma SubmitMapping(s: Sys, a: Action, s': Sys)
    requires Step(s, a, s') && OnSubmit(a)
    ensures a.t < |s.submits| && s'.submits == s.submits[a.t := s'.submits[a.t]]
    ensures var x := s.submits[a.t];
            && s'.submits[a.t].rid == x.rid && s'.submits[a.t].key == x.key
            && (s'.sh.reqToKey == s.sh.reqToKey || s'.sh.reqToKey == s.sh.reqToKey[IdHex(x.rid) := BytesHex(x.key)])
  {
    hide IdHex, BytesHex;
  }

  lemma SubmitMapped(s: Sys, a: Action, s': Sys)
    requires MappedBySubmission(s) && Step(s, a, s') && OnSubmit(a)
    ensures MappedBySubmission(s')
  {
    SubmitMapping(s, a, s');
    hide BytesHex, IdHex, Step, MappedBySubmission;
    if s'.sh.reqToKey == s.sh.reqToKey {
      MappedKept(s, s');
    } else {
      var mid := s'.(sh := s'.sh.(reqToKey := s.sh.reqToKey));
      MappedKept(s, mid);
      MapAdds(mid, a.t, s'.sh.reqToKey);
    }
  }

  lemma MapAdds(s: Sys, t: nat, m: map<string, string>)
    requires MappedBySubmission(s) && t < |s.submits|
    requires m == s.sh.reqToKey[IdHex(s.submits[t].rid) := BytesHex(s.submits[t].key)]
    ensures MappedBySubmission(s.(sh := s.sh.(reqToKey := m)))
  {
    hide IdHex, BytesHex;
    var s' := s.(sh := s.sh.(reqToKey := m));
    forall k | k in m ensures exists u :: 0 <= u < |s'.submits| && MadeBy(s'.submits[u], k, m[k]) {
      if k == IdHex(s.submits[t].rid) {
        assert MadeBy(s'.submits[t], k, m[k]);
      } else {
        var u :| 0 <= u < |s.submits| && MadeBy(s.submits[u], k, s.sh.reqToKey[k]);
        assert MadeBy(s'.submits[u], k, m[k]);
      }
    }
  }

  lemma OutsideKeepsMapping(s: Sys, a: Action, s': Sys)
    requires Step(s, a, s') && !OnSubmit(a)
    ensures s'.sh.reqToKey == s.sh.reqToKey && |s.submits| <= |s'.submits| && s'.submits[..|s.submits|] == s.submits
  {
    hide IdHex, BytesHex, Authorized, PublicName, Raised;
  }

  lemma StepMapped(s: Sys, a: Action, s': Sys)
    requires MappedBySubmission(s) && Step(s, a, s')
    ensures MappedBySubmission(s')
  {
    hide MappedBySubmission, Step;
    if OnSubmit(a) {
      SubmitMapped(s, a, s');
    } else {
      OutsideKeepsMapping(s, a, s');
      assert forall t :: 0 <= t < |s.submits| ==> s'.submits[t] == s'.submits[..|s.submits|][t];
      MappedKept(s, s');
    }
  }

  lemma SubmitResults(s: Sys, a: Action, s': Sys, t: nat)
    requires Agrees(s) && MappedBySubmission(s) && Step(s, a, s') && OnSubmit(a) && t < |s.results|
    ensures ResultOk(s'.sh, s.results[t])
  {
    hide MappedBySubmission, Step, SubmitsOk, PendingOk;
    assert ResultOk(s.sh, s.results[t]);
    SubmitMaps(s, a, s', s.results[t].f.env.requestId, s.results[t].f.res.key);
  }

  lemma SubmitSent(s: Sys, a: Action, s': Sys, d: Dispatch)
    requires Agrees(s) && MappedBySubmission(s) && Step(s, a, s') && OnSubmit(a) && d in s'.sent
    ensures Maps(s'.sh, d.rid, d.key)
  {
    hide MappedBySubmission, Step, PendingOk;
    SubmitShape(s, a, s');
    assert SubmissionOk(s.sh, s.submits[a.t]);
    assert d in s.sent || (Past(s.submits[a.t]) && d.rid == s.submits[a.t].rid && d.key == BytesHex(s.submits[a.t].key));
    hide IdHex, BytesHex, RefOk;
    assert Maps(s.sh, d.rid, d.key);
    SubmitMaps(s, a, s', d.rid, d.key);
  }

  lemma SubmitSubmits(s: Sys, a: Action, s': Sys)
    requires Agrees(s) && MappedBySubmission(s) && Step(s, a, s') && OnSubmit(a)
    ensures SubmitsOk(s')
  {
    hide Step, MappedBySubmission, SubmissionOk, PendingOk;
    SubmitShape(s, a, s');
    SubmitSelf(s, a, s');
    forall u | 0 <= u < |s'.submits| ensures SubmissionOk(s'.sh, s'.submits[u]) {
      if u != a.t { SubmitOther(s, a, s', u); }
    }
  }

  lemma SubmitAgrees(s: Sys, a: Action, s': Sys)
    requires Agrees(s) && MappedBySubmission(s) && Step(s, a, s') && OnSubmit(a)
    ensures Agrees(s')
  {
    hide Step, MappedBySubmission, SubmitsOk, PendingOk, ResultOk, Maps, IdHex, BytesHex;
    StepPending(s, a, s');
    SubmitShape(s, a, s');
    SubmitSubmits(s, a, s');
    forall t | 0 <= t < |s'.results| ensures ResultOk(s'.sh, s'.results[t]) {
      SubmitResults(s, a, s', t);
    }
    forall d | d in s'.sent ensures Maps(s'.sh, d.rid, d.key) {
      SubmitSent(s, a, s', d);
    }
  }

  ghost predicate HonestRun(tr: Trace) {
    Valid(tr) && forall i :: 0 <= i < |tr.acts| ==> Honest(tr.states[i], tr.acts[i])
  }

  lemma {:induction false} ReachableAgrees(tr: Trace, i: nat)
    requires HonestRun(tr) && i < |tr.states|
    ensures Agrees(tr.states[i]) && MappedBySubmission(tr.states[i])
  {
    if i > 0 {
      hide Step, Agrees, Honest, MappedBySubmission;
      ReachableAgrees(tr, i - 1);
      var s, a, s' := tr.states[i - 1], tr.acts[i - 1], tr.states[i];
      assert Step(s, a, s') && Honest(s, a);
      StepMapped(s, a, s');
      if a.Publish? {
        PublishAgrees(s, a.t, s');
      } else if OnResult(a) {
        ResultAgrees(s, a, s');
      } else if OnSubmit(a) {
        SubmitAgrees(s, a, s');
      } else {
        OutsideAgrees(s, a, s');
      }
    }
  }

  /** Cache agreement: in an honest run every entry published under a key was
      computed for that key, and so was every reply a client received, from the
      published map or from its promise. */
  lemma PublishedAgreesWithKey(tr: Trace, i: nat)
    requires HonestRun(tr) && i < |tr.states|
    ensures forall k :: k in tr.states[i].sh.published ==> tr.states[i].sh.published[k].key == k
    ensures forall t :: 0 <= t < |tr.states[i].submits| && tr.states[i].submits[t].Answered? && tr.states[i].submits[t].reply.Some? ==>
      tr.states[i].submits[t].reply.value.key == BytesHex(tr.states[i].submits[t].key)
  {
    hide Valid, IdHex, BytesHex;
    ReachableAgrees(tr, i);
    assert forall t :: 0 <= t < |tr.states[i].submits| ==> SubmissionOk(tr.states[i].sh, tr.states[i].submits[t]);
  }
}
