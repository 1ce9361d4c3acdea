/** Where every answer of the coordinator comes from, and what its rejection
    counter counts. */
module CoordinatorAccounts {
  import opened Wire
  import opened Hex
  import opened Coordinator
  import opened CoordinatorRuns

  // ------------------------------------------------------------- rejections

  function Rejections(rs: seq<Result>): nat {
    if rs == [] then 0 else Rejections(rs[..|rs| - 1]) + if rs[|rs| - 1].Rejected? then 1 else 0
  }

  lemma {:induction false} RejectionsUpdate(rs: seq<Result>, k: nat, x: Result)
    requires k < |rs|
    ensures Rejections(rs[k := x]) + (if rs[k].Rejected? then 1 else 0) == Rejections(rs) + if x.Rejected? then 1 else 0
  {
    var n := |rs| - 1;
    if k == n {
      assert rs[k := x][..n] == rs[..n];
    } else {
      assert rs[k := x][..n] == rs[..n][k := x];
      RejectionsUpdate(rs[..n], k, x);
    }
  }

  /** A step either leaves the frames and the counter alone, adds a frame, or
      moves one frame that was not rejected and counts it if it now is. */
  lemma RejectionStep(s: Sys, a: Action, s': Sys)
    requires Step(s, a, s')
    ensures || (s'.results == s.results && s'.sh.rejected == s.sh.rejected)
            || (a.Arrive? && s'.results == s.results + [Arrived(a.f)] && s'.sh.rejected == s.sh.rejected)
            || (&& OnResult(a) && a.t < |s.results| == |s'.results| && !s.results[a.t].Rejected?
                && s'.results == s.results[a.t := s'.results[a.t]]
                && s'.sh.rejected == s.sh.rejected + if s'.results[a.t].Rejected? then 1 else 0)
  {
    hide IdHex, BytesHex, Authorized, Raised, PublicName;
  }

  /** Every rejection is counted, once: the counter is the number of rejected frames. */
  lemma {:induction false} RejectedIsAccounted(tr: Trace, i: nat)
    requires Valid(tr) && i < |tr.states|
    ensures tr.states[i].sh.rejected == Rejections(tr.states[i].results)
  {
    hide Step;
    if i > 0 {
      RejectedIsAccounted(tr, i - 1);
      var s, a, s' := tr.states[i - 1], tr.acts[i - 1], tr.states[i];
      assert Step(s, a, s');
      RejectionStep(s, a, s');
      if s'.results != s.results {
        if a.Arrive? {
          assert s'.results[..|s.results|] == s.results;
        } else {
          RejectionsUpdate(s.results, a.t, s'.results[a.t]);
        }
      }
    }
  }

  // ----------------------------------------------------- what is kept in step

  /** Failed compilations are ignored, everything further on succeeded; workers
      and channels go together. */
  predicate Sorted(x: Result) {
    match x
    case Ignored(f) => !f.ok
    case Accepted(f) => f.ok
    case Named(f, _) => f.ok
    case Counted(f, _) => f.ok
    case Published(f) => f.ok
    case _ => true
  }

  ghost predicate InStep(s: Sys) {
    s.sh.channels == s.sh.workers.Keys && forall t :: 0 <= t < |s.results| ==> Sorted(s.results[t])
  }

  lemma OtherStep(s: Sys, a: Action, s': Sys)
    requires Step(s, a, s') && !a.Register? && !a.Disconnect?
    ensures s'.sh.channels == s.sh.channels && s'.sh.workers == s.sh.workers
  {
    hide IdHex, BytesHex, Authorized, Raised, PublicName;
  }

  lemma ChannelStep(s: Sys, a: Action, s': Sys)
    requires Step(s, a, s') && s.sh.channels == s.sh.workers.Keys
    ensures s'.sh.channels == s'.sh.workers.Keys
  {
    hide ResultStep, SubmitStep;
    if !a.Register? && !a.Disconnect? {
      OtherStep(s, a, s');
      hide Step;
    }
  }

  lemma FrameStep(s: Sys, a: Action, s': Sys)
    requires Step(s, a, s') && OnResult(a) && Sorted(s.results[a.t])
    ensures Sorted(s'.results[a.t])
  {
    hide IdHex, BytesHex, Authorized, Raised, PublicName;
  }

  lemma InStepStep(s: Sys, a: Action, s': Sys)
    requires Step(s, a, s') && InStep(s)
    ensures InStep(s')
  {
    ChannelStep(s, a, s');
    RejectionStep(s, a, s');
    if OnResult(a) {
      FrameStep(s, a, s');
    }
    hide Step;
  }

  /** In every reachable state the frames that were accepted or published are
      successful ones, the ignored are failures, and exactly the registered
      workers have a channel. */
  lemma {:induction false} OnlySuccessIsPublished(tr: Trace, i: nat)
    requires Valid(tr) && i < |tr.states|
    ensures InStep(tr.states[i])
  {
    hide Step;
    if i > 0 {
      OnlySuccessIsPublished(tr, i - 1);
      assert Step(tr.states[i - 1], tr.acts[i - 1], tr.states[i]);
      hide InStep;
      InStepStep(tr.states[i - 1], tr.acts[i - 1], tr.states[i]);
    }
  }

  // ---------------------------------------------------------------- answers

  /** One step and one submission past its promise: as before, or its own step. */
  lemma SubmissionStep(s: Sys, a: Action, s': Sys, t: nat)
    requires Step(s, a, s') && t < |s'.submits| && !s'.submits[t].Decoded?
    ensures t < |s.submits|
    ensures var x, x' := s.submits[t], s'.submits[t];
            || x' == x
            || (OnSubmit(a) && a.t == t && x'.rid == x.rid && x'.key == x.key)
    ensures var x, x' := s.submits[t], s'.submits[t];
            x' != x ==>
              match x'
              case Waiting(_, _, ref) => a.Promise? && ref == |s.sh.promises|
              case Sent(_, _, ref) => a.Send? && x.Waiting? && x.ref == ref
              case Answered(_, key, reply) => AnsweredBy(s, a, x, reply)
              case _ => true
  {
    hide IdHex, BytesHex, Authorized, Raised, PublicName;
  }

  /** The reply a step gives: what is published under the key, what the awaited
      promise holds, or nothing after giving up. */
  ghost predicate AnsweredBy(s: Sys, a: Action, x: Submission, reply: Option<Res>) {
    || (a.Lookup? && BytesHex(x.key) in s.sh.published && reply == Some(s.sh.published[BytesHex(x.key)]))
    || (a.Receive? && x.Sent? && x.ref < |s.sh.promises| && reply == s.sh.promises[x.ref] && reply.Some?)
    || (a.GiveUp? && reply.None?)
  }

  /** The submission made its promise at `p`. */
  ghost predicate MadeAt(tr: Trace, p: nat, i: nat, t: nat, ref: nat)
    requires i <= |tr.acts| && |tr.states| == |tr.acts| + 1
  {
    p < i && tr.acts[p] == Promise(t) && ref == |tr.states[p].sh.promises|
  }

  lemma {:induction false} PromiseOrigin(tr: Trace, i: nat, t: nat) returns (p: nat)
    requires Valid(tr) && i < |tr.states| && t < |tr.states[i].submits|
    requires tr.states[i].submits[t].Waiting? || tr.states[i].submits[t].Sent?
    ensures MadeAt(tr, p, i, t, tr.states[i].submits[t].ref)
    ensures t < |tr.states[p].submits| && tr.states[p].submits[t].rid == tr.states[i].submits[t].rid
  {
    hide Step, AnsweredBy;
    assert Step(tr.states[i - 1], tr.acts[i - 1], tr.states[i]);
    SubmissionStep(tr.states[i - 1], tr.acts[i - 1], tr.states[i], t);
    if tr.acts[i - 1] == Promise(t) && tr.states[i - 1].submits[t] != tr.states[i].submits[t] {
      p := i - 1;
    } else {
      p := PromiseOrigin(tr, i - 1, t);
    }
  }

  lemma {:induction false} AnswerOrigin(tr: Trace, i: nat, t: nat) returns (k: nat)
    requires Valid(tr) && i < |tr.states| && t < |tr.states[i].submits| && tr.states[i].submits[t].Answered?
    ensures k < i && t < |tr.states[k].submits| && OnSubmit(tr.acts[k]) && tr.acts[k].t == t
    ensures tr.states[k].submits[t].rid == tr.states[i].submits[t].rid
    ensures AnsweredBy(tr.states[k], tr.acts[k], tr.states[k].submits[t], tr.states[i].submits[t].reply)
  {
    hide Step, AnsweredBy;
    assert Step(tr.states[i - 1], tr.acts[i - 1], tr.states[i]);
    SubmissionStep(tr.states[i - 1], tr.acts[i - 1], tr.states[i], t);
    if tr.states[i - 1].submits[t] == tr.states[i].submits[t] {
      k := AnswerOrigin(tr, i - 1, t);
    } else {
      k := i - 1;
    }
  }

  /** The publication at this step fulfils the promise `ref` with `v`. */
  ghost predicate Fulfils(s: Sys, a: Action, ref: nat, v: Res) {
    && a.Publish? && a.t < |s.results| && v == s.results[a.t].f.res
    && var id := IdHex(s.results[a.t].f.env.requestId); id in s.sh.pending && s.sh.pending[id] == ref
  }

  lemma ValueStep(s: Sys, a: Action, s': Sys, ref: nat)
    requires Step(s, a, s') && ref < |s'.sh.promises| && s'.sh.promises[ref].Some?
    ensures (ref < |s.sh.promises| && s.sh.promises[ref] == s'.sh.promises[ref]) || Fulfils(s, a, ref, s'.sh.promises[ref].value)
  {
    if Stirs(a) {
      hide IdHex, BytesHex, Raised, Authorized, OutsideStep;
    } else {
      QuietStep(s, a, s');
      hide Step, Fulfils;
    }
  }

  lemma {:induction false} ValueOrigin(tr: Trace, i: nat, ref: nat) returns (q: nat)
    requires Valid(tr) && i < |tr.states| && ref < |tr.states[i].sh.promises| && tr.states[i].sh.promises[ref].Some?
    ensures q < i && Fulfils(tr.states[q], tr.acts[q], ref, tr.states[i].sh.promises[ref].value)
  {
    hide Step, Fulfils;
    assert Step(tr.states[i - 1], tr.acts[i - 1], tr.states[i]);
    ValueStep(tr.states[i - 1], tr.acts[i - 1], tr.states[i], ref);
    if Fulfils(tr.states[i - 1], tr.acts[i - 1], ref, tr.states[i].sh.promises[ref].value) {
      q := i - 1;
    } else {
      q := ValueOrigin(tr, i - 1, ref);
    }
  }

  lemma NameStep(s: Sys, a: Action, s': Sys, id: string)
    requires Step(s, a, s') && id in s'.sh.pending
    ensures || (id in s.sh.pending && s.sh.pending[id] == s'.sh.pending[id])
            || (a.Promise? && a.t < |s.submits| && IdHex(s.submits[a.t].rid) == id && s'.sh.pending[id] == |s.sh.promises|)
  {
    if Stirs(a) {
      hide IdHex, BytesHex, Raised, Authorized, OutsideStep;
    } else {
      QuietStep(s, a, s');
      hide Step, IdHex;
    }
  }

  lemma {:induction false} NameOrigin(tr: Trace, i: nat, id: string) returns (p: nat)
    requires Valid(tr) && i < |tr.states| && id in tr.states[i].sh.pending
    ensures p < i && tr.acts[p].Promise? && tr.acts[p].t < |tr.states[p].submits|
    ensures IdHex(tr.states[p].submits[tr.acts[p].t].rid) == id && tr.states[i].sh.pending[id] == |tr.states[p].sh.promises|
  {
    hide Step, IdHex;
    assert Step(tr.states[i - 1], tr.acts[i - 1], tr.states[i]);
    NameStep(tr.states[i - 1], tr.acts[i - 1], tr.states[i], id);
    if id in tr.states[i - 1].sh.pending && tr.states[i - 1].sh.pending[id] == tr.states[i].sh.pending[id] {
      p := NameOrigin(tr, i - 1, id);
    } else {
      p := i - 1;
    }
  }

  /** Promises are only added. */
  lemma {:induction false} PromisesGrow(tr: Trace, i: nat, j: nat)
    requires Valid(tr) && i <= j < |tr.states|
    ensures |tr.states[i].sh.promises| <= |tr.states[j].sh.promises|
    ensures i < j && tr.acts[i].Promise? ==> |tr.states[i].sh.promises| < |tr.states[j].sh.promises|
    decreases j
  {
    hide Step;
    if i < j {
      PromisesGrow(tr, i, j - 1);
      assert Step(tr.states[j - 1], tr.acts[j - 1], tr.states[j]);
      PromiseCount(tr.states[j - 1], tr.acts[j - 1], tr.states[j]);
    }
  }

  lemma PromiseCount(s: Sys, a: Action, s': Sys)
    requires Step(s, a, s')
    ensures |s'.sh.promises| == |s.sh.promises| + if a.Promise? then 1 else 0
  {
    hide IdHex, BytesHex, Authorized, Raised, PublicName;
  }

  /** An answer to a submission that waited is the result of a publication under
      its own request id, made while its own promise was the pending one. */
  lemma ReceivedWasPublished(tr: Trace, k: nat, t: nat) returns (p: nat, q: nat)
    requires Valid(tr) && k < |tr.acts| && tr.acts[k] == Receive(t)
    ensures t < |tr.states[k].submits| && t < |tr.states[k + 1].submits| && tr.states[k + 1].submits[t].Answered?
    ensures p < k && q < k && tr.acts[p] == Promise(t) && tr.acts[q].Publish? && tr.acts[q].t < |tr.states[q].results|
    ensures var f := tr.states[q].results[tr.acts[q].t].f;
            && IdHex(f.env.requestId) == IdHex(tr.states[k].submits[t].rid)
            && tr.states[k + 1].submits[t].reply == Some(f.res)
  {
    hide IdHex;
    assert Step(tr.states[k], tr.acts[k], tr.states[k + 1]);
    hide Step;
    var ref := tr.states[k].submits[t].ref;
    p := PromiseOrigin(tr, k, t);
    q := ValueOrigin(tr, k, ref);
    var id := IdHex(tr.states[q].results[tr.acts[q].t].f.env.requestId);
    var m := NameOrigin(tr, q, id);
    if m < p {
      PromisesGrow(tr, m, p);
    } else if p < m {
      PromisesGrow(tr, p, m);
    }
  }
}
