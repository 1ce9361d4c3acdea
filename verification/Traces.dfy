/** Finite runs of a step system. */
module Traces {
  /** The states of a run and the actions between them. */
  datatype Trace<S, A> = Trace(states: seq<S>, acts: seq<A>)

  function Last<S, A>(tr: Trace<S, A>): S
    requires tr.states != []
  {
    tr.states[|tr.states| - 1]
  }

  function Extend<S, A>(tr: Trace<S, A>, a: A, s: S): Trace<S, A> { Trace(tr.states + [s], tr.acts + [a]) }

  ghost predicate Linked<S, A>(step: (S, A, S) -> bool, tr: Trace<S, A>) {
    |tr.states| == |tr.acts| + 1 && forall i :: 0 <= i < |tr.acts| ==> step(tr.states[i], tr.acts[i], tr.states[i + 1])
  }

  /** A run goes on with any step from its last state. */
  lemma ExtendLinked<S, A>(step: (S, A, S) -> bool, tr: Trace<S, A>, a: A, s: S)
    requires Linked(step, tr) && step(Last(tr), a, s)
    ensures Linked(step, Extend(tr, a, s)) && Last(Extend(tr, a, s)) == s
    ensures Extend(tr, a, s).states[0] == tr.states[0]
  {
    var tr' := Extend(tr, a, s);
    forall i | 0 <= i < |tr'.acts| ensures step(tr'.states[i], tr'.acts[i], tr'.states[i + 1]) {
      if i < |tr.acts| {
        assert step(tr.states[i], tr.acts[i], tr.states[i + 1]);
      }
    }
  }
}
