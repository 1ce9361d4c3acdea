/** Bounded autotuning in `CompilationFabric::compile`: which of the evaluated
    candidates wins. */
module Autotune {
  import opened Wire
  import Req = Request

  /** `perfMs` is the measured time, 0 when the module did not load. */
  datatype Candidate = Candidate(validated: bool, perfMs: real)

  predicate Measured(c: Candidate) { c.validated && c.perfMs > 0.0 }

  /** The request compiled for candidate `vi`. */
  function VariantOf(r: Req.Request, vi: nat): Req.Request {
    r.(optimizeLevel := if vi == 0 then 0 else if r.optimizeLevel < 1 then 1 else r.optimizeLevel,
       autotuneSeed := (r.autotuneSeed + vi) % TWO64)
  }

  predicate IsVariant(r: Req.Request, v: Req.Request) {
    v == r.(optimizeLevel := v.optimizeLevel, autotuneSeed := v.autotuneSeed)
  }

  /** The winner is a validated candidate whenever there is one, the fastest of
      the measured ones if any was measured (the first among equals), otherwise
      the first validated one.  `limit` is the largest double. */
  method SelectWinner(cands: seq<Candidate>, limit: real) returns (winner: int)
    requires forall i :: 0 <= i < |cands| ==> cands[i].perfMs < limit
    ensures -1 <= winner < |cands|
    ensures winner == -1 <==> forall i :: 0 <= i < |cands| ==> !cands[i].validated
    ensures winner >= 0 ==> cands[winner].validated
    ensures winner >= 0 && Measured(cands[winner]) ==>
      forall i :: 0 <= i < |cands| && Measured(cands[i]) ==>
        cands[winner].perfMs < cands[i].perfMs || (cands[winner].perfMs == cands[i].perfMs && winner <= i)
    ensures winner >= 0 && !Measured(cands[winner]) ==>
      forall i :: 0 <= i < |cands| && cands[i].validated ==> !Measured(cands[i]) && winner <= i
  {
    winner := -1;
    var best := limit;
    for vi := 0 to |cands|
      invariant -1 <= winner < vi
      invariant winner == -1 ==> best == limit && forall i :: 0 <= i < vi ==> !Measured(cands[i])
      invariant winner >= 0 ==> Measured(cands[winner]) && best == cands[winner].perfMs
      invariant winner >= 0 ==> forall i :: 0 <= i < vi && Measured(cands[i]) ==>
        best < cands[i].perfMs || (best == cands[i].perfMs && winner <= i)
    {
      if cands[vi].validated && cands[vi].perfMs > 0.0 && cands[vi].perfMs < best {
        best := cands[vi].perfMs;
        winner := vi;
      }
    }
    if winner < 0 {
      for vi := 0 to |cands|
        invariant winner == -1
        invariant forall i :: 0 <= i < vi ==> !cands[i].validated
      {
        if cands[vi].validated {
          winner := vi;
          break;
        }
      }
    }
  }

  lemma VariantsDifferOnlyInTuning(r: Req.Request, vi: nat)
    ensures IsVariant(r, VariantOf(r, vi))
    ensures vi == 0 ==> VariantOf(r, vi).optimizeLevel == 0
    ensures vi > 0 && r.optimizeLevel >= 1 ==> VariantOf(r, vi).optimizeLevel == r.optimizeLevel
    ensures vi > 0 && r.optimizeLevel <= 0 ==> VariantOf(r, vi).optimizeLevel == 1
  {
  }

  /** No two candidates share a seed; the first has the request's own. */
  lemma SeedsAreDistinct(r: Req.Request, i: nat, j: nat)
    requires i < j < TWO64
    ensures VariantOf(r, 0).autotuneSeed == r.autotuneSeed
    ensures VariantOf(r, i).autotuneSeed != VariantOf(r, j).autotuneSeed
    ensures r.autotuneSeed + j < TWO64 ==> VariantOf(r, j).autotuneSeed == r.autotuneSeed + j
  {
    var a, b := r.autotuneSeed + i, r.autotuneSeed + j;
    assert a < 2 * TWO64 && b < 2 * TWO64;
    assert a % TWO64 == if a < TWO64 then a else a - TWO64;
    assert b % TWO64 == if b < TWO64 then b else b - TWO64;
  }
}
