/** The reuse decision of src/Compatibility.cpp. */
module Compatibility {
  import opened Wire
  import opened Canonical
  import opened Key
  import Lifecycle

  datatype Outcome =
    | ExactReusable | ReusableWithRuntimeValidation | ReusableAcrossEquivalentTarget
    | SourceChange | IRChange | CompilerChange | BackendChange | OptimizerChange
    | ArchitectureChange | ABIChange | DatatypeChange | LayoutChange | ShapeChange
    | QuantizationChange | PrecisionChange | SpecializationChange | DependencyGeneration
    | InvalidArtifact | StaleArtifact | CorruptArtifact

  datatype Reason =
    | NoReason | SourceChanged | IRChanged | CompilerChanged | BackendChanged | OptimizerChanged
    | ArchitectureChanged | ABIChanged | DatatypeChanged | LayoutChanged | ShapeChanged
    | QuantizationChanged | PrecisionChanged | SpecializationChanged | DependencyGenerationChanged
    | ToolchainGenerationChanged | RuntimeGenerationChanged | EquivalentTarget
    | Invalid | Stale | Corrupt | PolicyReason | EnvironmentFingerprint

  datatype Decision = Decision(outcome: Outcome, reusable: bool, reasons: seq<Reason>)

  datatype Policy = Policy(allowEquivalentTarget: bool, strictEnvironment: bool)

  const DEFAULT_POLICY := Policy(false, true)

  /** The state string of a descriptor: a lifecycle name, "Invalid", empty or anything else. */
  datatype StateName = Named(state: Lifecycle.State) | InvalidName | NoName | OtherName(text: string)

  const DEPLOYABLE := Named(Lifecycle.Deployable)
  const INVALIDATED := Named(Lifecycle.Invalidated)
  const SUPERSEDED := Named(Lifecycle.Superseded)

  function ReasonFor(tag: Byte): Reason {
    if tag in {1, 2, 3, 56} then SourceChanged
    else if tag in {4, 5, 6, 57} then IRChanged
    else if 7 <= tag <= 10 then CompilerChanged
    else if 11 <= tag <= 12 then BackendChanged
    else if 13 <= tag <= 17 then OptimizerChanged
    else if tag in {18, 19, 52} then RuntimeGenerationChanged
    else if 20 <= tag <= 26 then ArchitectureChanged
    else if 27 <= tag <= 30 then ABIChanged
    else if tag == 32 then DatatypeChanged
    else if tag == 33 then LayoutChanged
    else if 34 <= tag <= 36 then ShapeChanged
    else if 37 <= tag <= 38 then QuantizationChanged
    else if tag == 39 then PrecisionChanged
    else if tag == 48 then EnvironmentFingerprint
    else if 49 <= tag <= 50 then DependencyGenerationChanged
    else if tag == 53 then ToolchainGenerationChanged
    else if 54 <= tag <= 55 then PolicyReason
    else SpecializationChanged
  }

  // ----------------------------------------------------------- field diffs

  datatype FieldDiff = FieldDiff(tag: Byte, artifact: Option<Bytes>, request: Option<Bytes>)

  /** The last field with the tag, as the inner loops of `fieldDiffs` find it. */
  function LookupLast(f: seq<Entry>, t: Byte): Option<Bytes> {
    if f == [] then None
    else if f[|f| - 1].tag == t then Some(f[|f| - 1].value)
    else LookupLast(f[..|f| - 1], t)
  }

  function DiffAt(a: seq<Entry>, b: seq<Entry>, t: Byte): seq<FieldDiff> {
    var x, y := LookupLast(a, t), LookupLast(b, t);
    if x == y then [] else [FieldDiff(t, x, y)]
  }

  /** The differing tags below `n`, ascending. */
  function DiffsBelow(a: seq<Entry>, b: seq<Entry>, n: nat): (r: seq<FieldDiff>)
    requires n <= 256
    ensures forall i :: 0 <= i < |r| ==> r[i].tag < n
    decreases n, a
  {
    if n == 0 then [] else DiffsBelow(a, b, n - 1) + DiffAt(a, b, n - 1)
  }

  function Diffs(a: seq<Entry>, b: seq<Entry>): seq<FieldDiff> { DiffsBelow(a, b, 256) }

  method FindLast(f: seq<Entry>, t: Byte) returns (r: Option<Bytes>)
    ensures r == LookupLast(f, t)
  {
    r := None;
    for i := 0 to |f|
      invariant r == LookupLast(f[..i], t)
    {
      assert f[..i + 1][..i] == f[..i];
      if f[i].tag == t { r := Some(f[i].value); }
    }
    assert f[..|f|] == f;
  }

  method CollectTags(f: seq<Entry>, acc: set<Byte>) returns (tags: set<Byte>)
    ensures tags == acc + Tags(f)
  {
    tags := acc;
    for i := 0 to |f|
      invariant tags == acc + Tags(f[..i])
    {
      assert f[..i + 1] == f[..i] + [f[i]];
      TagsSnoc(f[..i], f[i]);
      tags := tags + {f[i].tag};
    }
    assert f[..|f|] == f;
  }

  lemma TagsSnoc(f: seq<Entry>, e: Entry)
    ensures Tags(f + [e]) == Tags(f) + {e.tag}
  {
    var g := f + [e];
    forall t | t in Tags(f) + {e.tag} ensures t in Tags(g) {
      if t in Tags(f) {
        var i :| 0 <= i < |f| && f[i].tag == t;
        assert g[i].tag == t;
      } else {
        assert g[|f|].tag == t;
      }
    }
  }

  /** `fieldDiffs`: visits the tags of either key in ascending order. */
  method FieldDiffs(a: seq<Entry>, b: seq<Entry>) returns (out: seq<FieldDiff>)
    ensures out == Diffs(a, b)
  {
    var tags := CollectTags(a, {});
    tags := CollectTags(b, tags);
    out := [];
    for t := 0 to 256
      invariant out == DiffsBelow(a, b, t)
    {
      if t in tags {
        var ae := FindLast(a, t);
        var be := FindLast(b, t);
        if ae != be {
          out := out + [FieldDiff(t, ae, be)];
        }
      } else {
        LookupLastHasTag(a, t);
        LookupLastHasTag(b, t);
      }
    }
  }

  lemma {:induction false} LookupLastHasTag(f: seq<Entry>, t: Byte)
    ensures LookupLast(f, t).Some? <==> t in Tags(f)
    ensures LookupLast(f, t).Some? ==> Entry(t, LookupLast(f, t).value) in f
  {
    if f != [] {
      var g, e := f[..|f| - 1], f[|f| - 1];
      assert f == g + [e];
      TagsSnoc(g, e);
      LookupLastHasTag(g, t);
    }
  }

  lemma LookupLastUnique(f: seq<Entry>, t: Byte)
    requires UniqueTags(f)
    ensures LookupLast(f, t) == Lookup(f, t)
  {
    LookupHasTag(f, t);
    LookupLastHasTag(f, t);
    if t in Tags(f) {
      LookupUnique(f, Entry(t, LookupLast(f, t).value));
    }
  }

  lemma {:induction false} DiffsBelowExact(a: seq<Entry>, b: seq<Entry>, n: nat, t: Byte)
    requires n <= 256
    ensures (exists d :: d in DiffsBelow(a, b, n) && d.tag == t)
       <==> t < n && LookupLast(a, t) != LookupLast(b, t)
  {
    if n > 0 {
      DiffsBelowExact(a, b, n - 1, t);
      var r := DiffsBelow(a, b, n - 1);
      var last := DiffAt(a, b, n - 1);
      assert forall d :: d in r + last <==> d in r || d in last;
      if t == n - 1 && LookupLast(a, t) != LookupLast(b, t) {
        assert last[0] in r + last;
      }
    }
  }

  /** A tag is listed as different exactly when the two keys map it differently. */
  lemma DiffsExact(a: seq<Entry>, b: seq<Entry>, t: Byte)
    requires UniqueTags(a) && UniqueTags(b)
    ensures (exists d :: d in Diffs(a, b) && d.tag == t) <==> Lookup(a, t) != Lookup(b, t)
  {
    DiffsBelowExact(a, b, 256, t);
    LookupLastUnique(a, t);
    LookupLastUnique(b, t);
  }

  /** The list of differences is empty exactly when the keys are equal. */
  lemma DiffsEmptyIff(a: seq<Entry>, b: seq<Entry>)
    requires UniqueTags(a) && UniqueTags(b)
    ensures Diffs(a, b) == [] <==> KeyEq(a, b)
  {
    hide Diffs, KeyEq, FieldMap, Lookup;
    KeyEqIffMap(a, b);
    if Diffs(a, b) == [] {
      forall t: Byte ensures Lookup(a, t) == Lookup(b, t) {
        DiffsExact(a, b, t);
      }
      EqualLookups(a, b);
    } else {
      var d := Diffs(a, b)[0];
      assert d in Diffs(a, b);
      DiffsExact(a, b, d.tag);
      LookupIsMap(a, d.tag);
      LookupIsMap(b, d.tag);
    }
  }

  lemma LookupIsMap(a: seq<Entry>, t: Byte)
    ensures Lookup(a, t) == if t in FieldMap(a) then Some(FieldMap(a)[t]) else None
  {
    LookupHasTag(a, t);
  }

  lemma EqualLookups(a: seq<Entry>, b: seq<Entry>)
    requires forall t: Byte :: Lookup(a, t) == Lookup(b, t)
    ensures FieldMap(a) == FieldMap(b)
  {
    hide Lookup, FieldMap;
    forall t: Byte
      ensures t in FieldMap(a) <==> t in FieldMap(b)
      ensures t in FieldMap(a) ==> FieldMap(a)[t] == FieldMap(b)[t]
    {
      LookupIsMap(a, t);
      LookupIsMap(b, t);
    }
  }

  // -------------------------------------------------------------- decision

  predicate Blocked(s: StateName) {
    || s == Named(Lifecycle.Corrupt) || s == INVALIDATED || s == Named(Lifecycle.Retired)
    || s.NoName? || s.InvalidName? || s == Named(Lifecycle.Failed) || s == Named(Lifecycle.Cancelled)
  }

  /** A difference that always forces a recompile. */
  predicate Hard(r: Reason) {
    !r.EnvironmentFingerprint? && !r.ArchitectureChanged? && !r.PolicyReason?
  }

  function Reasons(ds: seq<FieldDiff>): seq<Reason> {
    seq(|ds|, i requires 0 <= i < |ds| => ReasonFor(ds[i].tag))
  }

  function OutcomeFor(r: Reason): Outcome {
    match r
    case SourceChanged => SourceChange
    case IRChanged => IRChange
    case CompilerChanged => CompilerChange
    case BackendChanged => BackendChange
    case OptimizerChanged => OptimizerChange
    case ArchitectureChanged => ArchitectureChange
    case ABIChanged => ABIChange
    case DatatypeChanged => DatatypeChange
    case LayoutChanged => LayoutChange
    case ShapeChanged => ShapeChange
    case QuantizationChanged => QuantizationChange
    case PrecisionChanged => PrecisionChange
    case DependencyGenerationChanged => DependencyGeneration
    case ToolchainGenerationChanged => DependencyGeneration
    case RuntimeGenerationChanged => DependencyGeneration
    case _ => SpecializationChange
  }

  method Decide(artifactKey: seq<Entry>, requestKey: seq<Entry>, state: StateName, policy: Policy)
    returns (d: Decision)
    requires UniqueTags(artifactKey) && UniqueTags(requestKey)
    ensures d.reusable <==> Reusable(artifactKey, requestKey, state, policy)
    ensures d.outcome == OutcomeOf(artifactKey, requestKey, state, policy)
    ensures d.reasons == ReasonsOf(artifactKey, requestKey, state, policy)
  {
    if state == Named(Lifecycle.Corrupt) { return Decision(CorruptArtifact, false, [Corrupt]); }
    if state == INVALIDATED || state == Named(Lifecycle.Retired) { return Decision(StaleArtifact, false, [Stale]); }
    if state.NoName? || state.InvalidName? || state == Named(Lifecycle.Failed) || state == Named(Lifecycle.Cancelled) {
      return Decision(InvalidArtifact, false, [Invalid]);
    }
    if KeyEq(artifactKey, requestKey) { return Decision(ExactReusable, true, [NoReason]); }
    hide Diffs, KeyEq, Reasons, FirstSpecific;
    var diffs := FieldDiffs(artifactKey, requestKey);
    d := DecideOnDiffs(diffs, policy);
  }

  /** The part of `decide` after the state and equality tests. */
  method DecideOnDiffs(diffs: seq<FieldDiff>, policy: Policy) returns (d: Decision)
    ensures d.reusable <==> ReusableAcross(Reasons(diffs), policy)
    ensures d.outcome == OutcomeAcross(Reasons(diffs), policy)
    ensures d.reasons == ReasonsAcross(Reasons(diffs), policy)
  {
    hide ReasonFor, FirstSpecific;
    var reasons, envChanged, targetChanged, hardRecompile := Classify(diffs);
    if !hardRecompile && !envChanged {
      if policy.allowEquivalentTarget && targetChanged && diffs != [] {
        var onlyTarget := AllTarget(diffs);
        if onlyTarget {
          return Decision(ReusableAcrossEquivalentTarget, true, [EquivalentTarget]);
        }
      }
    }
    if !hardRecompile && envChanged && !policy.strictEnvironment {
      return Decision(ReusableWithRuntimeValidation, true, [EnvironmentFingerprint]);
    }
    assert reasons != [] && !targetChanged ==> !reasons[0].ArchitectureChanged?;
    var out := PickOutcome(reasons);
    return Decision(out, false, reasons);
  }

  method Classify(diffs: seq<FieldDiff>)
    returns (reasons: seq<Reason>, envChanged: bool, targetChanged: bool, hardRecompile: bool)
    ensures reasons == Reasons(diffs)
    ensures envChanged <==> SomeEnvironment(reasons)
    ensures targetChanged <==> exists j :: 0 <= j < |reasons| && reasons[j].ArchitectureChanged?
    ensures hardRecompile <==> !NoHard(reasons)
  {
    hide ReasonFor;
    reasons := [];
    envChanged, targetChanged, hardRecompile := false, false, false;
    for i := 0 to |diffs|
      invariant |reasons| == i && forall j :: 0 <= j < i ==> reasons[j] == ReasonFor(diffs[j].tag)
      invariant envChanged <==> SomeEnvironment(reasons)
      invariant targetChanged <==> exists j :: 0 <= j < |reasons| && reasons[j].ArchitectureChanged?
      invariant hardRecompile <==> !NoHard(reasons)
    {
      var r := ReasonFor(diffs[i].tag);
      ghost var before := reasons;
      reasons := reasons + [r];
      assert reasons[i] == r && forall j :: 0 <= j < i ==> reasons[j] == before[j];
      if r.EnvironmentFingerprint? { envChanged := true; }
      else if r.ArchitectureChanged? { targetChanged := true; }
      else if !r.PolicyReason? { hardRecompile := true; }
    }
    assert reasons == Reasons(diffs);
  }

  method AllTarget(diffs: seq<FieldDiff>) returns (only: bool)
    ensures only <==> forall i :: 0 <= i < |diffs| ==> Reasons(diffs)[i].ArchitectureChanged?
  {
    only := true;
    for i := 0 to |diffs|
      invariant only <==> forall j :: 0 <= j < i ==> Reasons(diffs)[j].ArchitectureChanged?
    {
      assert Reasons(diffs)[i] == ReasonFor(diffs[i].tag);
      if !ReasonFor(diffs[i].tag).ArchitectureChanged? { only := false; }
    }
  }

  /** The first reason that maps to something more specific than specialization. */
  function FirstSpecific(rs: seq<Reason>): Outcome {
    if rs == [] then SpecializationChange
    else if OutcomeFor(rs[0]) != SpecializationChange then OutcomeFor(rs[0])
    else FirstSpecific(rs[1..])
  }

  method PickOutcome(rs: seq<Reason>) returns (out: Outcome)
    ensures out == FirstSpecific(rs)
  {
    out := SpecializationChange;
    for i := 0 to |rs|
      invariant out == SpecializationChange && FirstSpecific(rs) == FirstSpecific(rs[i..])
    {
      out := OutcomeFor(rs[i]);
      if out != SpecializationChange { break; }
    }
  }

  ghost predicate OnlyTargets(rs: seq<Reason>) {
    rs != [] && forall i :: 0 <= i < |rs| ==> rs[i].ArchitectureChanged?
  }

  ghost predicate NoHard(rs: seq<Reason>) {
    forall i :: 0 <= i < |rs| ==> !Hard(rs[i])
  }

  ghost predicate SomeEnvironment(rs: seq<Reason>) {
    exists i :: 0 <= i < |rs| && rs[i].EnvironmentFingerprint?
  }

  ghost predicate ReusableAcross(rs: seq<Reason>, policy: Policy) {
    || (policy.allowEquivalentTarget && OnlyTargets(rs))
    || (!policy.strictEnvironment && NoHard(rs) && SomeEnvironment(rs))
  }

  ghost function OutcomeAcross(rs: seq<Reason>, policy: Policy): Outcome {
    if policy.allowEquivalentTarget && OnlyTargets(rs) then ReusableAcrossEquivalentTarget
    else if !policy.strictEnvironment && NoHard(rs) && SomeEnvironment(rs) then ReusableWithRuntimeValidation
    else FirstSpecific(rs)
  }

  /** A reuse across a difference is explained by that one reason, a refusal by all of them. */
  ghost function ReasonsAcross(rs: seq<Reason>, policy: Policy): seq<Reason> {
    if policy.allowEquivalentTarget && OnlyTargets(rs) then [EquivalentTarget]
    else if !policy.strictEnvironment && NoHard(rs) && SomeEnvironment(rs) then [EnvironmentFingerprint]
    else rs
  }

  ghost function ReasonsOf(a: seq<Entry>, b: seq<Entry>, state: StateName, policy: Policy): seq<Reason> {
    if state == Named(Lifecycle.Corrupt) then [Corrupt]
    else if state == INVALIDATED || state == Named(Lifecycle.Retired) then [Stale]
    else if Blocked(state) then [Invalid]
    else if KeyEq(a, b) then [NoReason]
    else ReasonsAcross(Reasons(Diffs(a, b)), policy)
  }

  /** When a cached artifact may serve a request: it is not in a blocked state,
      and the keys are equal, or differ only in target fields and the policy
      allows that, or differ in the environment and in no hard field and the
      policy is not strict about environments. */
  ghost predicate Reusable(a: seq<Entry>, b: seq<Entry>, state: StateName, policy: Policy) {
    !Blocked(state) && (KeyEq(a, b) || ReusableAcross(Reasons(Diffs(a, b)), policy))
  }

  ghost function OutcomeOf(a: seq<Entry>, b: seq<Entry>, state: StateName, policy: Policy): Outcome {
    if state == Named(Lifecycle.Corrupt) then CorruptArtifact
    else if state == INVALIDATED || state == Named(Lifecycle.Retired) then StaleArtifact
    else if Blocked(state) then InvalidArtifact
    else if KeyEq(a, b) then ExactReusable
    else OutcomeAcross(Reasons(Diffs(a, b)), policy)
  }

  /** Under the default policy reuse means equal keys and an unblocked state. */
  lemma DefaultPolicyIsExact(a: seq<Entry>, b: seq<Entry>, state: StateName)
    requires UniqueTags(a) && UniqueTags(b)
    ensures Reusable(a, b, state, DEFAULT_POLICY) <==> FieldMap(a) == FieldMap(b) && !Blocked(state)
  {
    KeyEqIffMap(a, b);
  }

  /** Under every policy, keys that reuse across a difference agree on every
      field whose change is hard. */
  lemma ReuseNeverCrossesHardField(a: seq<Entry>, b: seq<Entry>, state: StateName, policy: Policy, t: Byte)
    requires UniqueTags(a) && UniqueTags(b)
    requires Reusable(a, b, state, policy) && Hard(ReasonFor(t))
    ensures Lookup(a, t) == Lookup(b, t)
  {
    hide Diffs, KeyEq, Lookup, ReasonFor;
    if KeyEq(a, b) {
      KeyEqIffMap(a, b);
      LookupIsMap(a, t);
      LookupIsMap(b, t);
    } else {
      NoHardDifference(a, b, t);
    }
  }

  lemma NoHardDifference(a: seq<Entry>, b: seq<Entry>, t: Byte)
    requires UniqueTags(a) && UniqueTags(b)
    requires NoHard(Reasons(Diffs(a, b))) && Hard(ReasonFor(t))
    ensures Lookup(a, t) == Lookup(b, t)
  {
    hide Diffs, Lookup, ReasonFor;
    DiffsExact(a, b, t);
    forall d | d in Diffs(a, b) ensures !Hard(ReasonFor(d.tag)) {
      var i :| 0 <= i < |Diffs(a, b)| && Diffs(a, b)[i] == d;
      assert Reasons(Diffs(a, b))[i] == ReasonFor(d.tag);
    }
  }

  lemma {:induction false} DiffsAscending(a: seq<Entry>, b: seq<Entry>, n: nat, i: nat, j: nat)
    requires n <= 256 && i < j < |DiffsBelow(a, b, n)|
    ensures DiffsBelow(a, b, n)[i].tag < DiffsBelow(a, b, n)[j].tag
  {
    if n > 0 {
      var r := DiffsBelow(a, b, n - 1);
      if j < |r| {
        DiffsAscending(a, b, n - 1, i, j);
      }
    }
  }

  lemma {:induction false} FirstSpecificAt(rs: seq<Reason>, i: nat)
    requires i < |rs| && OutcomeFor(rs[i]) != SpecializationChange
    requires forall j :: 0 <= j < i ==> OutcomeFor(rs[j]) == SpecializationChange
    ensures FirstSpecific(rs) == OutcomeFor(rs[i])
  {
    if i > 0 {
      FirstSpecificAt(rs[1..], i - 1);
    }
  }

  /** A refusal names the lowest-tagged difference that is not mapped to specialization. */
  lemma OutcomeIsLowestSpecificDifference(a: seq<Entry>, b: seq<Entry>, state: StateName, policy: Policy, t: Byte)
    requires UniqueTags(a) && UniqueTags(b)
    requires !Blocked(state) && !Reusable(a, b, state, policy)
    requires Lookup(a, t) != Lookup(b, t) && OutcomeFor(ReasonFor(t)) != SpecializationChange
    requires forall u: Byte :: u < t && Lookup(a, u) != Lookup(b, u) ==> OutcomeFor(ReasonFor(u)) == SpecializationChange
    ensures OutcomeOf(a, b, state, policy) == OutcomeFor(ReasonFor(t))
  {
    var ds := Diffs(a, b);
    DiffsExact(a, b, t);
    var d :| d in ds && d.tag == t;
    var i :| 0 <= i < |ds| && ds[i] == d;
    forall j | 0 <= j < i ensures OutcomeFor(Reasons(ds)[j]) == SpecializationChange {
      DiffsAscending(a, b, 256, j, i);
      assert ds[j] in ds;
      DiffsExact(a, b, ds[j].tag);
    }
    FirstSpecificAt(Reasons(ds), i);
  }

  /** An artifact is out of the question in a terminal state other than
      `Terminal`, or with no usable state name; the outcome says which. */
  lemma BlockedOutcomes(a: seq<Entry>, b: seq<Entry>, s: Lifecycle.State, policy: Policy)
    ensures Blocked(Named(s)) <==> Lifecycle.IsTerminal(s) && !s.Terminal?
    ensures Blocked(NoName) && Blocked(InvalidName)
    ensures s.Corrupt? ==> OutcomeOf(a, b, Named(s), policy) == CorruptArtifact
    ensures s.Invalidated? || s.Retired? ==> OutcomeOf(a, b, Named(s), policy) == StaleArtifact
    ensures s.Failed? || s.Cancelled? ==> OutcomeOf(a, b, Named(s), policy) == InvalidArtifact
    ensures OutcomeOf(a, b, NoName, policy) == InvalidArtifact == OutcomeOf(a, b, InvalidName, policy)
  {
    hide KeyEq, OutcomeAcross, Diffs;
  }

  /** The fields that an outcome stands for; all others count as specialization. */
  predicate Names(o: Outcome, t: Byte) {
    match o
    case SourceChange => 1 <= t <= 3 || t == 56
    case IRChange => 4 <= t <= 6 || t == 57
    case CompilerChange => 7 <= t <= 10
    case BackendChange => 11 <= t <= 12
    case OptimizerChange => 13 <= t <= 17
    case DependencyGeneration => 18 <= t <= 19 || 49 <= t <= 50 || 52 <= t <= 53
    case ArchitectureChange => 20 <= t <= 26
    case ABIChange => 27 <= t <= 30
    case DatatypeChange => t == 32
    case LayoutChange => t == 33
    case ShapeChange => 34 <= t <= 36
    case QuantizationChange => 37 <= t <= 38
    case PrecisionChange => t == 39
    case SpecializationChange => t == 0 || t == 31 || 40 <= t <= 48 || t == 51 || 54 <= t <= 55 || t > 57
    case _ => false
  }

  lemma OutcomeByTag(t: Byte, o: Outcome)
    ensures OutcomeFor(ReasonFor(t)) == o <==> Names(o, t)
  {
  }

  /** A refusal by the tags that differ alone. */
  lemma RefusalNamesTheLowest(a: seq<Entry>, b: seq<Entry>, state: StateName, policy: Policy, t: Byte, o: Outcome)
    requires UniqueTags(a) && UniqueTags(b)
    requires !Blocked(state) && !Reusable(a, b, state, policy)
    requires Lookup(a, t) != Lookup(b, t) && Names(o, t) && o != SpecializationChange
    requires forall u: Byte :: u < t && Lookup(a, u) != Lookup(b, u) ==> Names(SpecializationChange, u)
    ensures OutcomeOf(a, b, state, policy) == o
  {
    hide Names, OutcomeFor, ReasonFor, OutcomeOf, Reusable, Lookup;
    OutcomeByTag(t, o);
    forall u: Byte | u < t && Lookup(a, u) != Lookup(b, u)
      ensures OutcomeFor(ReasonFor(u)) == SpecializationChange
    {
      OutcomeByTag(u, SpecializationChange);
    }
    OutcomeIsLowestSpecificDifference(a, b, state, policy, t);
  }

  // ------------------------------------------------- what reuse may cross

  predicate Differs(a: seq<Entry>, b: seq<Entry>, t: Byte) { Lookup(a, t) != Lookup(b, t) }

  /** Driver, driver version, vendor, family, architecture, capability and ISA. */
  predicate TargetTag(t: Byte) { 20 <= t <= 26 }

  /** The target fields, the environment fingerprint, the namespace and the tenant. */
  predicate SoftTag(t: Byte) { TargetTag(t) || t == 48 || t == 54 || t == 55 }

  lemma TagReasons(t: Byte)
    ensures ReasonFor(t).ArchitectureChanged? <==> TargetTag(t)
    ensures ReasonFor(t).EnvironmentFingerprint? <==> t == 48
    ensures Hard(ReasonFor(t)) <==> !SoftTag(t)
  {
  }

  /** Speaking of all listed differences is speaking of all tags that differ. */
  lemma ListedDifferences(a: seq<Entry>, b: seq<Entry>, p: Byte -> bool)
    requires UniqueTags(a) && UniqueTags(b)
    ensures (forall i :: 0 <= i < |Diffs(a, b)| ==> p(Diffs(a, b)[i].tag)) <==> forall t: Byte :: Differs(a, b, t) ==> p(t)
  {
    hide Diffs, Lookup, UniqueTags;
    var ds := Diffs(a, b);
    if forall i :: 0 <= i < |ds| ==> p(ds[i].tag) {
      forall t: Byte | Differs(a, b, t) ensures p(t) {
        DiffsExact(a, b, t);
        var d :| d in ds && d.tag == t;
        var i :| 0 <= i < |ds| && ds[i] == d;
      }
    }
    if forall t: Byte :: Differs(a, b, t) ==> p(t) {
      forall i | 0 <= i < |ds| ensures p(ds[i].tag) {
        assert ds[i] in ds;
        DiffsExact(a, b, ds[i].tag);
        assert Differs(a, b, ds[i].tag);
      }
    }
  }

  lemma TargetsOnlyIff(a: seq<Entry>, b: seq<Entry>)
    requires UniqueTags(a) && UniqueTags(b) && !KeyEq(a, b)
    ensures OnlyTargets(Reasons(Diffs(a, b))) <==> forall t: Byte :: Differs(a, b, t) ==> TargetTag(t)
  {
    DiffsEmptyIff(a, b);
    ListedDifferences(a, b, TargetTag);
    hide Diffs, Lookup, UniqueTags, KeyEq, ReasonFor, Differs;
    var ds := Diffs(a, b);
    forall i | 0 <= i < |ds| ensures Reasons(ds)[i].ArchitectureChanged? <==> TargetTag(ds[i].tag) {
      TagReasons(ds[i].tag);
    }
  }

  lemma SoftOnlyIff(a: seq<Entry>, b: seq<Entry>)
    requires UniqueTags(a) && UniqueTags(b)
    ensures NoHard(Reasons(Diffs(a, b))) <==> forall t: Byte :: Differs(a, b, t) ==> SoftTag(t)
  {
    ListedDifferences(a, b, SoftTag);
    hide Diffs, Lookup, UniqueTags, ReasonFor, Differs, Hard;
    var ds := Diffs(a, b);
    forall i | 0 <= i < |ds| ensures Hard(Reasons(ds)[i]) <==> !SoftTag(ds[i].tag) {
      TagReasons(ds[i].tag);
    }
  }

  lemma EnvironmentIff(a: seq<Entry>, b: seq<Entry>)
    requires UniqueTags(a) && UniqueTags(b)
    ensures SomeEnvironment(Reasons(Diffs(a, b))) <==> Differs(a, b, 48)
  {
    DiffsExact(a, b, 48);
    hide Diffs, Lookup, UniqueTags, ReasonFor;
    var ds := Diffs(a, b);
    forall i | 0 <= i < |ds| ensures Reasons(ds)[i].EnvironmentFingerprint? <==> ds[i].tag == 48 {
      TagReasons(ds[i].tag);
    }
    if Differs(a, b, 48) {
      var d :| d in ds && d.tag == 48;
      var i :| 0 <= i < |ds| && ds[i] == d;
      assert Reasons(ds)[i].EnvironmentFingerprint?;
    }
  }

  /** Exactly when an artifact serves a request with a different key, on the
      fields of the two keys: the policy allows equivalent targets and only
      target fields differ, or it is lenient about environments, the environment
      differs, and beside it only target fields, the namespace or the tenant do. */
  lemma ReuseIsExact(a: seq<Entry>, b: seq<Entry>, state: StateName, policy: Policy)
    requires UniqueTags(a) && UniqueTags(b) && FieldMap(a) != FieldMap(b)
    ensures Reusable(a, b, state, policy)
       <==> && !Blocked(state)
            && (|| (policy.allowEquivalentTarget && forall t: Byte :: Differs(a, b, t) ==> TargetTag(t))
                || (!policy.strictEnvironment && Differs(a, b, 48) && forall t: Byte :: Differs(a, b, t) ==> SoftTag(t)))
  {
    KeyEqIffMap(a, b);
    TargetsOnlyIff(a, b);
    SoftOnlyIff(a, b);
    EnvironmentIff(a, b);
    hide Diffs, Reasons, Lookup, UniqueTags, KeyEq, OnlyTargets, NoHard, SomeEnvironment, Differs;
  }

  /** Some reuse under this policy crosses a difference in this field. */
  ghost predicate Crosses(policy: Policy, t: Byte) {
    exists a: seq<Entry>, b: seq<Entry>, state: StateName ::
      UniqueTags(a) && UniqueTags(b) && Reusable(a, b, state, policy) && Differs(a, b, t)
  }

  /** Exactly which fields reuse can cross, policy by policy.  The default policy
      crosses none; leniency about environments alone already crosses targets,
      namespaces and tenants. */
  lemma CrossableTags(policy: Policy, t: Byte)
    ensures Crosses(policy, t)
       <==> (policy.allowEquivalentTarget && TargetTag(t)) || (!policy.strictEnvironment && SoftTag(t))
  {
    if Crosses(policy, t) {
      var a: seq<Entry>, b: seq<Entry>, state: StateName :|
        UniqueTags(a) && UniqueTags(b) && Reusable(a, b, state, policy) && Differs(a, b, t);
      LookupIsMap(a, t);
      LookupIsMap(b, t);
      hide Reusable, UniqueTags, FieldMap, Lookup;
      ReuseIsExact(a, b, state, policy);
    }
    if policy.allowEquivalentTarget && TargetTag(t) {
      CrossedAlone(policy, t);
    } else if !policy.strictEnvironment && SoftTag(t) {
      if t == 48 {
        CrossedAlone(policy, t);
      } else {
        CrossedWithEnvironment(policy, t);
      }
    }
  }

  lemma CrossedAlone(policy: Policy, t: Byte)
    requires (policy.allowEquivalentTarget && TargetTag(t)) || (!policy.strictEnvironment && t == 48)
    ensures Crosses(policy, t)
  {
    var a: seq<Entry>, b: seq<Entry> := [Entry(t, [1])], [Entry(t, [2])];
    forall u: Byte ensures Differs(a, b, u) <==> u == t {
      assert a[1..] == [] && b[1..] == [];
    }
    ReuseAcross(a, b, policy, t);
  }

  lemma CrossedWithEnvironment(policy: Policy, t: Byte)
    requires !policy.strictEnvironment && SoftTag(t) && t != 48
    ensures Crosses(policy, t)
  {
    var a: seq<Entry>, b: seq<Entry> := [Entry(t, [1]), Entry(48, [1])], [Entry(t, [2]), Entry(48, [2])];
    forall u: Byte ensures Differs(a, b, u) <==> u == t || u == 48 {
      LookupTwo(a[0], a[1], u);
      LookupTwo(b[0], b[1], u);
    }
    ReuseAcross(a, b, policy, t);
  }

  lemma LookupTwo(x: Entry, y: Entry, u: Byte)
    ensures Lookup([x, y], u) == if x.tag == u then Some(x.value) else if y.tag == u then Some(y.value) else None
  {
    assert [x, y][1..] == [y] && [y][1..] == [];
    assert Lookup([y], u) == if y.tag == u then Some(y.value) else Lookup([], u);
  }

  lemma ReuseAcross(a: seq<Entry>, b: seq<Entry>, policy: Policy, t: Byte)
    requires UniqueTags(a) && UniqueTags(b) && Differs(a, b, t)
    requires || (policy.allowEquivalentTarget && forall u: Byte :: Differs(a, b, u) ==> TargetTag(u))
             || (!policy.strictEnvironment && Differs(a, b, 48) && forall u: Byte :: Differs(a, b, u) ==> SoftTag(u))
    ensures Crosses(policy, t)
  {
    LookupIsMap(a, t);
    LookupIsMap(b, t);
    assert FieldMap(a) != FieldMap(b);
    ReuseIsExact(a, b, DEPLOYABLE, policy);
    hide Reusable, UniqueTags, Differs;
    assert Reusable(a, b, DEPLOYABLE, policy);
  }

  /** So a lenient environment policy lets reuse cross targets, although
      equivalent targets are not allowed, and tenants and namespaces. */
  lemma LenientEnvironmentCarriesTarget(t: Byte)
    ensures Crosses(Policy(false, false), t) <==> SoftTag(t)
    ensures !Crosses(DEFAULT_POLICY, t)
  {
    CrossableTags(Policy(false, false), t);
    CrossableTags(DEFAULT_POLICY, t);
  }
}
