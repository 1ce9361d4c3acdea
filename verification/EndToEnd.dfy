/** The whole pipeline for the CPU backend: key building, the concurrent cache,
    the optimizer and the bytecode together. */
module EndToEnd {
  import opened Wire
  import opened Key
  import opened Cpu
  import opened Bytecode
  import opened Autotune
  import opened Compatibility
  import opened Fabric
  import opened FabricRuns
  import opened FabricTheorems
  import Req = Request

  /** What the proof needs to know of a deployment: numbers, source parser,
      planning and the toolchain context of each request. */
  datatype Host<!T> = Host(
    fpu: Fpu<T>, parse: Parser, plan: Req.Request -> Option<Req.Plan>, toolchain: Req.Request -> Req.Toolchain)

  const CPU_NAME: Bytes := [99, 112, 117]

  /** `makeTc` writes this backend name exactly for plans on the CPU backend. */
  predicate OnCpu<T>(h: Host<T>, r: Req.Request) { h.toolchain(r).backend == CPU_NAME }

  ghost predicate HostOk<T(!new)>(h: Host<T>) {
    && Lawful(h.fpu) && ParserOk(h.parse)
    && (forall r :: h.plan(r).Some? ==> h.plan(r).value.request == r && |r.launchSpecialization| < TWO64)
  }

  function KeyFor<T>(h: Host<T>, r: Req.Request): Option<CacheKey> {
    match h.plan(r)
    case None => None
    case Some(p) => Some(Req.KeyOf(r, p, h.toolchain(r)))
  }

  /** The bytes `compile` may hand on for `r`: those of any tuning variant. */
  ghost predicate Emits<T>(h: Host<T>, r: Req.Request, b: Bytes) {
    exists v: Req.Request :: IsVariant(r, v) && CompiledBytes(h.fpu, h.parse, v, v.optimizeLevel) == Some(b)
  }

  /** The fabric runs this host: keys are built by `buildCompilationKey`, and for
      requests planned on the CPU the backend is the CPU compiler, whose
      validation requires the bytes to decode.  Other backends are arbitrary. */
  ghost predicate Hosts<T(!new)>(env: Env, h: Host<T>) {
    && HostOk(h)
    && (forall r :: env.keyOf(r) == KeyFor(h, r))
    && (forall r, b :: OnCpu(h, r) && env.makes(r, b) ==> Emits(h, r, b))
    && (forall r, b :: OnCpu(h, r) && KeyFor(h, r).Some? && env.validates(KeyFor(h, r).value, b) ==> DecodedOf(b).Ok?)
  }

  /** The fabric with nothing but the CPU backend is such a deployment. */
  ghost function CpuOnly<T(!new)>(h: Host<T>, hash: Bytes -> Digest, policy: Policy): Env {
    Env((r: Req.Request) => KeyFor(h, r), (r: Req.Request, b: Bytes) => Emits(h, r, b),
        (k: CacheKey, b: Bytes) => DecodedOf(b).Ok?, hash, policy)
  }

  lemma CpuOnlyHosts<T(!new)>(h: Host<T>, hash: Bytes -> Digest, policy: Policy)
    requires HostOk(h)
    ensures Hosts(CpuOnly(h, hash, policy), h)
  {
  }

  /** Two requests with one key have one program, and run on the same backend. */
  lemma SameKeySameProgram<T(!new)>(h: Host<T>, r: Req.Request, q: Req.Request)
    requires HostOk(h) && KeyFor(h, r).Some? && KeyFor(h, r) == KeyFor(h, q)
    ensures ProgramOf(h.parse, r) == ProgramOf(h.parse, q)
    ensures OnCpu(h, r) <==> OnCpu(h, q)
  {
    hide Req.KeyOf, Req.FieldFor, Lawful, ParserOk;
    var p, p' := h.plan(r).value, h.plan(q).value;
    var t, t' := h.toolchain(r), h.toolchain(q);
    Req.KeySeparatesProgram(r, p, t, q, p', t');
    SameBackend(r, p, t, q, p', t');
  }

  lemma SameBackend(r: Req.Request, p: Req.Plan, t: Req.Toolchain, r': Req.Request, p': Req.Plan, t': Req.Toolchain)
    requires Req.KeyOf(r, p, t) == Req.KeyOf(r', p', t')
    ensures t.backend == t'.backend
  {
    hide Req.KeyOf, BE, FromBE;
    assert Req.Opt(t.backend) == Req.Opt(t'.backend) by {
      Req.EqualKeysAgree(r, p, t, r', p', t', Req.BACKEND);
    }
    Req.OptInjective(t.backend, t'.backend);
  }

  lemma VariantProgram<T>(h: Host<T>, r: Req.Request, v: Req.Request)
    requires IsVariant(r, v)
    ensures ProgramOf(h.parse, v) == ProgramOf(h.parse, r)
    ensures v.launchSpecialization == r.launchSpecialization
  {
  }

  /** Bytes emitted for a request compute that request's unoptimized program. */
  lemma EmittedComputes<T(!new)>(h: Host<T>, r: Req.Request, b: Bytes)
    requires HostOk(h) && h.plan(r).Some? && Emits(h, r, b) && DecodedOf(b).Ok?
    ensures ProgramOf(h.parse, r).Some? && Computes(h.fpu, b, ProgramOf(h.parse, r).value)
  {
    hide DecodedOf, Computes, ProgramOf, Optimized, Encoded, IsVariant;
    var v: Req.Request :| IsVariant(r, v) && CompiledBytes(h.fpu, h.parse, v, v.optimizeLevel) == Some(b);
    VariantProgram(h, r, v);
    CompileCorrect(h.fpu, h.parse, v, v.optimizeLevel);
  }

  /** Reuse is semantically sound: in every interleaved run, whatever bytes a
      call planned on the CPU returns (hit, waiter or fresh, any optimization
      level or tuning variant, possibly compiled for another request) decode to
      a program that for every seed computes what the call's own unoptimized
      program computes. */
  lemma ReuseIsSemanticallySound<T(!new)>(env: Env, h: Host<T>, tr: Trace, i: nat, t: nat)
    requires Hosts(env, h) && Valid(env, tr) && i < |tr.states| && t < |tr.states[i].threads|
    requires tr.states[i].threads[t].Returned? && tr.states[i].threads[t].outcome.Success?
    requires OnCpu(h, tr.states[i].threads[t].r)
    ensures var th := tr.states[i].threads[t];
            ProgramOf(h.parse, th.r).Some? && Computes(h.fpu, th.outcome.result.bytes, ProgramOf(h.parse, th.r).value)
  {
    RepliesAreSound(env, tr, i, t);
    GenuineComputes(env, h, tr.states[i].threads[t].r, tr.states[i].threads[t].outcome.result.bytes);
  }

  lemma GenuineComputes<T(!new)>(env: Env, h: Host<T>, r: Req.Request, b: Bytes)
    requires Hosts(env, h) && OnCpu(h, r)
    requires env.keyOf(r).Some? && Genuine(env, env.keyOf(r).value, b) && env.validates(env.keyOf(r).value, b)
    ensures ProgramOf(h.parse, r).Some? && Computes(h.fpu, b, ProgramOf(h.parse, r).value)
  {
    hide DecodedOf, Computes, ProgramOf, Emits, Lawful, ParserOk, OnCpu;
    var key := env.keyOf(r).value;
    var q: Req.Request :| env.keyOf(q) == Some(key) && env.makes(q, b);
    assert KeyFor(h, r) == Some(key) && KeyFor(h, q) == Some(key);
    SameKeySameProgram(h, r, q);
    EmittedComputes(h, q, b);
  }

  /** The same for every Deployable cache entry, so for everything deploy loads. */
  lemma CacheIsSemanticallySound<T(!new)>(env: Env, h: Host<T>, tr: Trace, i: nat, r: Req.Request)
    requires Hosts(env, h) && Valid(env, tr) && i < |tr.states|
    requires OnCpu(h, r) && env.keyOf(r).Some? && env.keyOf(r).value in tr.states[i].sh.cache
    ensures ProgramOf(h.parse, r).Some?
    ensures Computes(h.fpu, tr.states[i].sh.cache[env.keyOf(r).value].bytes, ProgramOf(h.parse, r).value)
  {
    var key := env.keyOf(r).value;
    DeployableIsSound(env, tr, i, key);
    GenuineComputes(env, h, r, tr.states[i].sh.cache[key].bytes);
  }
}
