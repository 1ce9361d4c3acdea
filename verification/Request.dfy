/** `buildCompilationKey` of src/Request.cpp: which request, plan and toolchain
    fields make up a compilation key. */
module Request {
  import opened Wire
  import opened Canonical
  import opened Key

  // Enumerations are carried by their ordinal; ordinal 0 is None / Unspecified.
  datatype Request = Request(
    requestId: Id128, logicalOperation: Id128,
    source: Bytes, sourceDigest: Digest, irDigest: Digest, irFormat: Bytes,
    dtype: Byte, layout: Byte, rank: U64, staticShape: seq<I64>, symbolicShape: Bytes,
    alignment: U64, quantization: Byte, precision: Byte,
    scalarConstants: Bytes, launchSpecialization: Bytes,
    targetArchitecture: Bytes, computeCapability: Bytes, isa: Bytes, abi: Bytes, kernelABI: Bytes,
    featureFlags: Bytes, optimizationFlags: Bytes, codegenFlags: Bytes,
    debugRelease: Byte, determinism: Byte, reproducibility: Byte,
    dependencyIdentities: seq<Id128>, dependencyGenerations: seq<U64>, modelRevision: Bytes,
    namespaceName: Bytes, tenant: Bytes,
    autotune: bool, autotuneCandidates: int, autotuneSeed: U64, optimizeLevel: int)

  datatype Target = Target(
    vendor: Byte, family: Byte, architecture: Bytes, computeCapability: Bytes,
    isa: Bytes, abi: Bytes, kernelABI: Bytes, graphABI: Bytes)

  datatype Plan = Plan(request: Request, target: Target)

  datatype Toolchain = Toolchain(
    frontend: Bytes, frontendVersion: Bytes, compiler: Bytes, compilerVersion: Bytes,
    backend: Bytes, backendVersion: Bytes, codeGenerator: Bytes,
    optimizer: Bytes, optimizerVersion: Bytes, linker: Bytes, linkerVersion: Bytes,
    runtime: Bytes, runtimeVersion: Bytes, driver: Bytes, driverVersion: Bytes,
    environmentFingerprint: Bytes, runtimeCompatGeneration: U64, compilerPolicyGeneration: U64)

  // The tags of KeyField that the builder writes.
  const LOGICAL_OPERATION: Byte := 1
  const SOURCE_IDENTITY: Byte := 2
  const SOURCE_DIGEST: Byte := 3
  const IR_IDENTITY: Byte := 4
  const IR_DIGEST: Byte := 5
  const IR_FORMAT: Byte := 6
  const FRONTEND: Byte := 7
  const FRONTEND_VERSION: Byte := 8
  const COMPILER: Byte := 9
  const COMPILER_VERSION: Byte := 10
  const BACKEND: Byte := 11
  const BACKEND_VERSION: Byte := 12
  const CODE_GENERATOR: Byte := 13
  const OPTIMIZER: Byte := 14
  const OPTIMIZER_VERSION: Byte := 15
  const LINKER: Byte := 16
  const LINKER_VERSION: Byte := 17
  const RUNTIME: Byte := 18
  const RUNTIME_VERSION: Byte := 19
  const DRIVER: Byte := 20
  const DRIVER_VERSION: Byte := 21
  const ACCELERATOR_VENDOR: Byte := 22
  const ACCELERATOR_FAMILY: Byte := 23
  const TARGET_ARCHITECTURE: Byte := 24
  const COMPUTE_CAPABILITY: Byte := 25
  const ISA: Byte := 26
  const ABI: Byte := 27
  const CALLING_CONVENTION: Byte := 28
  const KERNEL_ABI: Byte := 29
  const GRAPH_ABI: Byte := 30
  const OPERATOR_REVISION: Byte := 31
  const DATATYPE: Byte := 32
  const LAYOUT: Byte := 33
  const RANK: Byte := 34
  const STATIC_SHAPE: Byte := 35
  const SYMBOLIC_SHAPE: Byte := 36
  const ALIGNMENT: Byte := 37
  const QUANTIZATION: Byte := 38
  const PRECISION: Byte := 39
  const LAUNCH_SPECIALIZATION: Byte := 40
  const SCALAR_CONSTANTS: Byte := 41
  const FEATURE_FLAGS: Byte := 42
  const OPTIMIZATION_FLAGS: Byte := 43
  const CODEGEN_FLAGS: Byte := 44
  const DEBUG_RELEASE: Byte := 45
  const DETERMINISM: Byte := 46
  const REPRODUCIBILITY: Byte := 47
  const ENV_FINGERPRINT: Byte := 48
  const DEPENDENCY_IDENTITIES: Byte := 49
  const DEPENDENCY_GENERATIONS: Byte := 50
  const MODEL_REVISION: Byte := 51
  const RUNTIME_COMPATIBILITY_GENERATION: Byte := 52
  const COMPILER_POLICY_GENERATION: Byte := 53
  const NAMESPACE: Byte := 54
  const TENANT: Byte := 55
  const SOURCE_CONTENT: Byte := 56

  /** `idFor`: the two interleaved halves of a digest, as two 64-bit words.
      The loop shifts sixteen bytes into each word, so the first eight fall out. */
  function IdFor(d: Digest): Id128 {
    Pow256Values();
    FromBEBound(d[8..16]);
    FromBEBound(d[24..32]);
    Id128(FromBE(d[8..16]), FromBE(d[24..32]))
  }

  lemma {:induction false} FromBECons(a: Byte, y: Bytes)
    ensures FromBE([a] + y) == (a as int) * Pow256(|y|) + FromBE(y)
  {
    if y == [] {
      assert [a] + y == [a] && [a][..0] == [];
      assert FromBE([]) == 0;
    } else {
      var init := y[..|y| - 1];
      FromBECons(a, init);
      assert ([a] + y)[..|y|] == [a] + init;
    }
  }

  /** One 64-bit shift: the ninth byte pushes the first one out. */
  lemma ShiftIn(s: Bytes, b: Byte)
    requires |s| <= 8
    ensures (FromBE(s) * 256 + b) % TWO64 == FromBE((if |s| < 8 then s else s[1..]) + [b])
  {
    hide FromBE;
    var v: int := FromBE(s) * 256 + b;
    if |s| < 8 {
      FromBESnoc(s, b);
      ShortBound(s + [b]);
      DivUnique(v, TWO64, 0, v);
    } else {
      FullSplit(s, b);
      var p: int := FromBE(s[1..] + [b]);
      DivUnique(v, TWO64, s[0], p);
    }
  }

  lemma FullSplit(s: Bytes, b: Byte)
    requires |s| == 8
    ensures FromBE(s) * 256 + b == (s[0] as int) * TWO64 + FromBE(s[1..] + [b])
    ensures FromBE(s[1..] + [b]) < TWO64
  {
    hide FromBE, Pow256;
    var y := s[1..] + [b];
    FromBESnoc(s, b);
    assert s + [b] == [s[0]] + y;
    FromBECons(s[0], y);
    ShortBound(y);
    assert Pow256(8) == TWO64 by { Pow256Values(); }
  }

  lemma FromBESnoc(s: Bytes, b: Byte)
    ensures FromBE(s + [b]) == FromBE(s) * 256 + b
  {
    assert (s + [b])[..|s|] == s;
  }

  lemma ShortBound(s: Bytes)
    requires |s| <= 8
    ensures FromBE(s) < TWO64
  {
    hide FromBE;
    FromBEBound(s);
    PowMonotone(|s|, 8);
    assert Pow256(8) == TWO64 by { Pow256Values(); }
  }

  lemma {:induction false} PowMonotone(m: nat, n: nat)
    requires m <= n
    ensures Pow256(m) <= Pow256(n)
    decreases n
  {
    if m < n {
      PowMonotone(m, n - 1);
    }
  }

  method ShiftDigest(d: Digest) returns (id: Id128)
    ensures id == IdFor(d)
  {
    var hi: U64, lo: U64 := 0, 0;
    for i := 0 to 16
      invariant hi == FromBE(d[if i <= 8 then 0 else i - 8..i])
      invariant lo == FromBE(d[if i <= 8 then 16 else i + 8..i + 16])
    {
      var k := if i <= 8 then 0 else i - 8;
      Window(d, k, i);
      Window(d, k + 16, i + 16);
      var x: int, y: int := d[i], d[i + 16];
      hi := (hi * 256 + x) % TWO64;
      lo := (lo * 256 + y) % TWO64;
    }
    id := Id128(hi, lo);
  }

  /** The last eight bytes before `i` become the last eight bytes before `i + 1`. */
  lemma Window(d: Bytes, k: nat, i: nat)
    requires k <= i < |d| && i - k <= 8
    ensures (FromBE(d[k..i]) * 256 + d[i]) % TWO64 == FromBE(d[if i - k < 8 then k else k + 1..i + 1])
  {
    var s := d[k..i];
    ShiftIn(s, d[i]);
    var k' := if i - k < 8 then k else k + 1;
    assert (if |s| < 8 then s else s[1..]) + [d[i]] == d[k'..i + 1];
  }

  /** Half of the digest does not reach the identity: exactly bytes 8 to 15 and
      24 to 31 determine it. */
  lemma IdForDropsHalf(d: Digest, e: Digest)
    ensures IdFor(d) == IdFor(e) <==> d[8..16] == e[8..16] && d[24..32] == e[24..32]
  {
    BEofFromBE(d[8..16]);
    BEofFromBE(e[8..16]);
    BEofFromBE(d[24..32]);
    BEofFromBE(e[24..32]);
  }

  /** A string setter guarded by `!s.empty()`, as an optional entry. */
  function Opt(s: Bytes): Option<Bytes> { if s == [] then None else Some(EncString(s)) }
  function OptEnum(v: Byte): Option<Bytes> { if v == 0 then None else Some(EncU8(v)) }
  function OptU64s(vs: seq<U64>): Option<Bytes> { if vs == [] then None else Some(EncU64s(vs)) }
  function Or(a: Bytes, b: Bytes): Bytes { if a != [] then a else b }

  /** What each tag of the key holds, stated tag by tag and free of the order
      in which the builder calls its setters. */
  function FieldFor(r: Request, p: Plan, t: Toolchain, tag: Byte): Option<Bytes> {
    if tag < FRONTEND then SourceField(r, tag)
    else if tag < OPTIMIZER then FrontField(t, tag)
    else if tag < ACCELERATOR_VENDOR then BackField(t, tag)
    else if tag < DATATYPE then TargetField(r, p, tag)
    else if tag < QUANTIZATION then ShapeField(r, p, tag)
    else if tag < DEBUG_RELEASE then SpecialField(r, tag)
    else if tag < MODEL_REVISION then ModeField(r, t, tag)
    else PolicyField(r, t, tag)
  }

  function SourceField(r: Request, tag: Byte): Option<Bytes> {
    match tag
    case 1 => Some(EncId(r.logicalOperation))
    case 2 => Some(EncId(IdFor(r.sourceDigest)))
    case 3 => Some(EncDigest(r.sourceDigest))
    case 4 => if IsZero(r.irDigest) then None else Some(EncId(IdFor(r.irDigest)))
    case 5 => if IsZero(r.irDigest) then None else Some(EncDigest(r.irDigest))
    case 6 => Opt(r.irFormat)
    case _ => None
  }

  function FrontField(t: Toolchain, tag: Byte): Option<Bytes> {
    match tag
    case 7 => Opt(t.frontend)
    case 8 => Opt(t.frontendVersion)
    case 9 => Opt(t.compiler)
    case 10 => Opt(t.compilerVersion)
    case 11 => Opt(t.backend)
    case 12 => Opt(t.backendVersion)
    case 13 => Opt(t.codeGenerator)
    case _ => None
  }

  function BackField(t: Toolchain, tag: Byte): Option<Bytes> {
    match tag
    case 14 => Opt(t.optimizer)
    case 15 => Opt(t.optimizerVersion)
    case 16 => Opt(t.linker)
    case 17 => Opt(t.linkerVersion)
    case 18 => Opt(t.runtime)
    case 19 => Opt(t.runtimeVersion)
    case 20 => Opt(t.driver)
    case 21 => Opt(t.driverVersion)
    case _ => None
  }

  function TargetField(r: Request, p: Plan, tag: Byte): Option<Bytes> {
    match tag
    case 22 => Some(EncU8(p.target.vendor))
    case 23 => Some(EncU8(p.target.family))
    case 24 => Opt(Or(p.target.architecture, r.targetArchitecture))
    case 25 => Opt(Or(p.target.computeCapability, r.computeCapability))
    case 26 => Opt(Or(p.target.isa, r.isa))
    case 27 => Opt(Or(p.target.abi, r.abi))
    case 29 => Opt(Or(p.target.kernelABI, r.kernelABI))
    case 30 => Opt(p.target.graphABI)
    case _ => None
  }

  function ShapeField(r: Request, p: Plan, tag: Byte): Option<Bytes> {
    match tag
    case 32 => Some(EncU8(if r.dtype != 0 then r.dtype else p.request.dtype))
    case 33 => Some(EncU8(if r.layout != 0 then r.layout else p.request.layout))
    case 34 => Some(EncU64(if r.rank != 0 then r.rank else p.request.rank))
    case 35 => Some(EncShape(if r.staticShape != [] then r.staticShape else p.request.staticShape))
    case 36 => Opt(r.symbolicShape)
    case 37 => Some(EncU64(if r.alignment != 0 then r.alignment else p.request.alignment))
    case _ => None
  }

  function SpecialField(r: Request, tag: Byte): Option<Bytes> {
    match tag
    case 38 => OptEnum(r.quantization)
    case 39 => OptEnum(r.precision)
    case 40 => Opt(r.launchSpecialization)
    case 41 => Opt(r.scalarConstants)
    case 42 => Opt(r.featureFlags)
    case 43 => Opt(r.optimizationFlags)
    case 44 => Opt(r.codegenFlags)
    case _ => None
  }

  function ModeField(r: Request, t: Toolchain, tag: Byte): Option<Bytes> {
    match tag
    case 45 => Some(EncU8(r.debugRelease))
    case 46 => OptEnum(r.determinism)
    case 47 => OptEnum(r.reproducibility)
    case 48 => Opt(t.environmentFingerprint)
    case 49 => if r.dependencyIdentities == [] then None else Some(EncIds(r.dependencyIdentities))
    case 50 => OptU64s(r.dependencyGenerations)
    case _ => None
  }

  function PolicyField(r: Request, t: Toolchain, tag: Byte): Option<Bytes> {
    match tag
    case 51 => Opt(r.modelRevision)
    case 52 => Some(EncU64(t.runtimeCompatGeneration))
    case 53 => Some(EncU64(t.compilerPolicyGeneration))
    case 54 => Opt(r.namespaceName)
    case 55 => Opt(r.tenant)
    case 56 => Some(EncString(r.source))
    case _ => None
  }

  predicate IsZero(d: Digest) { forall i :: 0 <= i < 32 ==> d[i] == 0 }

  function Get(m: map<Byte, Bytes>, tag: Byte): Option<Bytes> {
    if tag in m then Some(m[tag]) else None
  }

  type Table = Byte -> Option<Bytes>

  function TableOf(r: Request, p: Plan, t: Toolchain): Table {
    (tag: Byte) => FieldFor(r, p, t, tag)
  }

  /** `m` holds what the table says for every tag below `n`, for the source
      content once it is written, and nothing else. */
  ghost predicate Agrees(m: map<Byte, Bytes>, f: Table, n: int, src: bool) {
    forall tag: Byte {:trigger Get(m, tag)} ::
      Get(m, tag) == if tag < n || (src && tag == SOURCE_CONTENT) then f(tag) else None
  }

  /** One guarded setter call: `v` is absent when the source's guard is false. */
  method Set(k: CompilationKey, tag: Byte, v: Option<Bytes>,
             ghost f: Table, ghost src: bool)
    requires k.Valid() && Agrees(k.Contents(), f, tag, src)
    requires v == f(tag)
    modifies k
    ensures k.Valid() && Agrees(k.Contents(), f, tag + 1, src)
  {
    hide PutField, StrictlySorted, FieldMap;
    ghost var m := k.Contents();
    if v.Some? {
      k.Put(v.value, tag);
    }
    forall u: Byte ensures Get(k.Contents(), u) == if u < tag + 1 || (src && u == SOURCE_CONTENT) then f(u) else None {
      assert Get(m, u) == if u < tag || (src && u == SOURCE_CONTENT) then f(u) else None;
    }
  }

  method SetIdentity(k: CompilationKey, r: Request, ghost f: Table)
    requires f(0) == None && f(SOURCE_CONTENT) == Some(EncString(r.source))
    requires forall tag: Byte :: 1 <= tag < FRONTEND ==> f(tag) == SourceField(r, tag)
    requires k.Valid() && k.Contents() == map[]
    modifies k
    ensures k.Valid() && Agrees(k.Contents(), f, FRONTEND, true)
  {
    Set(k, LOGICAL_OPERATION, Some(EncId(r.logicalOperation)), f, false);
    var sid := ShiftDigest(r.sourceDigest);
    Set(k, SOURCE_IDENTITY, Some(EncId(sid)), f, false);
    Set(k, SOURCE_DIGEST, Some(EncDigest(r.sourceDigest)), f, false);
    SetSource(k, r, f);
    var noIR := IsZero(r.irDigest);
    var irid := ShiftDigest(r.irDigest);
    Set(k, IR_IDENTITY, if noIR then None else Some(EncId(irid)), f, true);
    Set(k, IR_DIGEST, if noIR then None else Some(EncDigest(r.irDigest)), f, true);
    Set(k, IR_FORMAT, Opt(r.irFormat), f, true);
  }

  method SetSource(k: CompilationKey, r: Request, ghost f: Table)
    requires f(SOURCE_CONTENT) == Some(EncString(r.source))
    requires k.Valid() && Agrees(k.Contents(), f, IR_IDENTITY, false)
    modifies k
    ensures k.Valid() && Agrees(k.Contents(), f, IR_IDENTITY, true)
  {
    ghost var m := k.Contents();
    k.Put(EncString(r.source), SOURCE_CONTENT);
    forall u: Byte
      ensures Get(k.Contents(), u) == if u < IR_IDENTITY || u == SOURCE_CONTENT then f(u) else None
    {
      assert Get(m, u) == if u < IR_IDENTITY then f(u) else None;
    }
  }

  method SetFrontEnd(k: CompilationKey, t: Toolchain, ghost f: Table)
    requires forall tag: Byte :: FRONTEND <= tag < OPTIMIZER ==> f(tag) == FrontField(t, tag)
    requires k.Valid() && Agrees(k.Contents(), f, FRONTEND, true)
    modifies k
    ensures k.Valid() && Agrees(k.Contents(), f, OPTIMIZER, true)
  {
    Set(k, FRONTEND, Opt(t.frontend), f, true);
    Set(k, FRONTEND_VERSION, Opt(t.frontendVersion), f, true);
    Set(k, COMPILER, Opt(t.compiler), f, true);
    Set(k, COMPILER_VERSION, Opt(t.compilerVersion), f, true);
    Set(k, BACKEND, Opt(t.backend), f, true);
    Set(k, BACKEND_VERSION, Opt(t.backendVersion), f, true);
    Set(k, CODE_GENERATOR, Opt(t.codeGenerator), f, true);
  }

  method SetBackEnd(k: CompilationKey, t: Toolchain, ghost f: Table)
    requires forall tag: Byte :: OPTIMIZER <= tag <= DRIVER_VERSION ==> f(tag) == BackField(t, tag)
    requires k.Valid() && Agrees(k.Contents(), f, OPTIMIZER, true)
    modifies k
    ensures k.Valid() && Agrees(k.Contents(), f, ACCELERATOR_VENDOR, true)
  {
    Set(k, OPTIMIZER, Opt(t.optimizer), f, true);
    Set(k, OPTIMIZER_VERSION, Opt(t.optimizerVersion), f, true);
    Set(k, LINKER, Opt(t.linker), f, true);
    Set(k, LINKER_VERSION, Opt(t.linkerVersion), f, true);
    Set(k, RUNTIME, Opt(t.runtime), f, true);
    Set(k, RUNTIME_VERSION, Opt(t.runtimeVersion), f, true);
    Set(k, DRIVER, Opt(t.driver), f, true);
    Set(k, DRIVER_VERSION, Opt(t.driverVersion), f, true);
  }

  method SetTarget(k: CompilationKey, r: Request, p: Plan, ghost f: Table)
    requires forall tag: Byte :: ACCELERATOR_VENDOR <= tag < DATATYPE ==> f(tag) == TargetField(r, p, tag)
    requires k.Valid() && Agrees(k.Contents(), f, ACCELERATOR_VENDOR, true)
    modifies k
    ensures k.Valid() && Agrees(k.Contents(), f, DATATYPE, true)
  {
    Set(k, ACCELERATOR_VENDOR, Some(EncU8(p.target.vendor)), f, true);
    Set(k, ACCELERATOR_FAMILY, Some(EncU8(p.target.family)), f, true);
    Set(k, TARGET_ARCHITECTURE, Opt(Or(p.target.architecture, r.targetArchitecture)), f, true);
    Set(k, COMPUTE_CAPABILITY, Opt(Or(p.target.computeCapability, r.computeCapability)), f, true);
    Set(k, ISA, Opt(Or(p.target.isa, r.isa)), f, true);
    Set(k, ABI, Opt(Or(p.target.abi, r.abi)), f, true);
    Skip(k.Contents(), f, CALLING_CONVENTION);
    SetKernelABI(k, r, p, f);
    Set(k, GRAPH_ABI, Opt(p.target.graphABI), f, true);
    Skip(k.Contents(), f, OPERATOR_REVISION);
  }

  /** The request's kernel ABI is set first and the target's overwrites it. */
  method SetKernelABI(k: CompilationKey, r: Request, p: Plan, ghost f: Table)
    requires f(KERNEL_ABI) == Opt(Or(p.target.kernelABI, r.kernelABI))
    requires k.Valid() && Agrees(k.Contents(), f, KERNEL_ABI, true)
    modifies k
    ensures k.Valid() && Agrees(k.Contents(), f, KERNEL_ABI + 1, true)
  {
    ghost var m := k.Contents();
    if r.kernelABI != [] { k.Put(EncString(r.kernelABI), KERNEL_ABI); }
    if p.target.kernelABI != [] { k.Put(EncString(p.target.kernelABI), KERNEL_ABI); }
    forall u: Byte
      ensures Get(k.Contents(), u) == if u <= KERNEL_ABI || u == SOURCE_CONTENT then f(u) else None
    {
      assert Get(m, u) == if u < KERNEL_ABI || u == SOURCE_CONTENT then f(u) else None;
    }
  }

  lemma Skip(m: map<Byte, Bytes>, f: Table, tag: Byte)
    requires Agrees(m, f, tag, true) && f(tag) == None
    ensures Agrees(m, f, tag + 1, true)
  {
    forall u: Byte ensures Get(m, u) == if u < tag + 1 || u == SOURCE_CONTENT then f(u) else None {
      assert Get(m, u) == if u < tag || u == SOURCE_CONTENT then f(u) else None;
    }
  }

  method SetShape(k: CompilationKey, r: Request, p: Plan, ghost f: Table)
    requires forall tag: Byte :: DATATYPE <= tag < QUANTIZATION ==> f(tag) == ShapeField(r, p, tag)
    requires k.Valid() && Agrees(k.Contents(), f, DATATYPE, true)
    modifies k
    ensures k.Valid() && Agrees(k.Contents(), f, QUANTIZATION, true)
  {
    Set(k, DATATYPE, Some(EncU8(if r.dtype != 0 then r.dtype else p.request.dtype)), f, true);
    Set(k, LAYOUT, Some(EncU8(if r.layout != 0 then r.layout else p.request.layout)), f, true);
    Set(k, RANK, Some(EncU64(if r.rank != 0 then r.rank else p.request.rank)), f, true);
    Set(k, STATIC_SHAPE, Some(EncShape(if r.staticShape != [] then r.staticShape else p.request.staticShape)), f, true);
    Set(k, SYMBOLIC_SHAPE, Opt(r.symbolicShape), f, true);
    Set(k, ALIGNMENT, Some(EncU64(if r.alignment != 0 then r.alignment else p.request.alignment)), f, true);
  }

  method SetSpecialization(k: CompilationKey, r: Request, ghost f: Table)
    requires forall tag: Byte :: QUANTIZATION <= tag < DEBUG_RELEASE ==> f(tag) == SpecialField(r, tag)
    requires k.Valid() && Agrees(k.Contents(), f, QUANTIZATION, true)
    modifies k
    ensures k.Valid() && Agrees(k.Contents(), f, DEBUG_RELEASE, true)
  {
    Set(k, QUANTIZATION, OptEnum(r.quantization), f, true);
    Set(k, PRECISION, OptEnum(r.precision), f, true);
    Set(k, LAUNCH_SPECIALIZATION, Opt(r.launchSpecialization), f, true);
    Set(k, SCALAR_CONSTANTS, Opt(r.scalarConstants), f, true);
    Set(k, FEATURE_FLAGS, Opt(r.featureFlags), f, true);
    Set(k, OPTIMIZATION_FLAGS, Opt(r.optimizationFlags), f, true);
    Set(k, CODEGEN_FLAGS, Opt(r.codegenFlags), f, true);
  }

  method SetModes(k: CompilationKey, r: Request, t: Toolchain, ghost f: Table)
    requires forall tag: Byte :: DEBUG_RELEASE <= tag < MODEL_REVISION ==> f(tag) == ModeField(r, t, tag)
    requires k.Valid() && Agrees(k.Contents(), f, DEBUG_RELEASE, true)
    modifies k
    ensures k.Valid() && Agrees(k.Contents(), f, MODEL_REVISION, true)
  {
    Set(k, DEBUG_RELEASE, Some(EncU8(r.debugRelease)), f, true);
    Set(k, DETERMINISM, OptEnum(r.determinism), f, true);
    Set(k, REPRODUCIBILITY, OptEnum(r.reproducibility), f, true);
    Set(k, ENV_FINGERPRINT, Opt(t.environmentFingerprint), f, true);
    Set(k, DEPENDENCY_IDENTITIES,
        if r.dependencyIdentities == [] then None else Some(EncIds(r.dependencyIdentities)), f, true);
    Set(k, DEPENDENCY_GENERATIONS,
        OptU64s(r.dependencyGenerations), f, true);
  }

  method SetPolicy(k: CompilationKey, r: Request, t: Toolchain, ghost f: Table)
    requires forall tag: Byte :: MODEL_REVISION <= tag < SOURCE_CONTENT ==> f(tag) == PolicyField(r, t, tag)
    requires k.Valid() && Agrees(k.Contents(), f, MODEL_REVISION, true)
    modifies k
    ensures k.Valid() && Agrees(k.Contents(), f, SOURCE_CONTENT, true)
  {
    Set(k, MODEL_REVISION, Opt(r.modelRevision), f, true);
    Set(k, RUNTIME_COMPATIBILITY_GENERATION, Some(EncU64(t.runtimeCompatGeneration)), f, true);
    Set(k, COMPILER_POLICY_GENERATION, Some(EncU64(t.compilerPolicyGeneration)), f, true);
    Set(k, NAMESPACE, Opt(r.namespaceName), f, true);
    Set(k, TENANT, Opt(r.tenant), f, true);
  }

  /** The run of setters in the source yields, for every request, plan and
      toolchain, exactly the tag-by-tag table. */
  method BuildCompilationKey(r: Request, p: Plan, t: Toolchain) returns (k: CompilationKey)
    ensures fresh(k) && k.Valid()
    ensures k.fields == KeyOf(r, p, t)
  {
    k := new CompilationKey();
    ghost var f := TableOf(r, p, t);
    SetIdentity(k, r, f);
    SetFrontEnd(k, t, f);
    SetBackEnd(k, t, f);
    SetTarget(k, r, p, f);
    SetShape(k, r, p, f);
    SetSpecialization(k, r, f);
    SetModes(k, r, t, f);
    SetPolicy(k, r, t, f);
    KeyOfUnique(k.fields, r, p, t, f);
  }

  /** The entries of a table with a tag in `from..57`, in tag order. */
  function Entries(f: Table, from: int): seq<Entry>
    requires 0 <= from <= 57
    decreases 57 - from, f
  {
    if from == 57 then []
    else (if f(from).Some? then [Entry(from, f(from).value)] else []) + Entries(f, from + 1)
  }

  /** The key of a request as a value: the field vector that the builder leaves behind. */
  function KeyOf(r: Request, p: Plan, t: Toolchain): seq<Entry> {
    Entries(TableOf(r, p, t), 0)
  }

  lemma {:induction false} EntriesSorted(f: Table, from: int)
    requires 0 <= from <= 57
    ensures StrictlySorted(Entries(f, from))
    ensures forall i :: 0 <= i < |Entries(f, from)| ==> from <= Entries(f, from)[i].tag < 57
    decreases 57 - from
  {
    if from < 57 {
      EntriesSorted(f, from + 1);
      var rest := Entries(f, from + 1);
      if f(from).Some? {
        assert Entries(f, from) == [Entry(from, f(from).value)] + rest;
      } else {
        assert Entries(f, from) == rest;
      }
    }
  }

  lemma {:induction false} EntriesLookup(f: Table, from: int, u: Byte)
    requires 0 <= from <= 57
    ensures Lookup(Entries(f, from), u) == if from <= u < 57 then f(u) else None
    decreases 57 - from
  {
    if from < 57 {
      EntriesLookup(f, from + 1, u);
      var rest := Entries(f, from + 1);
      if f(from).Some? {
        assert Entries(f, from)[1..] == rest;
      } else {
        assert Entries(f, from) == rest;
      }
    }
  }

  /** Every key is tag-sorted and has valid tags ... */
  lemma KeyOfSorted(r: Request, p: Plan, t: Toolchain)
    ensures StrictlySorted(KeyOf(r, p, t)) && AllValid(KeyOf(r, p, t))
  {
    var f := TableOf(r, p, t);
    EntriesSorted(f, 0);
    NoZeroTag(f);
  }

  lemma NoFieldAbove(r: Request, p: Plan, t: Toolchain, tag: Byte)
    requires tag >= 57
    ensures FieldFor(r, p, t, tag) == None
  {
  }

  /** ... and maps each tag as `FieldFor` says. */
  lemma KeyOfMeaning(r: Request, p: Plan, t: Toolchain, tag: Byte)
    ensures Lookup(KeyOf(r, p, t), tag) == FieldFor(r, p, t, tag)
  {
    hide FieldFor;
    var f := TableOf(r, p, t);
    EntriesLookup(f, 0, tag);
    assert f(tag) == FieldFor(r, p, t, tag);
    if tag >= 57 {
      NoFieldAbove(r, p, t, tag);
    }
  }

  lemma NoZeroTag(f: Table)
    requires f(0) == None
    ensures AllValid(Entries(f, 0))
  {
    EntriesSorted(f, 1);
    assert Entries(f, 0) == Entries(f, 1);
  }

  lemma KeyOfUnique(k: seq<Entry>, r: Request, p: Plan, t: Toolchain, f: Table)
    requires StrictlySorted(k) && Agrees(FieldMap(k), f, SOURCE_CONTENT, true)
    requires f == TableOf(r, p, t)
    ensures k == KeyOf(r, p, t)
  {
    assert forall u: Byte | u >= 57 :: f(u) == None;
    EntriesUnique(k, f);
  }

  lemma EntriesUnique(k: seq<Entry>, f: Table)
    requires StrictlySorted(k) && Agrees(FieldMap(k), f, SOURCE_CONTENT, true)
    requires forall u: Byte | u >= 57 :: f(u) == None
    ensures k == Entries(f, 0)
  {
    var g := Entries(f, 0);
    EntriesSorted(f, 0);
    forall u: Byte
      ensures u in Tags(k) <==> u in Tags(g)
      ensures u in Tags(k) ==> FieldMap(k)[u] == FieldMap(g)[u]
    {
      LookupHasTag(g, u);
      EntriesLookup(f, 0, u);
      assert Get(FieldMap(k), u) == f(u);
    }
    assert FieldMap(k) == FieldMap(g);
    SortedDetermined(k, g);
  }

  /** Equal keys agree on every tag. */
  lemma KeyEqualityIsFieldEquality(r: Request, p: Plan, t: Toolchain, r': Request, p': Plan, t': Toolchain)
    ensures KeyOf(r, p, t) == KeyOf(r', p', t')
       <==> forall tag: Byte :: FieldFor(r, p, t, tag) == FieldFor(r', p', t', tag)
  {
    if KeyOf(r, p, t) == KeyOf(r', p', t') {
      forall tag: Byte ensures FieldFor(r, p, t, tag) == FieldFor(r', p', t', tag) {
        EqualKeysAgree(r, p, t, r', p', t', tag);
      }
    } else if forall tag: Byte :: FieldFor(r, p, t, tag) == FieldFor(r', p', t', tag) {
      EntriesCongruent(TableOf(r, p, t), TableOf(r', p', t'), 0);
    }
  }

  lemma {:induction false} EntriesCongruent(f: Table, g: Table, from: int)
    requires 0 <= from <= 57
    requires forall u: Byte :: f(u) == g(u)
    ensures Entries(f, from) == Entries(g, from)
    decreases 57 - from
  {
    if from < 57 {
      EntriesCongruent(f, g, from + 1);
    }
  }

  lemma EqualKeysAgree(r: Request, p: Plan, t: Toolchain, r': Request, p': Plan, t': Toolchain, tag: Byte)
    requires KeyOf(r, p, t) == KeyOf(r', p', t')
    ensures FieldFor(r, p, t, tag) == FieldFor(r', p', t', tag)
  {
    KeyOfMeaning(r, p, t, tag);
    KeyOfMeaning(r', p', t', tag);
  }

  /** Two requests, each planned for itself, with the same key. */
  ghost predicate SameKey(r: Request, p: Plan, t: Toolchain, r': Request, p': Plan, t': Toolchain) {
    p.request == r && p'.request == r' && KeyOf(r, p, t) == KeyOf(r', p', t')
  }

  /** Requests with equal keys agree on source, datatype, shape and launch
      specialization: all that the CPU compiler reads apart from the
      optimization level.  (As in `compile`, the plan carries its request.) */
  lemma KeySeparatesProgram(r: Request, p: Plan, t: Toolchain, r': Request, p': Plan, t': Toolchain)
    requires SameKey(r, p, t, r', p', t')
    ensures r.source == r'.source && r.launchSpecialization == r'.launchSpecialization
    ensures r.dtype == r'.dtype && r.rank == r'.rank && r.staticShape == r'.staticShape
  {
    hide KeyOf, BE, FromBE;
    assert EncString(r.source) == EncString(r'.source) by { EqualKeysAgree(r, p, t, r', p', t', 56); }
    EncStringInjective(r.source, r'.source);
    assert Opt(r.launchSpecialization) == Opt(r'.launchSpecialization) by { EqualKeysAgree(r, p, t, r', p', t', 40); }
    OptInjective(r.launchSpecialization, r'.launchSpecialization);
    KeySeparatesShape(r, p, t, r', p', t');
  }

  lemma KeySeparatesShape(r: Request, p: Plan, t: Toolchain, r': Request, p': Plan, t': Toolchain)
    requires SameKey(r, p, t, r', p', t')
    ensures r.dtype == r'.dtype && r.rank == r'.rank && r.staticShape == r'.staticShape
  {
    assert EncU8(r.dtype) == EncU8(r'.dtype) by { EqualKeysAgree(r, p, t, r', p', t', 32); }
    assert EncU8(r.dtype)[0] == EncU8(r'.dtype)[0];
    assert EncU64(r.rank) == EncU64(r'.rank) by { EqualKeysAgree(r, p, t, r', p', t', 34); }
    EncU64Injective(r.rank, r'.rank);
    assert EncShape(r.staticShape) == EncShape(r'.staticShape) by { EqualKeysAgree(r, p, t, r', p', t', 35); }
    EncShapeInjective(r.staticShape, r'.staticShape);
  }

  /** ... on the rest of the numeric specialization ... */
  lemma KeySeparatesSpecialization(r: Request, p: Plan, t: Toolchain, r': Request, p': Plan, t': Toolchain)
    requires SameKey(r, p, t, r', p', t')
    ensures r.layout == r'.layout && r.alignment == r'.alignment
    ensures r.quantization == r'.quantization && r.precision == r'.precision
  {
    hide KeyOf, BE, FromBE;
    assert EncU8(r.layout) == EncU8(r'.layout) by { EqualKeysAgree(r, p, t, r', p', t', 33); }
    assert EncU8(r.layout)[0] == EncU8(r'.layout)[0];
    assert EncU64(r.alignment) == EncU64(r'.alignment) by { EqualKeysAgree(r, p, t, r', p', t', 37); }
    EncU64Injective(r.alignment, r'.alignment);
    assert OptEnum(r.quantization) == OptEnum(r'.quantization) by { EqualKeysAgree(r, p, t, r', p', t', 38); }
    OptEnumInjective(r.quantization, r'.quantization);
    assert OptEnum(r.precision) == OptEnum(r'.precision) by { EqualKeysAgree(r, p, t, r', p', t', 39); }
    OptEnumInjective(r.precision, r'.precision);
  }

  /** ... and on identity, dependencies and policy. */
  lemma KeySeparatesIdentity(r: Request, p: Plan, t: Toolchain, r': Request, p': Plan, t': Toolchain)
    requires SameKey(r, p, t, r', p', t')
    ensures r.logicalOperation == r'.logicalOperation && r.sourceDigest == r'.sourceDigest
    ensures r.dependencyGenerations == r'.dependencyGenerations
    ensures r.namespaceName == r'.namespaceName && r.tenant == r'.tenant
  {
    hide KeyOf, BE, FromBE;
    assert EncId(r.logicalOperation) == EncId(r'.logicalOperation) by { EqualKeysAgree(r, p, t, r', p', t', 1); }
    EncIdInjective(r.logicalOperation, r'.logicalOperation);
    assert r.sourceDigest == r'.sourceDigest by { EqualKeysAgree(r, p, t, r', p', t', 3); }
    assert OptU64s(r.dependencyGenerations) == OptU64s(r'.dependencyGenerations) by {
      EqualKeysAgree(r, p, t, r', p', t', 50);
    }
    OptU64sInjective(r.dependencyGenerations, r'.dependencyGenerations);
    assert Opt(r.namespaceName) == Opt(r'.namespaceName) by { EqualKeysAgree(r, p, t, r', p', t', 54); }
    OptInjective(r.namespaceName, r'.namespaceName);
    assert Opt(r.tenant) == Opt(r'.tenant) by { EqualKeysAgree(r, p, t, r', p', t', 55); }
    OptInjective(r.tenant, r'.tenant);
  }

  lemma OptU64sInjective(a: seq<U64>, b: seq<U64>)
    ensures OptU64s(a) == OptU64s(b) <==> a == b
  {
    EncU64sInjective(a, b);
  }

  lemma OptInjective(a: Bytes, b: Bytes)
    ensures Opt(a) == Opt(b) <==> a == b
  {
    EncStringInjective(a, b);
  }

  lemma OptEnumInjective(a: Byte, b: Byte)
    ensures OptEnum(a) == OptEnum(b) <==> a == b
  {
    if OptEnum(a) == OptEnum(b) && a != 0 {
      assert OptEnum(a).value[0] == OptEnum(b).value[0];
    }
  }
}
