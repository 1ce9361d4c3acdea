/** What a compilation key contains, tag by tag, and what two equal keys have in
    common, stated on the inputs of src/Request.cpp. */
module KeyContents {
  import opened Wire
  import opened Canonical
  import opened Key
  import opened Request

  /** A string that is left out when it is empty. */
  function Text(s: Bytes): Option<Bytes> { if |s| > 0 then Some(EncString(s)) else None }

  /** An enumeration that is left out at its first value. */
  function Enum(v: Byte): Option<Bytes> { if v > 0 then Some([v]) else None }

  // The inputs as they enter the key: the plan's target entries count before the
  // request's, and the request's shape entries before the planned request's.
  function Architecture(r: Request, p: Plan): Bytes { if |p.target.architecture| > 0 then p.target.architecture else r.targetArchitecture }
  function Capability(r: Request, p: Plan): Bytes { if |p.target.computeCapability| > 0 then p.target.computeCapability else r.computeCapability }
  function Isa(r: Request, p: Plan): Bytes { if |p.target.isa| > 0 then p.target.isa else r.isa }
  function Abi(r: Request, p: Plan): Bytes { if |p.target.abi| > 0 then p.target.abi else r.abi }
  function KernelAbi(r: Request, p: Plan): Bytes { if |p.target.kernelABI| > 0 then p.target.kernelABI else r.kernelABI }
  function Datatype(r: Request, p: Plan): Byte { if r.dtype > 0 then r.dtype else p.request.dtype }
  function Layout(r: Request, p: Plan): Byte { if r.layout > 0 then r.layout else p.request.layout }
  function Rank(r: Request, p: Plan): U64 { if r.rank > 0 then r.rank else p.request.rank }
  function StaticShape(r: Request, p: Plan): seq<I64> { if |r.staticShape| > 0 then r.staticShape else p.request.staticShape }
  function Alignment(r: Request, p: Plan): U64 { if r.alignment > 0 then r.alignment else p.request.alignment }

  // ------------------------------------------------------- tag by tag

  /** Tags 1 to 6 and 56: the operation, the source and the IR. */
  lemma SourceTags(r: Request, p: Plan, t: Toolchain)
    ensures var k := KeyOf(r, p, t);
            && Lookup(k, 1) == Some(EncId(r.logicalOperation))
            && Lookup(k, 2) == Some(EncId(IdFor(r.sourceDigest)))
            && Lookup(k, 3) == Some(r.sourceDigest)
            && Lookup(k, 4) == (if IsZero(r.irDigest) then None else Some(EncId(IdFor(r.irDigest))))
            && Lookup(k, 5) == (if IsZero(r.irDigest) then None else Some(r.irDigest))
            && Lookup(k, 6) == Text(r.irFormat)
            && Lookup(k, 56) == Some(EncString(r.source))
  {
    hide KeyOf, BE, FromBE, IdFor, EncList, EncIdList, IsZero;
    assert Lookup(KeyOf(r, p, t), 1) == FieldFor(r, p, t, 1) by { KeyOfMeaning(r, p, t, 1); }
    assert Lookup(KeyOf(r, p, t), 2) == FieldFor(r, p, t, 2) by { KeyOfMeaning(r, p, t, 2); }
    assert Lookup(KeyOf(r, p, t), 3) == FieldFor(r, p, t, 3) by { KeyOfMeaning(r, p, t, 3); }
    assert Lookup(KeyOf(r, p, t), 4) == FieldFor(r, p, t, 4) by { KeyOfMeaning(r, p, t, 4); }
    assert Lookup(KeyOf(r, p, t), 5) == FieldFor(r, p, t, 5) by { KeyOfMeaning(r, p, t, 5); }
    assert Lookup(KeyOf(r, p, t), 6) == FieldFor(r, p, t, 6) by { KeyOfMeaning(r, p, t, 6); }
    assert Lookup(KeyOf(r, p, t), 56) == FieldFor(r, p, t, 56) by { KeyOfMeaning(r, p, t, 56); }
  }

  /** Tags 7 to 13: front end, compiler and backend. */
  lemma FrontTags(r: Request, p: Plan, t: Toolchain)
    ensures var k := KeyOf(r, p, t);
            && Lookup(k, 7) == Text(t.frontend)
            && Lookup(k, 8) == Text(t.frontendVersion)
            && Lookup(k, 9) == Text(t.compiler)
            && Lookup(k, 10) == Text(t.compilerVersion)
            && Lookup(k, 11) == Text(t.backend)
            && Lookup(k, 12) == Text(t.backendVersion)
            && Lookup(k, 13) == Text(t.codeGenerator)
  {
    hide KeyOf, BE, FromBE, IdFor, EncList, EncIdList, IsZero;
    assert Lookup(KeyOf(r, p, t), 7) == FieldFor(r, p, t, 7) by { KeyOfMeaning(r, p, t, 7); }
    assert Lookup(KeyOf(r, p, t), 8) == FieldFor(r, p, t, 8) by { KeyOfMeaning(r, p, t, 8); }
    assert Lookup(KeyOf(r, p, t), 9) == FieldFor(r, p, t, 9) by { KeyOfMeaning(r, p, t, 9); }
    assert Lookup(KeyOf(r, p, t), 10) == FieldFor(r, p, t, 10) by { KeyOfMeaning(r, p, t, 10); }
    assert Lookup(KeyOf(r, p, t), 11) == FieldFor(r, p, t, 11) by { KeyOfMeaning(r, p, t, 11); }
    assert Lookup(KeyOf(r, p, t), 12) == FieldFor(r, p, t, 12) by { KeyOfMeaning(r, p, t, 12); }
    assert Lookup(KeyOf(r, p, t), 13) == FieldFor(r, p, t, 13) by { KeyOfMeaning(r, p, t, 13); }
  }

  /** Tags 14 to 21: optimizer, linker, runtime and driver. */
  lemma BackTags(r: Request, p: Plan, t: Toolchain)
    ensures var k := KeyOf(r, p, t);
            && Lookup(k, 14) == Text(t.optimizer)
            && Lookup(k, 15) == Text(t.optimizerVersion)
            && Lookup(k, 16) == Text(t.linker)
            && Lookup(k, 17) == Text(t.linkerVersion)
            && Lookup(k, 18) == Text(t.runtime)
            && Lookup(k, 19) == Text(t.runtimeVersion)
            && Lookup(k, 20) == Text(t.driver)
            && Lookup(k, 21) == Text(t.driverVersion)
  {
    hide KeyOf, BE, FromBE, IdFor, EncList, EncIdList, IsZero;
    assert Lookup(KeyOf(r, p, t), 14) == FieldFor(r, p, t, 14) by { KeyOfMeaning(r, p, t, 14); }
    assert Lookup(KeyOf(r, p, t), 15) == FieldFor(r, p, t, 15) by { KeyOfMeaning(r, p, t, 15); }
    assert Lookup(KeyOf(r, p, t), 16) == FieldFor(r, p, t, 16) by { KeyOfMeaning(r, p, t, 16); }
    assert Lookup(KeyOf(r, p, t), 17) == FieldFor(r, p, t, 17) by { KeyOfMeaning(r, p, t, 17); }
    assert Lookup(KeyOf(r, p, t), 18) == FieldFor(r, p, t, 18) by { KeyOfMeaning(r, p, t, 18); }
    assert Lookup(KeyOf(r, p, t), 19) == FieldFor(r, p, t, 19) by { KeyOfMeaning(r, p, t, 19); }
    assert Lookup(KeyOf(r, p, t), 20) == FieldFor(r, p, t, 20) by { KeyOfMeaning(r, p, t, 20); }
    assert Lookup(KeyOf(r, p, t), 21) == FieldFor(r, p, t, 21) by { KeyOfMeaning(r, p, t, 21); }
  }

  /** Tags 22 to 30: the target; the plan's entry counts before the request's. */
  lemma TargetTags(r: Request, p: Plan, t: Toolchain)
    ensures var k := KeyOf(r, p, t);
            && Lookup(k, 22) == Some([p.target.vendor])
            && Lookup(k, 23) == Some([p.target.family])
            && Lookup(k, 24) == Text(Architecture(r, p))
            && Lookup(k, 25) == Text(Capability(r, p))
            && Lookup(k, 26) == Text(Isa(r, p))
            && Lookup(k, 27) == Text(Abi(r, p))
            && Lookup(k, 29) == Text(KernelAbi(r, p))
            && Lookup(k, 30) == Text(p.target.graphABI)
  {
    hide KeyOf, BE, FromBE, IdFor, EncList, EncIdList, IsZero;
    assert Lookup(KeyOf(r, p, t), 22) == FieldFor(r, p, t, 22) by { KeyOfMeaning(r, p, t, 22); }
    assert Lookup(KeyOf(r, p, t), 23) == FieldFor(r, p, t, 23) by { KeyOfMeaning(r, p, t, 23); }
    assert Lookup(KeyOf(r, p, t), 24) == FieldFor(r, p, t, 24) by { KeyOfMeaning(r, p, t, 24); }
    assert Lookup(KeyOf(r, p, t), 25) == FieldFor(r, p, t, 25) by { KeyOfMeaning(r, p, t, 25); }
    assert Lookup(KeyOf(r, p, t), 26) == FieldFor(r, p, t, 26) by { KeyOfMeaning(r, p, t, 26); }
    assert Lookup(KeyOf(r, p, t), 27) == FieldFor(r, p, t, 27) by { KeyOfMeaning(r, p, t, 27); }
    assert Lookup(KeyOf(r, p, t), 29) == FieldFor(r, p, t, 29) by { KeyOfMeaning(r, p, t, 29); }
    assert Lookup(KeyOf(r, p, t), 30) == FieldFor(r, p, t, 30) by { KeyOfMeaning(r, p, t, 30); }
  }

  /** Tags 32 to 37: datatype, layout, shape and alignment; the request's entry counts before the plan's. */
  lemma ShapeTags(r: Request, p: Plan, t: Toolchain)
    ensures var k := KeyOf(r, p, t);
            && Lookup(k, 32) == Some([Datatype(r, p)])
            && Lookup(k, 33) == Some([Layout(r, p)])
            && Lookup(k, 34) == Some(EncU64(Rank(r, p)))
            && Lookup(k, 35) == Some(EncShape(StaticShape(r, p)))
            && Lookup(k, 36) == Text(r.symbolicShape)
            && Lookup(k, 37) == Some(EncU64(Alignment(r, p)))
  {
    hide KeyOf, BE, FromBE, IdFor, EncList, EncIdList, IsZero;
    assert Lookup(KeyOf(r, p, t), 32) == FieldFor(r, p, t, 32) by { KeyOfMeaning(r, p, t, 32); }
    assert Lookup(KeyOf(r, p, t), 33) == FieldFor(r, p, t, 33) by { KeyOfMeaning(r, p, t, 33); }
    assert Lookup(KeyOf(r, p, t), 34) == FieldFor(r, p, t, 34) by { KeyOfMeaning(r, p, t, 34); }
    assert Lookup(KeyOf(r, p, t), 35) == FieldFor(r, p, t, 35) by { KeyOfMeaning(r, p, t, 35); }
    assert Lookup(KeyOf(r, p, t), 36) == FieldFor(r, p, t, 36) by { KeyOfMeaning(r, p, t, 36); }
    assert Lookup(KeyOf(r, p, t), 37) == FieldFor(r, p, t, 37) by { KeyOfMeaning(r, p, t, 37); }
  }

  /** Tags 38 to 44: the numeric specialization and the flags. */
  lemma SpecialTags(r: Request, p: Plan, t: Toolchain)
    ensures var k := KeyOf(r, p, t);
            && Lookup(k, 38) == Enum(r.quantization)
            && Lookup(k, 39) == Enum(r.precision)
            && Lookup(k, 40) == Text(r.launchSpecialization)
            && Lookup(k, 41) == Text(r.scalarConstants)
            && Lookup(k, 42) == Text(r.featureFlags)
            && Lookup(k, 43) == Text(r.optimizationFlags)
            && Lookup(k, 44) == Text(r.codegenFlags)
  {
    hide KeyOf, BE, FromBE, IdFor, EncList, EncIdList, IsZero;
    assert Lookup(KeyOf(r, p, t), 38) == FieldFor(r, p, t, 38) by { KeyOfMeaning(r, p, t, 38); }
    assert Lookup(KeyOf(r, p, t), 39) == FieldFor(r, p, t, 39) by { KeyOfMeaning(r, p, t, 39); }
    assert Lookup(KeyOf(r, p, t), 40) == FieldFor(r, p, t, 40) by { KeyOfMeaning(r, p, t, 40); }
    assert Lookup(KeyOf(r, p, t), 41) == FieldFor(r, p, t, 41) by { KeyOfMeaning(r, p, t, 41); }
    assert Lookup(KeyOf(r, p, t), 42) == FieldFor(r, p, t, 42) by { KeyOfMeaning(r, p, t, 42); }
    assert Lookup(KeyOf(r, p, t), 43) == FieldFor(r, p, t, 43) by { KeyOfMeaning(r, p, t, 43); }
    assert Lookup(KeyOf(r, p, t), 44) == FieldFor(r, p, t, 44) by { KeyOfMeaning(r, p, t, 44); }
  }

  /** Tags 45 to 50: modes, environment and dependencies. */
  lemma ModeTags(r: Request, p: Plan, t: Toolchain)
    ensures var k := KeyOf(r, p, t);
            && Lookup(k, 45) == Some([r.debugRelease])
            && Lookup(k, 46) == Enum(r.determinism)
            && Lookup(k, 47) == Enum(r.reproducibility)
            && Lookup(k, 48) == Text(t.environmentFingerprint)
            && Lookup(k, 49) == (if r.dependencyIdentities == [] then None else Some(EncIds(r.dependencyIdentities)))
            && Lookup(k, 50) == (if r.dependencyGenerations == [] then None else Some(EncU64s(r.dependencyGenerations)))
  {
    hide KeyOf, BE, FromBE, IdFor, EncList, EncIdList, IsZero;
    assert Lookup(KeyOf(r, p, t), 45) == FieldFor(r, p, t, 45) by { KeyOfMeaning(r, p, t, 45); }
    assert Lookup(KeyOf(r, p, t), 46) == FieldFor(r, p, t, 46) by { KeyOfMeaning(r, p, t, 46); }
    assert Lookup(KeyOf(r, p, t), 47) == FieldFor(r, p, t, 47) by { KeyOfMeaning(r, p, t, 47); }
    assert Lookup(KeyOf(r, p, t), 48) == FieldFor(r, p, t, 48) by { KeyOfMeaning(r, p, t, 48); }
    assert Lookup(KeyOf(r, p, t), 49) == FieldFor(r, p, t, 49) by { KeyOfMeaning(r, p, t, 49); }
    assert Lookup(KeyOf(r, p, t), 50) == FieldFor(r, p, t, 50) by { KeyOfMeaning(r, p, t, 50); }
  }

  /** Tags 51 to 55: revision, generations, namespace and tenant. */
  lemma PolicyTags(r: Request, p: Plan, t: Toolchain)
    ensures var k := KeyOf(r, p, t);
            && Lookup(k, 51) == Text(r.modelRevision)
            && Lookup(k, 52) == Some(EncU64(t.runtimeCompatGeneration))
            && Lookup(k, 53) == Some(EncU64(t.compilerPolicyGeneration))
            && Lookup(k, 54) == Text(r.namespaceName)
            && Lookup(k, 55) == Text(r.tenant)
  {
    hide KeyOf, BE, FromBE, IdFor, EncList, EncIdList, IsZero;
    assert Lookup(KeyOf(r, p, t), 51) == FieldFor(r, p, t, 51) by { KeyOfMeaning(r, p, t, 51); }
    assert Lookup(KeyOf(r, p, t), 52) == FieldFor(r, p, t, 52) by { KeyOfMeaning(r, p, t, 52); }
    assert Lookup(KeyOf(r, p, t), 53) == FieldFor(r, p, t, 53) by { KeyOfMeaning(r, p, t, 53); }
    assert Lookup(KeyOf(r, p, t), 54) == FieldFor(r, p, t, 54) by { KeyOfMeaning(r, p, t, 54); }
    assert Lookup(KeyOf(r, p, t), 55) == FieldFor(r, p, t, 55) by { KeyOfMeaning(r, p, t, 55); }
  }

  /** No other tag is ever used. */
  lemma NoOtherTags(r: Request, p: Plan, t: Toolchain, tag: Byte)
    requires tag == 0 || tag == 28 || tag == 31 || tag > 56
    ensures Lookup(KeyOf(r, p, t), tag) == None
  {
    hide KeyOf, BE, FromBE, IdFor;
    KeyOfMeaning(r, p, t, tag);
  }

  /** What the string getter returns for such a tag. */
  lemma TextReadsBack(k: seq<Entry>, tag: Byte, s: Bytes)
    requires Lookup(k, tag) == Text(s) && |s| < TWO64
    ensures match Lookup(k, tag)
            case None => s == []
            case Some(v) => s != [] && DecString(v) == Some(s)
  {
    hide BE, FromBE, DecString, EncString;
    ScalarsReadBack(s, 0);
  }

  // ------------------------------------------------------- equal keys

  predicate SameSource(r: Request, r': Request) {
    && r.logicalOperation == r'.logicalOperation && r.source == r'.source && r.sourceDigest == r'.sourceDigest
    && r.irDigest == r'.irDigest && r.irFormat == r'.irFormat
  }

  predicate SameTarget(r: Request, p: Plan, r': Request, p': Plan) {
    && p.target.vendor == p'.target.vendor && p.target.family == p'.target.family && p.target.graphABI == p'.target.graphABI
    && Architecture(r, p) == Architecture(r', p') && Capability(r, p) == Capability(r', p') && Isa(r, p) == Isa(r', p')
    && Abi(r, p) == Abi(r', p') && KernelAbi(r, p) == KernelAbi(r', p')
  }

  predicate SameShape(r: Request, p: Plan, r': Request, p': Plan) {
    && Datatype(r, p) == Datatype(r', p') && Layout(r, p) == Layout(r', p') && Rank(r, p) == Rank(r', p')
    && StaticShape(r, p) == StaticShape(r', p') && Alignment(r, p) == Alignment(r', p') && r.symbolicShape == r'.symbolicShape
  }

  predicate SameSpecialization(r: Request, r': Request) {
    && r.quantization == r'.quantization && r.precision == r'.precision
    && r.launchSpecialization == r'.launchSpecialization && r.scalarConstants == r'.scalarConstants
    && r.featureFlags == r'.featureFlags && r.optimizationFlags == r'.optimizationFlags && r.codegenFlags == r'.codegenFlags
  }

  predicate SameModes(r: Request, r': Request) {
    && r.debugRelease == r'.debugRelease && r.determinism == r'.determinism && r.reproducibility == r'.reproducibility
    && r.dependencyIdentities == r'.dependencyIdentities && r.dependencyGenerations == r'.dependencyGenerations
    && r.modelRevision == r'.modelRevision && r.namespaceName == r'.namespaceName && r.tenant == r'.tenant
  }

  /** Everything two compilations must share for one to serve the other. */
  predicate SameInputs(r: Request, p: Plan, t: Toolchain, r': Request, p': Plan, t': Toolchain) {
    && SameSource(r, r') && t == t' && SameTarget(r, p, r', p') && SameShape(r, p, r', p')
    && SameSpecialization(r, r') && SameModes(r, r')
  }

  lemma TextInjective(a: Bytes, b: Bytes)
    ensures Text(a) == Text(b) <==> a == b
  {
    EncStringInjective(a, b);
  }

  lemma EnumInjective(a: Byte, b: Byte)
    ensures Enum(a) == Enum(b) <==> a == b
    ensures Some([a]) == Some([b]) <==> a == b
  {
    assert [a][0] == a && [b][0] == b;
  }

  /** Equal keys come from equal sources, ... */
  lemma KeySeparatesSource(r: Request, p: Plan, t: Toolchain, r': Request, p': Plan, t': Toolchain)
    requires KeyOf(r, p, t) == KeyOf(r', p', t')
    ensures SameSource(r, r')
  {
    hide KeyOf, BE, FromBE, IdFor, Lookup, IsZero, PutId, PutBlob;
    SourceTags(r, p, t);
    SourceTags(r', p', t');
    EncIdInjective(r.logicalOperation, r'.logicalOperation);
    EncStringInjective(r.source, r'.source);
    TextInjective(r.irFormat, r'.irFormat);
    if IsZero(r.irDigest) && IsZero(r'.irDigest) {
      ZeroDigestUnique(r.irDigest, r'.irDigest);
    }
  }

  lemma ZeroDigestUnique(d: Digest, e: Digest)
    requires IsZero(d) && IsZero(e)
    ensures d == e
  {
  }

  /** ... equal front ends, compilers and backends, ... */
  lemma KeySeparatesFront(r: Request, p: Plan, t: Toolchain, r': Request, p': Plan, t': Toolchain)
    requires KeyOf(r, p, t) == KeyOf(r', p', t')
    ensures t.frontend == t'.frontend && t.frontendVersion == t'.frontendVersion
         && t.compiler == t'.compiler && t.compilerVersion == t'.compilerVersion
         && t.backend == t'.backend && t.backendVersion == t'.backendVersion
         && t.codeGenerator == t'.codeGenerator
  {
    hide KeyOf, BE, FromBE, Lookup, Text, Enum, EncU64, EncShape, EncIds, EncU64s;
    FrontTags(r, p, t);
    FrontTags(r', p', t');
    TextInjective(t.frontend, t'.frontend);
    TextInjective(t.frontendVersion, t'.frontendVersion);
    TextInjective(t.compiler, t'.compiler);
    TextInjective(t.compilerVersion, t'.compilerVersion);
    TextInjective(t.backend, t'.backend);
    TextInjective(t.backendVersion, t'.backendVersion);
    TextInjective(t.codeGenerator, t'.codeGenerator);
  }

  /** ... equal optimizers, linkers, runtimes and drivers, ... */
  lemma KeySeparatesBack(r: Request, p: Plan, t: Toolchain, r': Request, p': Plan, t': Toolchain)
    requires KeyOf(r, p, t) == KeyOf(r', p', t')
    ensures t.optimizer == t'.optimizer && t.optimizerVersion == t'.optimizerVersion
         && t.linker == t'.linker && t.linkerVersion == t'.linkerVersion
         && t.runtime == t'.runtime && t.runtimeVersion == t'.runtimeVersion
         && t.driver == t'.driver && t.driverVersion == t'.driverVersion
  {
    hide KeyOf, BE, FromBE, Lookup, Text, Enum, EncU64, EncShape, EncIds, EncU64s;
    BackTags(r, p, t);
    BackTags(r', p', t');
    TextInjective(t.optimizer, t'.optimizer);
    TextInjective(t.optimizerVersion, t'.optimizerVersion);
    TextInjective(t.linker, t'.linker);
    TextInjective(t.linkerVersion, t'.linkerVersion);
    TextInjective(t.runtime, t'.runtime);
    TextInjective(t.runtimeVersion, t'.runtimeVersion);
    TextInjective(t.driver, t'.driver);
    TextInjective(t.driverVersion, t'.driverVersion);
  }

  /** ... so from equal toolchains, ... */
  lemma KeySeparatesToolchain(r: Request, p: Plan, t: Toolchain, r': Request, p': Plan, t': Toolchain)
    requires KeyOf(r, p, t) == KeyOf(r', p', t')
    ensures t == t'
  {
    hide KeyOf, BE, FromBE, Lookup, Text, Enum, EncU64, EncIds, EncU64s;
    KeySeparatesFront(r, p, t, r', p', t');
    KeySeparatesBack(r, p, t, r', p', t');
    ModeTags(r, p, t);
    ModeTags(r', p', t');
    PolicyTags(r, p, t);
    PolicyTags(r', p', t');
    TextInjective(t.environmentFingerprint, t'.environmentFingerprint);
    EncU64Injective(t.runtimeCompatGeneration, t'.runtimeCompatGeneration);
    EncU64Injective(t.compilerPolicyGeneration, t'.compilerPolicyGeneration);
  }

  /** ... equal targets, ... */
  lemma KeySeparatesTarget(r: Request, p: Plan, t: Toolchain, r': Request, p': Plan, t': Toolchain)
    requires KeyOf(r, p, t) == KeyOf(r', p', t')
    ensures SameTarget(r, p, r', p')
  {
    hide KeyOf, BE, FromBE, Lookup, Text, Enum, Architecture, Capability, Isa, Abi, KernelAbi;
    TargetTags(r, p, t);
    TargetTags(r', p', t');
    EnumInjective(p.target.vendor, p'.target.vendor);
    EnumInjective(p.target.family, p'.target.family);
    TextInjective(p.target.graphABI, p'.target.graphABI);
    TextInjective(Architecture(r, p), Architecture(r', p'));
    TextInjective(Capability(r, p), Capability(r', p'));
    TextInjective(Isa(r, p), Isa(r', p'));
    TextInjective(Abi(r, p), Abi(r', p'));
    TextInjective(KernelAbi(r, p), KernelAbi(r', p'));
  }

  /** ... equal shapes, ... */
  lemma KeySeparatesShapes(r: Request, p: Plan, t: Toolchain, r': Request, p': Plan, t': Toolchain)
    requires KeyOf(r, p, t) == KeyOf(r', p', t')
    ensures SameShape(r, p, r', p')
  {
    hide KeyOf, BE, FromBE, Lookup, Text, Enum, EncU64, EncShape, Datatype, Layout, Rank, StaticShape, Alignment;
    ShapeTags(r, p, t);
    ShapeTags(r', p', t');
    EnumInjective(Datatype(r, p), Datatype(r', p'));
    EnumInjective(Layout(r, p), Layout(r', p'));
    EncU64Injective(Rank(r, p), Rank(r', p'));
    EncShapeInjective(StaticShape(r, p), StaticShape(r', p'));
    EncU64Injective(Alignment(r, p), Alignment(r', p'));
    TextInjective(r.symbolicShape, r'.symbolicShape);
  }

  /** ... equal specializations and flags, ... */
  lemma KeySeparatesFlags(r: Request, p: Plan, t: Toolchain, r': Request, p': Plan, t': Toolchain)
    requires KeyOf(r, p, t) == KeyOf(r', p', t')
    ensures SameSpecialization(r, r')
  {
    hide KeyOf, BE, FromBE, Lookup, Text, Enum, EncU64, EncShape, EncIds, EncU64s;
    SpecialTags(r, p, t);
    SpecialTags(r', p', t');
    EnumInjective(r.quantization, r'.quantization);
    EnumInjective(r.precision, r'.precision);
    TextInjective(r.launchSpecialization, r'.launchSpecialization);
    TextInjective(r.scalarConstants, r'.scalarConstants);
    TextInjective(r.featureFlags, r'.featureFlags);
    TextInjective(r.optimizationFlags, r'.optimizationFlags);
    TextInjective(r.codegenFlags, r'.codegenFlags);
  }

  lemma ListsSeparate(r: Request, r': Request)
    ensures (if r.dependencyIdentities == [] then None else Some(EncIds(r.dependencyIdentities)))
         == (if r'.dependencyIdentities == [] then None else Some(EncIds(r'.dependencyIdentities)))
       <==> r.dependencyIdentities == r'.dependencyIdentities
    ensures (if r.dependencyGenerations == [] then None else Some(EncU64s(r.dependencyGenerations)))
         == (if r'.dependencyGenerations == [] then None else Some(EncU64s(r'.dependencyGenerations)))
       <==> r.dependencyGenerations == r'.dependencyGenerations
  {
    hide EncIds, EncU64s;
    EncIdsInjective(r.dependencyIdentities, r'.dependencyIdentities);
    EncU64sInjective(r.dependencyGenerations, r'.dependencyGenerations);
  }

  /** ... and equal modes, dependencies, namespaces and tenants. */
  lemma KeySeparatesModes(r: Request, p: Plan, t: Toolchain, r': Request, p': Plan, t': Toolchain)
    requires KeyOf(r, p, t) == KeyOf(r', p', t')
    ensures SameModes(r, r')
  {
    hide KeyOf, BE, FromBE, Lookup, Text, Enum, EncU64, EncShape, EncIds, EncU64s;
    ModeTags(r, p, t);
    ModeTags(r', p', t');
    PolicyTags(r, p, t);
    PolicyTags(r', p', t');
    EnumInjective(r.debugRelease, r'.debugRelease);
    EnumInjective(r.determinism, r'.determinism);
    EnumInjective(r.reproducibility, r'.reproducibility);
    ListsSeparate(r, r');
    TextInjective(r.modelRevision, r'.modelRevision);
    TextInjective(r.namespaceName, r'.namespaceName);
    TextInjective(r.tenant, r'.tenant);
  }

  /** Conversely equal inputs give equal fields, ... */
  lemma SameFields(r: Request, p: Plan, t: Toolchain, r': Request, p': Plan, t': Toolchain, tag: Byte)
    requires SameInputs(r, p, t, r', p', t')
    ensures Lookup(KeyOf(r, p, t), tag) == Lookup(KeyOf(r', p', t'), tag)
  {
    hide KeyOf, Lookup, BE, FromBE, IdFor, IsZero, Text, Enum, EncU64, EncShape, EncIds, EncU64s, EncString, EncId;
    if tag < 7 || tag == 56 {
      if tag == 0 { NoOtherTags(r, p, t, tag); NoOtherTags(r', p', t', tag); }
      SourceTags(r, p, t); SourceTags(r', p', t');
    } else if tag < 14 {
      FrontTags(r, p, t); FrontTags(r', p', t');
    } else if tag < 22 {
      BackTags(r, p, t); BackTags(r', p', t');
    } else if tag < 32 {
      if tag == 28 || tag == 31 { NoOtherTags(r, p, t, tag); NoOtherTags(r', p', t', tag); }
      TargetTags(r, p, t); TargetTags(r', p', t');
    } else if tag < 38 {
      ShapeTags(r, p, t); ShapeTags(r', p', t');
    } else if tag < 45 {
      SpecialTags(r, p, t); SpecialTags(r', p', t');
    } else if tag < 51 {
      ModeTags(r, p, t); ModeTags(r', p', t');
    } else if tag < 56 {
      PolicyTags(r, p, t); PolicyTags(r', p', t');
    } else {
      NoOtherTags(r, p, t, tag); NoOtherTags(r', p', t', tag);
    }
  }

  /** ... so two keys are equal exactly when all these inputs are. */
  lemma KeysEqualIff(r: Request, p: Plan, t: Toolchain, r': Request, p': Plan, t': Toolchain)
    ensures KeyOf(r, p, t) == KeyOf(r', p', t') <==> SameInputs(r, p, t, r', p', t')
  {
    hide KeyOf, Lookup, FieldFor, SameSource, SameTarget, SameShape, SameSpecialization, SameModes;
    if KeyOf(r, p, t) == KeyOf(r', p', t') {
      KeySeparatesSource(r, p, t, r', p', t');
      KeySeparatesToolchain(r, p, t, r', p', t');
      KeySeparatesTarget(r, p, t, r', p', t');
      KeySeparatesShapes(r, p, t, r', p', t');
      KeySeparatesFlags(r, p, t, r', p', t');
      KeySeparatesModes(r, p, t, r', p', t');
    }
    if SameInputs(r, p, t, r', p', t') {
      forall tag: Byte ensures FieldFor(r, p, t, tag) == FieldFor(r', p', t', tag) {
        SameFields(r, p, t, r', p', t', tag);
        KeyOfMeaning(r, p, t, tag);
        KeyOfMeaning(r', p', t', tag);
      }
      KeyEqualityIsFieldEquality(r, p, t, r', p', t');
    }
  }
}
