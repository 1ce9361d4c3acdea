/** The bytecode artifact of src/CpuBackend.cpp: encoder, decoder and the
    compile step that ties them to the optimizer. */
module Bytecode {
  import opened Wire
  import opened Cpu
  import opened Key
  import Request

  const MAGIC: U32 := 0x4346_4231
  const VERSION: U32 := 1
  const MAX_OPS := 4096

  datatype Decoded = Ok(program: Program) | ArtifactCorrupt | ArtifactInvalid

  /** Strings have 64-bit sizes. */
  predicate Sized(p: Program) { |p.name| < TWO64 && |p.launchConfig| < TWO64 }

  function ToU32(x: I32): U32 { if x < 0 then x + TWO32 else x }
  function ToI32(x: U32): I32 { if x >= 0x8000_0000 then x - TWO32 else x }

  // ------------------------------------------------------------- encoding

  function PutOp(op: Op): Bytes { [op.kind] + (BE(8, op.scalar) + BE(4, op.n)) }

  function PutOps(ops: seq<Op>): Bytes {
    if ops == [] then [] else PutOp(ops[0]) + PutOps(ops[1..])
  }

  function PutHeader(p: Program): Bytes {
    PutBlob(p.name) + (BE(8, p.shapeN) + ([p.dtype] + (BE(4, ToU32(p.alignment)) + PutBlob(p.launchConfig))))
  }

  function Encoded(p: Program): Bytes {
    BE(4, MAGIC) + (BE(4, VERSION) + (PutHeader(p) + (BE(4, |p.ops| % TWO32) + PutOps(p.ops))))
  }

  lemma {:induction false} PutOpsSnoc(ops: seq<Op>, op: Op)
    ensures PutOps(ops + [op]) == PutOps(ops) + PutOp(op)
  {
    hide PutOp;
    if ops == [] {
      assert ops + [op] == [op] && [op][1..] == [];
    } else {
      assert (ops + [op])[1..] == ops[1..] + [op];
      PutOpsSnoc(ops[1..], op);
      Assoc(PutOp(ops[0]), PutOps(ops[1..]), PutOp(op));
    }
  }

  method WriteOps(w: CanonicalWriter, ops: seq<Op>)
    modifies w
    ensures w.buf == old(w.buf) + PutOps(ops)
  {
    ghost var base := w.buf;
    for i := 0 to |ops|
      invariant w.buf == base + PutOps(ops[..i])
    {
      WriteOp(w, ops[i]);
      hide PutOp, PutOps;
      assert ops[..i + 1] == ops[..i] + [ops[i]];
      PutOpsSnoc(ops[..i], ops[i]);
      Assoc(base, PutOps(ops[..i]), PutOp(ops[i]));
    }
    assert ops[..|ops|] == ops;
  }

  method WriteOp(w: CanonicalWriter, op: Op)
    modifies w
    ensures w.buf == old(w.buf) + PutOp(op)
  {
    w.U8(op.kind);
    w.U64(op.scalar);
    w.U32(op.n);
  }

  method WriteHeader(w: CanonicalWriter, p: Program)
    requires Sized(p)
    modifies w
    ensures w.buf == old(w.buf) + PutHeader(p)
  {
    hide BE, PutBlob;
    w.Str(p.name);
    w.U64(p.shapeN);
    w.U8(p.dtype);
    w.U32(ToU32(p.alignment));
    w.Str(p.launchConfig);
  }

  method Encode(p: Program) returns (b: Bytes)
    requires Sized(p)
    ensures b == Encoded(p)
  {
    hide BE, PutHeader, PutOps;
    var w := new CanonicalWriter();
    w.U32(MAGIC);
    w.U32(VERSION);
    WriteHeader(w, p);
    w.U32(|p.ops| % TWO32);
    WriteOps(w, p.ops);
    b := w.buf;
  }

  // ------------------------------------------------------------- decoding

  function GetOp(s: Bytes): Parsed<Op> {
    match GetU8(s)
    case Short => Short
    case Got(kind, r1) =>
      match GetU64(r1)
      case Short => Short
      case Got(scalar, r2) =>
        match GetU32(r2)
        case Short => Short
        case Got(n, r3) => Got(Op(kind, scalar, n), r3)
  }

  function GetOps(n: nat, s: Bytes): Parsed<seq<Op>>
    decreases n, s
  {
    if n == 0 then Got([], s) else
      match GetOp(s)
      case Short => Short
      case Got(op, r) =>
        match GetOps(n - 1, r)
        case Short => Short
        case Got(ops, r') => Got([op] + ops, r')
  }

  /** The fixed fields, as a program without operations. */
  function GetHeader(s: Bytes): Parsed<Program> {
    match GetBlob(s)
    case Short => Short
    case Got(name, r1) =>
      match GetU64(r1)
      case Short => Short
      case Got(shapeN, r2) =>
        match GetU8(r2)
        case Short => Short
        case Got(dtype, r3) => GetTail(Program(name, [], dtype, shapeN, 0, []), r3)
  }

  function GetTail(p: Program, s: Bytes): Parsed<Program> {
    match GetU32(s)
    case Short => Short
    case Got(align, r1) =>
      match GetBlob(r1)
      case Short => Short
      case Got(launch, r2) => Got(p.(alignment := ToI32(align), launchConfig := launch), r2)
  }

  function DecodeBody(s: Bytes): Decoded {
    match GetHeader(s)
    case Short => ArtifactCorrupt
    case Got(p, r) => DecodeOps(p, r)
  }

  function DecodeOps(p: Program, s: Bytes): Decoded {
    match GetU32(s)
    case Short => ArtifactCorrupt
    case Got(n, r) =>
      if n > MAX_OPS then ArtifactCorrupt else
        match GetOps(n, r)
        case Short => ArtifactCorrupt
        case Got(ops, r') =>
          if r' != [] || ops == [] then ArtifactCorrupt else Ok(p.(ops := ops))
  }

  function DecodeVersioned(s: Bytes): Decoded {
    match GetU32(s)
    case Short => ArtifactInvalid
    case Got(version, r) => if version != VERSION then ArtifactInvalid else DecodeBody(r)
  }

  /** A wrong version is reported as invalid, every other defect as corrupt. */
  function DecodedOf(b: Bytes): Decoded {
    match GetU32(b)
    case Short => ArtifactCorrupt
    case Got(magic, r) => if magic != MAGIC then ArtifactCorrupt else DecodeVersioned(r)
  }

  method ReadOp(rd: CanonicalReader) returns (ok: bool, op: Op)
    requires rd.Valid()
    modifies rd`pos
    ensures rd.Valid()
    ensures ok <==> GetOp(old(rd.Rest())).Got?
    ensures ok ==> GetOp(old(rd.Rest())) == Got(op, rd.Rest())
  {
    hide GetUint;
    var ok1, kind := rd.U8();
    if !ok1 { return false, Op(0, 0, 0); }
    var ok2, scalar := rd.U64();
    if !ok2 { return false, Op(0, 0, 0); }
    var ok3, n := rd.U32();
    if !ok3 { return false, Op(0, 0, 0); }
    return true, Op(kind, scalar, n);
  }

  /** Prepends already-read operations to the outcome for the rest. */
  function Prepend(ops: seq<Op>, r: Parsed<seq<Op>>): Parsed<seq<Op>> {
    match r
    case Short => Short
    case Got(more, rest) => Got(ops + more, rest)
  }

  lemma PrependOp(ops: seq<Op>, op: Op, n: nat, s: Bytes, r: Bytes)
    requires n > 0 && GetOp(s) == Got(op, r)
    ensures Prepend(ops, GetOps(n, s)) == Prepend(ops + [op], GetOps(n - 1, r))
  {
    hide GetOp;
    var rest := GetOps(n - 1, r);
    if rest.Got? {
      assert ops + ([op] + rest.value) == (ops + [op]) + rest.value;
    }
  }

  method ReadOps(rd: CanonicalReader, n: nat) returns (ok: bool, ops: seq<Op>)
    requires rd.Valid()
    modifies rd`pos
    ensures rd.Valid()
    ensures ok <==> GetOps(n, old(rd.Rest())).Got?
    ensures ok ==> GetOps(n, old(rd.Rest())) == Got(ops, rd.Rest())
  {
    hide GetOp;
    ghost var whole := GetOps(n, rd.Rest());
    ops := [];
    assert whole.Got? ==> [] + whole.value == whole.value;
    for i := 0 to n
      invariant rd.Valid()
      invariant whole == Prepend(ops, GetOps(n - i, rd.Rest()))
    {
      ghost var s := rd.Rest();
      var ok1, op := ReadOp(rd);
      if !ok1 { return false, []; }
      PrependOp(ops, op, n - i, s, rd.Rest());
      ops := ops + [op];
    }
    assert ops + [] == ops;
    ok := true;
  }

  method ReadTail(rd: CanonicalReader, p: Program) returns (ok: bool, q: Program)
    requires rd.Valid()
    modifies rd`pos
    ensures rd.Valid()
    ensures ok <==> GetTail(p, old(rd.Rest())).Got?
    ensures ok ==> GetTail(p, old(rd.Rest())) == Got(q, rd.Rest())
  {
    hide GetUint, GetBlob;
    var ok1, align := rd.U32();
    if !ok1 { return false, p; }
    var ok2, launch := rd.Blob();
    if !ok2 { return false, p; }
    return true, p.(alignment := ToI32(align), launchConfig := launch);
  }

  method ReadHeader(rd: CanonicalReader) returns (ok: bool, p: Program)
    requires rd.Valid()
    modifies rd`pos
    ensures rd.Valid()
    ensures ok <==> GetHeader(old(rd.Rest())).Got?
    ensures ok ==> GetHeader(old(rd.Rest())) == Got(p, rd.Rest())
  {
    hide GetUint, GetBlob, GetTail;
    p := Program([], [], 0, 0, 0, []);
    var ok1, name := rd.Blob();
    if !ok1 { return false, p; }
    var ok2, shape := rd.U64();
    if !ok2 { return false, p; }
    var ok3, dt := rd.U8();
    if !ok3 { return false, p; }
    ok, p := ReadTail(rd, Program(name, [], dt, shape, 0, []));
  }

  method ReadBody(rd: CanonicalReader) returns (r: Decoded)
    requires rd.Valid()
    modifies rd`pos
    ensures r == DecodeBody(old(rd.Rest()))
  {
    hide GetUint, GetHeader, GetOps;
    var ok1, p := ReadHeader(rd);
    if !ok1 { return ArtifactCorrupt; }
    var ok2, n := rd.U32();
    if !ok2 { return ArtifactCorrupt; }
    if n > MAX_OPS { return ArtifactCorrupt; }
    var ok3, ops := ReadOps(rd, n);
    if !ok3 { return ArtifactCorrupt; }
    var more := rd.HasRemaining();
    if more { return ArtifactCorrupt; }
    if ops == [] { return ArtifactCorrupt; }
    return Ok(p.(ops := ops));
  }

  method Decode(b: Bytes) returns (r: Decoded)
    ensures r == DecodedOf(b)
  {
    hide GetUint, DecodeBody;
    var rd := new CanonicalReader(b);
    var ok1, magic := rd.U32();
    if !ok1 || magic != MAGIC { return ArtifactCorrupt; }
    var ok2, version := rd.U32();
    if !ok2 || version != VERSION { return ArtifactInvalid; }
    r := ReadBody(rd);
  }

  // --------------------------------------------------------- inverse laws

  lemma OpPut(op: Op, rest: Bytes)
    ensures GetOp(PutOp(op) + rest) == Got(op, rest)
  {
    hide BE, GetUint, FromBE, Pow256;
    var s := PutOp(op) + rest;
    assert s[0] == op.kind;
    assert s[1..] == BE(8, op.scalar) + (BE(4, op.n) + rest);
    GetU64Put(op.scalar, BE(4, op.n) + rest);
    GetU32Put(op.n, rest);
  }

  lemma OpInv(s: Bytes)
    requires GetOp(s).Got?
    ensures s == PutOp(GetOp(s).value) + GetOp(s).rest
  {
    hide BE, GetUint, FromBE, Pow256;
    var Got(op, rest) := GetOp(s);
    GetUintInv(8, s[1..]);
    var r2 := GetU64(s[1..]).rest;
    GetUintInv(4, r2);
    Split(s, 1);
    assert s[..1] == [op.kind];
    Assoc(BE(8, op.scalar), BE(4, op.n), rest);
    Assoc([op.kind], BE(8, op.scalar) + BE(4, op.n), rest);
  }

  lemma {:induction false} OpsPut(n: nat, ops: seq<Op>, rest: Bytes)
    requires n == |ops|
    ensures GetOps(n, PutOps(ops) + rest) == Got(ops, rest)
  {
    hide GetOp, PutOp;
    if n > 0 {
      assert ops == [ops[0]] + ops[1..];
      OpsPut(n - 1, ops[1..], rest);
      OpPut(ops[0], PutOps(ops[1..]) + rest);
      Assoc(PutOp(ops[0]), PutOps(ops[1..]), rest);
    } else {
      assert [] + rest == rest;
    }
  }

  lemma {:induction false} OpsInv(n: nat, s: Bytes)
    requires GetOps(n, s).Got?
    ensures |GetOps(n, s).value| == n
    ensures s == PutOps(GetOps(n, s).value) + GetOps(n, s).rest
  {
    hide GetOp, PutOp;
    if n > 0 {
      var Got(op, r) := GetOp(s);
      OpInv(s);
      OpsInv(n - 1, r);
      var Got(ops, r') := GetOps(n - 1, r);
      assert ([op] + ops)[1..] == ops;
      Assoc(PutOp(op), PutOps(ops), r');
    }
  }

  lemma TailPut(p: Program, align: I32, launch: Bytes, rest: Bytes)
    requires |launch| < TWO64
    ensures GetTail(p, BE(4, ToU32(align)) + PutBlob(launch) + rest)
         == Got(p.(alignment := align, launchConfig := launch), rest)
  {
    hide BE, GetUint, GetBlob, PutBlob;
    Assoc(BE(4, ToU32(align)), PutBlob(launch), rest);
    GetU32Put(ToU32(align), PutBlob(launch) + rest);
    GetBlobPut(launch, rest);
  }

  lemma HeaderPut(p: Program, rest: Bytes)
    requires Sized(p)
    ensures GetHeader(PutHeader(p) + rest) == Got(p.(ops := []), rest)
  {
    hide BE, GetUint, GetBlob, PutBlob, GetTail;
    var tail := BE(4, ToU32(p.alignment)) + PutBlob(p.launchConfig);
    var mid := [p.dtype] + tail;
    Assoc(PutBlob(p.name), BE(8, p.shapeN) + mid, rest);
    Assoc(BE(8, p.shapeN), mid, rest);
    Assoc([p.dtype], tail, rest);
    GetBlobPut(p.name, BE(8, p.shapeN) + (mid + rest));
    GetU64Put(p.shapeN, mid + rest);
    assert GetU8(mid + rest) == Got(p.dtype, tail + rest) by {
      assert (mid + rest)[1..] == tail + rest;
    }
    TailPut(Program(p.name, [], p.dtype, p.shapeN, 0, []), p.alignment, p.launchConfig, rest);
  }

  lemma TailInv(p: Program, s: Bytes)
    requires GetTail(p, s).Got?
    ensures var q := GetTail(p, s).value;
            && q.name == p.name && q.ops == p.ops && q.dtype == p.dtype && q.shapeN == p.shapeN
            && |q.launchConfig| < TWO64
            && s == BE(4, ToU32(q.alignment)) + PutBlob(q.launchConfig) + GetTail(p, s).rest
  {
    hide BE, GetUint, GetBlob, PutBlob;
    GetUintInv(4, s);
    var r := GetU32(s).rest;
    GetBlobInv(r);
    var q := GetTail(p, s).value;
    Assoc(BE(4, ToU32(q.alignment)), PutBlob(q.launchConfig), GetTail(p, s).rest);
  }

  lemma HeaderInv(s: Bytes)
    requires GetHeader(s).Got?
    ensures Sized(GetHeader(s).value) && GetHeader(s).value.ops == []
    ensures s == PutHeader(GetHeader(s).value) + GetHeader(s).rest
  {
    hide BE, GetUint, GetBlob, PutBlob, GetTail;
    var Got(q, rest) := GetHeader(s);
    var Got(name, r1) := GetBlob(s);
    var Got(shapeN, r2) := GetU64(r1);
    var Got(dtype, r3) := GetU8(r2);
    GetBlobInv(s);
    GetUintInv(8, r1);
    Split(r2, 1);
    assert r2[..1] == [dtype];
    TailInv(Program(name, [], dtype, shapeN, 0, []), r3);
    var tail := BE(4, ToU32(q.alignment)) + PutBlob(q.launchConfig);
    var mid := [q.dtype] + tail;
    Assoc([q.dtype], tail, rest);
    Assoc(BE(8, q.shapeN), mid, rest);
    Assoc(PutBlob(q.name), BE(8, q.shapeN) + mid, rest);
  }

  /** Exact inverse, for every program whatever its size: the decoder returns
      the program if it has between 1 and 4096 operations and rejects it
      otherwise, also when the 32-bit count was truncated. */
  lemma DecodeOfEncode(p: Program)
    requires Sized(p)
    ensures DecodedOf(Encoded(p)) == if 1 <= |p.ops| <= 4096 then Ok(p) else ArtifactCorrupt
  {
    hide BE, GetUint, PutHeader, GetHeader, GetOps, PutOps;
    var n := |p.ops| % TWO32;
    var ops := BE(4, n) + PutOps(p.ops);
    var body := PutHeader(p) + ops;
    GetU32Put(MAGIC, BE(4, VERSION) + body);
    GetU32Put(VERSION, body);
    HeaderPut(p, ops);
    DecodeOfOps(p.(ops := []), p.ops);
  }

  lemma DecodeOfOps(p: Program, ops: seq<Op>)
    ensures DecodeOps(p, BE(4, |ops| % TWO32) + PutOps(ops))
         == if 1 <= |ops| <= MAX_OPS then Ok(p.(ops := ops)) else ArtifactCorrupt
  {
    hide BE, DecodeOps, PutOps;
    TruncatedCount(|ops|);
    DecodeOfCounted(p, ops, |ops| % TWO32);
  }

  lemma TruncatedCount(k: nat)
    ensures k % TWO32 <= k && (k % TWO32 == k || k > MAX_OPS)
  {
  }

  lemma DecodeOfCounted(p: Program, ops: seq<Op>, n: U32)
    requires n <= |ops| && (n == |ops| || |ops| > MAX_OPS)
    ensures DecodeOps(p, BE(4, n) + PutOps(ops))
         == if 1 <= |ops| <= MAX_OPS then Ok(p.(ops := ops)) else ArtifactCorrupt
  {
    hide BE, GetUint, GetOps, PutOps;
    GetU32Put(n, PutOps(ops));
    TakeOps(ops, n);
    PutOpsEmpty(ops[n..]);
    if n == |ops| {
      assert ops[..n] == ops;
    }
  }

  lemma TakeOps(ops: seq<Op>, n: nat)
    requires n <= |ops|
    ensures GetOps(n, PutOps(ops)) == Got(ops[..n], PutOps(ops[n..]))
  {
    hide GetOps, PutOps;
    PutOpsConcat(ops[..n], ops[n..]);
    assert ops[..n] + ops[n..] == ops;
    OpsPut(n, ops[..n], PutOps(ops[n..]));
  }

  lemma {:induction false} PutOpsConcat(a: seq<Op>, b: seq<Op>)
    ensures PutOps(a + b) == PutOps(a) + PutOps(b)
  {
    hide PutOp;
    if a == [] {
      assert a + b == b;
    } else {
      assert (a + b)[1..] == a[1..] + b;
      PutOpsConcat(a[1..], b);
      Assoc(PutOp(a[0]), PutOps(a[1..]), PutOps(b));
    }
  }

  lemma PutOpsEmpty(ops: seq<Op>)
    ensures PutOps(ops) == [] <==> ops == []
  {
    if ops != [] {
      assert PutOps(ops)[0] == ops[0].kind;
    }
  }

  /** Every byte string that decodes is the encoding of what it decodes to, so
      no two byte strings decode to the same program. */
  lemma EncodeOfDecode(b: Bytes)
    requires DecodedOf(b).Ok?
    ensures var p := DecodedOf(b).program;
            1 <= |p.ops| <= MAX_OPS && Sized(p) && Encoded(p) == b
  {
    hide BE, GetUint, PutHeader, GetHeader, GetOps, PutOps;
    var p := DecodedOf(b).program;
    var r1 := GetU32(b).rest;
    var r2 := GetU32(r1).rest;
    var Got(h, r3) := GetHeader(r2);
    GetUintInv(4, b);
    GetUintInv(4, r1);
    HeaderInv(r2);
    DecodeOpsInv(h, r3);
    HeaderIgnoresOps(h, p.ops);
  }

  lemma HeaderIgnoresOps(p: Program, ops: seq<Op>)
    ensures PutHeader(p.(ops := ops)) == PutHeader(p)
  {
  }

  lemma DecodeOpsInv(h: Program, s: Bytes)
    requires DecodeOps(h, s).Ok?
    ensures var p := DecodeOps(h, s).program;
            && p == h.(ops := p.ops) && 1 <= |p.ops| <= MAX_OPS
            && s == BE(4, |p.ops| % TWO32) + PutOps(p.ops)
  {
    hide BE, GetUint, GetOps, PutOps;
    var Got(n, r) := GetU32(s);
    GetUintInv(4, s);
    OpsInv(n, r);
    var ops := GetOps(n, r).value;
    assert PutOps(ops) + [] == PutOps(ops);
  }

  // ------------------------------------------------------------- compiling

  /** The program of a request: the parsed source with the declared datatype,
      shape and launch configuration. */
  function Reconcile(p: Program, r: Request.Request): Program {
    var dtype := if r.dtype != 0 then r.dtype else p.dtype;
    var shape := if r.staticShape != [] then ToU64(r.staticShape[0]) else p.shapeN;
    var shape' := if r.rank != 0 && r.staticShape == [] && shape < r.rank then r.rank else shape;
    p.(dtype := dtype, shapeN := shape', launchConfig := r.launchSpecialization)
  }

  /** What a request overrides: a declared datatype, the first static dimension, or
      else a rank larger than the parsed shape, and always the launch configuration. */
  lemma RequestOverrides(p: Program, r: Request.Request)
    ensures var q := Reconcile(p, r);
            && q == p.(dtype := q.dtype, shapeN := q.shapeN, launchConfig := r.launchSpecialization)
            && (q.dtype == r.dtype || (r.dtype == 0 && q.dtype == p.dtype))
            && (|r.staticShape| > 0 ==> (q.shapeN - r.staticShape[0]) % TWO64 == 0)
            && (|r.staticShape| == 0 ==> q.shapeN >= p.shapeN && q.shapeN >= r.rank && q.shapeN in {p.shapeN, r.rank})
  {
  }

  /** The parser of the source text is a parameter: `None` is InvalidSource. */
  type Parser = Bytes -> Option<Program>

  function ProgramOf(parse: Parser, r: Request.Request): Option<Program> {
    match parse(r.source)
    case None => None
    case Some(p) => Some(Reconcile(p, r))
  }

  /** The bytes `CpuBackend::compile` emits for a request at an optimization level. */
  function CompiledBytes<T>(f: Fpu<T>, parse: Parser, r: Request.Request, level: int): Option<Bytes> {
    match ProgramOf(parse, r)
    case None => None
    case Some(p) => Some(Encoded(p.(ops := Optimized(f, level, p.ops))))
  }

  /** A parsed source has operations, though not necessarily at most 4096, and
      its name is a string. */
  ghost predicate ParserOk(parse: Parser) {
    forall s :: parse(s).Some? ==> parse(s).value.ops != [] && |parse(s).value.name| < TWO64
  }

  method Compile<T>(f: Fpu<T>, parse: Parser, r: Request.Request) returns (b: Option<Bytes>)
    requires ParserOk(parse) && |r.launchSpecialization| < TWO64
    ensures b == CompiledBytes(f, parse, r, r.optimizeLevel)
  {
    var parsed := parse(r.source);
    if parsed.None? { return None; }
    var prog := parsed.value;
    if r.dtype != 0 { prog := prog.(dtype := r.dtype); }
    if r.staticShape != [] { prog := prog.(shapeN := ToU64(r.staticShape[0])); }
    if r.rank != 0 {
      var other := if r.staticShape == [] then r.rank else prog.shapeN;
      prog := prog.(shapeN := if prog.shapeN < other then other else prog.shapeN);
    }
    prog := prog.(launchConfig := r.launchSpecialization);
    var opt := Optimize(f, r.optimizeLevel, prog.ops);
    var bytes := Encode(prog.(ops := opt));
    return Some(bytes);
  }

  /** What an artifact means: the outputs of the program it decodes to. */
  ghost predicate Computes<T(!new)>(f: Fpu<T>, b: Bytes, p: Program) {
    && DecodedOf(b).Ok?
    && forall seed :: Meaning(f, DecodedOf(b).program, seed) == Meaning(f, p, seed)
  }

  /** Compilation is correct at every level: if the emitted bytes decode at all,
      they compute what the request's own unoptimized program computes; and they
      decode exactly when the optimized list has at most 4096 operations. */
  lemma CompileCorrect<T(!new)>(f: Fpu<T>, parse: Parser, r: Request.Request, level: int)
    requires Lawful(f) && ParserOk(parse) && |r.launchSpecialization| < TWO64
    requires ProgramOf(parse, r).Some?
    ensures var p := ProgramOf(parse, r).value;
            var b := CompiledBytes(f, parse, r, level).value;
            && (DecodedOf(b).Ok? <==> |Optimized(f, level, p.ops)| <= 4096)
            && (DecodedOf(b).Ok? ==> Computes(f, b, p))
  {
    var p := ProgramOf(parse, r).value;
    var q := p.(ops := Optimized(f, level, p.ops));
    OptimizeIdempotent(f, level, p.ops);
    DecodeOfEncode(q);
    hide Meaning, Optimized, Encoded;
    forall seed: U64 ensures Meaning(f, q, seed) == Meaning(f, p, seed) {
      OptimizePreservesMeaning(f, level, p, seed);
    }
  }

  /** `validate`: the bytes decode, the descriptor's digest is zero or matches,
      and the output equals itself element by element (a NaN does not). */
  predicate Validates<T>(f: Fpu<T>, hash: Bytes -> Digest, b: Bytes, contentDigest: Digest, seed: U64) {
    && DecodedOf(b).Ok?
    && (Request.IsZero(contentDigest) || contentDigest == hash(b))
    && var out := Meaning(f, DecodedOf(b).program, seed);
       forall i :: 0 <= i < |out| ==> f.eq(out[i], out[i])
  }

  /** An artifact with its own digest, or with none, validates exactly if it has 1
      to 4096 operations and every output equals itself; with another's digest never. */
  lemma ValidatedIff<T>(f: Fpu<T>, hash: Bytes -> Digest, p: Program, d: Digest, seed: U64)
    requires Sized(p)
    ensures var b := Encoded(p); var out := Meaning(f, p, seed);
            Validates(f, hash, b, d, seed)
            <==> && 1 <= |p.ops| <= 4096
                 && ((forall i :: 0 <= i < 32 ==> d[i] == 0) || d == hash(b))
                 && forall i :: 0 <= i < |out| ==> f.eq(out[i], out[i])
  {
    hide Encoded, Meaning;
    DecodeOfEncode(p);
  }

  method Validate<T>(f: Fpu<T>, hash: Bytes -> Digest, b: Bytes, contentDigest: Digest, seed: U64)
    returns (passed: bool)
    ensures passed <==> Validates(f, hash, b, contentDigest, seed)
  {
    hide Meaning, DecodedOf;
    var dec := Decode(b);
    if !dec.Ok? { return false; }
    var digestOk := Request.IsZero(contentDigest) || contentDigest == hash(b);
    var out := Execute(f, dec.program, seed);
    var ref := Execute(f, dec.program, seed);
    ghost var m := Meaning(f, dec.program, seed);
    assert forall i :: 0 <= i < out.Length ==> out[i] == m[i] && ref[i] == m[i] by {
      assert out[..] == m && ref[..] == m;
      assert forall i :: 0 <= i < out.Length ==> out[i] == out[..][i] && ref[i] == ref[..][i];
    }
    var same := out.Length == ref.Length;
    if same {
      for i := 0 to out.Length
        invariant same
        invariant forall k :: 0 <= k < i ==> f.eq(m[k], m[k])
      {
        if !f.eq(out[i], ref[i]) { same := false; break; }
      }
    }
    passed := same && digestOk;
  }
}
