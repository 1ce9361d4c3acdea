/** Where every number and string stands in the byte formats: what a reader that
    was written against the format alone would find at each offset. */
module Layouts {
  import opened Wire
  import Canonical
  import Key
  import Request
  import Hex
  import Cpu
  import Bytecode
  import Protocol
  import Channel
  import Persistence
  import J = Json

  /** The number in the `n` bytes from `i` on, most significant byte first. */
  function At(s: Bytes, i: nat, n: nat): nat
    requires i + n <= |s|
  {
    FromBE(s[i..i + n])
  }

  function At4(s: Bytes, i: nat): (v: U32)
    requires i + 4 <= |s|
    ensures v == At(s, i, 4)
  {
    Pow256Values();
    FromBEBound(s[i..i + 4]);
    At(s, i, 4)
  }

  lemma AtHead(n: nat, v: nat, rest: Bytes)
    requires v < Pow256(n)
    ensures At(BE(n, v) + rest, 0, n) == v
  {
    FromBEofBE(n, v);
    assert (BE(n, v) + rest)[0..n] == BE(n, v);
  }

  /** A head of 4 or 8 bytes. */
  lemma AtHead4(v: U32, rest: Bytes)
    ensures At(BE(4, v) + rest, 0, 4) == v && (BE(4, v) + rest)[4..] == rest
  {
    Pow256Values();
    AtHead(4, v, rest);
  }

  lemma AtHead8(v: U64, rest: Bytes)
    ensures At(BE(8, v) + rest, 0, 8) == v && (BE(8, v) + rest)[8..] == rest
  {
    Pow256Values();
    AtHead(8, v, rest);
  }

  /** Positions in a tail. */
  lemma AtTail(s: Bytes, k: nat, i: nat, n: nat)
    requires k + i + n <= |s|
    ensures At(s[k..], i, n) == At(s, k + i, n)
  {
    assert s[k..][i..i + n] == s[k + i..k + i + n];
  }

  lemma TailTail(s: Bytes, k: nat, i: nat)
    requires k + i <= |s|
    ensures s[k..][i..] == s[k + i..]
  {
  }

  // ---------------------------------------------------------------- frames

  /** A frame: its length, the version, type, flags and sequence number in four
      bytes each, the payload's length in eight, the payload. */
  lemma FrameLayout(f: Protocol.Frame)
    requires |f.payload| < TWO32 - 24
    ensures var b := Channel.Framed(f);
            && |b| == 28 + |f.payload| && At(b, 0, 4) == 24 + |f.payload|
            && At(b, 4, 4) == 1 && At(b, 8, 4) == f.mtype && At(b, 12, 4) == f.flags && At(b, 16, 4) == f.seqno
            && At(b, 20, 8) == |f.payload| && b[28..] == f.payload
  {
    hide At, BE;
    Channel.BodyLength(f);
    var b := Channel.Framed(f);
    var b5 := PutBlob(f.payload);
    var b4 := BE(4, f.seqno) + b5;
    var b3 := BE(4, f.flags) + b4;
    var b2 := BE(4, f.mtype) + b3;
    var b1 := BE(4, Protocol.PROTOCOL_VERSION) + b2;
    assert Protocol.Body(f) == b1;
    AtHead4(|b1|, b1);
    AtHead4(Protocol.PROTOCOL_VERSION, b2);
    AtHead4(f.mtype, b3);
    AtHead4(f.flags, b4);
    AtHead4(f.seqno, b5);
    AtHead8(|f.payload|, f.payload);
    Offsets(b, b1, b2, b3, b4, b5);
  }

  lemma Offsets(b: Bytes, b1: Bytes, b2: Bytes, b3: Bytes, b4: Bytes, b5: Bytes)
    requires |b| >= 28 && b[4..] == b1 && b1[4..] == b2 && b2[4..] == b3 && b3[4..] == b4 && b4[4..] == b5
    ensures At(b, 4, 4) == At(b1, 0, 4) && At(b, 8, 4) == At(b2, 0, 4) && At(b, 12, 4) == At(b3, 0, 4)
    ensures At(b, 16, 4) == At(b4, 0, 4) && At(b, 20, 8) == At(b5, 0, 8) && b[28..] == b5[8..]
  {
    hide At;
    TailTail(b, 4, 4);
    TailTail(b, 8, 4);
    TailTail(b, 12, 4);
    TailTail(b, 16, 4);
    TailTail(b, 20, 8);
    AtTail(b, 4, 0, 4);
    AtTail(b, 8, 0, 4);
    AtTail(b, 12, 0, 4);
    AtTail(b, 16, 0, 4);
    AtTail(b, 20, 0, 8);
  }

  /** The limit on a frame, as one on its payload. */
  lemma SendableIff(f: Protocol.Frame)
    ensures Channel.Sendable(f) <==> 1 <= f.mtype <= 12 && |f.payload| <= 1_048_552
  {
    Channel.BodyLength(f);
  }

  /** Which error a frame body meets, by what stands at its offsets: the first
      defect in the order of the fields. */
  lemma BodyErrors(b: Bytes)
    ensures |b| < 4 ==> Protocol.DecodedBody(b) == Protocol.Err(Protocol.TruncatedFrame)
    ensures |b| >= 4 && At(b, 0, 4) != 1 ==> Protocol.DecodedBody(b) == Protocol.Err(Protocol.ProtocolVersionMismatch)
    ensures 4 <= |b| < 8 && At(b, 0, 4) == 1 ==> Protocol.DecodedBody(b) == Protocol.Err(Protocol.TruncatedFrame)
    ensures |b| >= 8 && At(b, 0, 4) == 1 && !(1 <= At(b, 4, 4) <= 12) ==>
      Protocol.DecodedBody(b) == Protocol.Err(Protocol.UnknownMessageType)
    ensures |b| >= 8 && At(b, 0, 4) == 1 && 1 <= At(b, 4, 4) <= 12 ==>
      Protocol.DecodedBody(b)
      == if |b| < 24 || |b| < 24 + At(b, 16, 8) then Protocol.Err(Protocol.TruncatedFrame)
         else if |b| > 24 + At(b, 16, 8) then Protocol.Err(Protocol.TrailingGarbage)
         else Protocol.Ok(Protocol.Frame(At4(b, 4), At4(b, 8), At4(b, 12), b[24..]))
  {
    hide Protocol.DecodedRest, FromBE;
    if |b| >= 8 {
      assert b[4..][..4] == b[4..8] && b[4..][4..] == b[8..];
      RestErrors(At4(b, 4), b[8..]);
      if |b| >= 24 {
        AtTail(b, 8, 0, 4);
        AtTail(b, 8, 4, 4);
        AtTail(b, 8, 8, 8);
        assert b[8..][16..] == b[24..];
      }
    }
  }

  lemma RestErrors(t: U32, s: Bytes)
    ensures Protocol.DecodedRest(t, s)
         == if |s| < 16 || |s| < 16 + At(s, 8, 8) then Protocol.Err(Protocol.TruncatedFrame)
            else if |s| > 16 + At(s, 8, 8) then Protocol.Err(Protocol.TrailingGarbage)
            else Protocol.Ok(Protocol.Frame(t, At4(s, 0), At4(s, 4), s[16..]))
  {
    hide FromBE;
    if |s| >= 16 {
      assert s[4..][..4] == s[4..8] && s[4..][4..] == s[8..] && s[8..][..8] == s[8..16] && s[8..][8..] == s[16..];
      var len := At(s, 8, 8);
      if |s| == 16 + len {
        assert s[16..][..len] == s[16..] && s[16..][len..] == [];
      }
    } else if |s| >= 4 {
      assert |s[4..]| == |s| - 4;
    }
  }

  /** Which error receiving a frame meets, and what it leaves on the stream. */
  lemma StreamErrors(s: Bytes)
    ensures |s| < 4 ==> Channel.Received(s) == (Protocol.Err(Protocol.IOError), [])
    ensures |s| >= 4 && At(s, 0, 4) == 0 ==> Channel.Received(s) == (Protocol.Err(Protocol.MalformedFrame), s[4..])
    ensures |s| >= 4 && At(s, 0, 4) > 1_048_576 ==> Channel.Received(s) == (Protocol.Err(Protocol.OverSizedFrame), s[4..])
    ensures |s| >= 4 && 1 <= At(s, 0, 4) <= 1_048_576 && |s| < 4 + At(s, 0, 4) ==>
      Channel.Received(s) == (Protocol.Err(Protocol.TruncatedFrame), [])
    ensures |s| >= 4 && 1 <= At(s, 0, 4) <= 1_048_576 && |s| >= 4 + At(s, 0, 4) ==>
      Channel.Received(s) == (Protocol.DecodedBody(s[4..4 + At(s, 0, 4)]), s[4 + At(s, 0, 4)..])
  {
    hide FromBE, Protocol.DecodedBody;
    if |s| >= 4 && |s| >= 4 + FromBE(s[0..4]) {
      assert s[4..][..FromBE(s[0..4])] == s[4..4 + FromBE(s[0..4])];
      assert s[4..][FromBE(s[0..4])..] == s[4 + FromBE(s[0..4])..];
    }
  }

  // ------------------------------------------------------------- envelopes

  /** An identity: the high word first. */
  lemma IdLayout(v: Id128, rest: Bytes)
    ensures var s := PutId(v) + rest;
            At(s, 0, 8) == v.hi && At(s, 8, 8) == v.lo && s[16..] == rest
  {
    hide At, BE;
    var s := PutId(v) + rest;
    Assoc(BE(8, v.hi), BE(8, v.lo), rest);
    AtHead8(v.hi, BE(8, v.lo) + rest);
    AtHead8(v.lo, rest);
    AtTail(s, 8, 0, 8);
    TailTail(s, 8, 8);
  }

  lemma OnTail(a: Bytes, b: Bytes, i: nat, n: nat)
    requires i + n <= |b|
    ensures At(a + b, |a| + i, n) == At(b, i, n)
  {
    assert (a + b)[|a| + i..|a| + i + n] == b[i..i + n];
  }

  lemma OnHead(a: Bytes, b: Bytes, i: nat, n: nat)
    requires i + n <= |a|
    ensures At(a + b, i, n) == At(a, i, n)
  {
    assert (a + b)[i..i + n] == a[i..i + n];
  }

  lemma Alone(n: nat, v: nat)
    requires v < Pow256(n)
    ensures At(BE(n, v), 0, n) == v
  {
    AtHead(n, v, []);
    assert BE(n, v) + [] == BE(n, v);
  }

  lemma OriginLayout(e: Protocol.ProtoEnvelope)
    ensures var b := Protocol.PutOrigin(e);
            && |b| == 28 && At(b, 0, 8) == e.epoch && At(b, 8, 4) == e.workerId
            && At(b, 12, 8) == e.bootId.hi && At(b, 20, 8) == e.bootId.lo
  {
    hide At, BE;
    var id := PutId(e.bootId);
    var tail := BE(4, e.workerId) + id;
    IdLayout(e.bootId, []);
    assert id + [] == id;
    AtHead4(e.workerId, id);
    AtHead8(e.epoch, tail);
    OnTail(BE(4, e.workerId), id, 0, 8);
    OnTail(BE(4, e.workerId), id, 8, 8);
    OnTail(BE(8, e.epoch), tail, 0, 4);
    OnTail(BE(8, e.epoch), tail, 4, 8);
    OnTail(BE(8, e.epoch), tail, 12, 8);
  }

  lemma GensLayout(e: Protocol.ProtoEnvelope)
    ensures var b := Protocol.PutGens(e);
            && |b| == 32 && At(b, 0, 8) == e.cacheGen && At(b, 8, 8) == e.toolchainGen
            && At(b, 16, 8) == e.requestId.hi && At(b, 24, 8) == e.requestId.lo
  {
    hide At, BE;
    var id := PutId(e.requestId);
    var tail := BE(8, e.toolchainGen) + id;
    IdLayout(e.requestId, []);
    assert id + [] == id;
    AtHead8(e.toolchainGen, id);
    AtHead8(e.cacheGen, tail);
    OnTail(BE(8, e.toolchainGen), id, 0, 8);
    OnTail(BE(8, e.toolchainGen), id, 8, 8);
    OnTail(BE(8, e.cacheGen), tail, 0, 8);
    OnTail(BE(8, e.cacheGen), tail, 8, 8);
    OnTail(BE(8, e.cacheGen), tail, 16, 8);
  }

  lemma SubjectLayout(e: Protocol.ProtoEnvelope)
    ensures var b := Protocol.PutSubject(e);
            && |b| == 40 && At(b, 0, 8) == e.attemptId.hi && At(b, 8, 8) == e.attemptId.lo
            && At(b, 16, 8) == e.artifactId.hi && At(b, 24, 8) == e.artifactId.lo && At(b, 32, 8) == e.artifactGen
  {
    hide At, BE;
    var gen := BE(8, e.artifactGen);
    var tail := PutId(e.artifactId) + gen;
    Pow256Values();
    Alone(8, e.artifactGen);
    IdLayout(e.artifactId, gen);
    IdLayout(e.attemptId, tail);
    OnTail(PutId(e.artifactId), gen, 0, 8);
    OnTail(PutId(e.attemptId), tail, 0, 8);
    OnTail(PutId(e.attemptId), tail, 8, 8);
    OnTail(PutId(e.attemptId), tail, 16, 8);
  }

  /** The hundred bytes of an envelope. */
  lemma EnvelopeLayout(e: Protocol.ProtoEnvelope)
    ensures var b := Protocol.EncodedEnvelope(e);
            && At(b, 0, 8) == e.epoch && At(b, 8, 4) == e.workerId
            && At(b, 12, 8) == e.bootId.hi && At(b, 20, 8) == e.bootId.lo
            && At(b, 28, 8) == e.cacheGen && At(b, 36, 8) == e.toolchainGen
            && At(b, 44, 8) == e.requestId.hi && At(b, 52, 8) == e.requestId.lo
            && At(b, 60, 8) == e.attemptId.hi && At(b, 68, 8) == e.attemptId.lo
            && At(b, 76, 8) == e.artifactId.hi && At(b, 84, 8) == e.artifactId.lo
            && At(b, 92, 8) == e.artifactGen
  {
    hide At, Protocol.PutOrigin, Protocol.PutGens, Protocol.PutSubject;
    OriginLayout(e);
    GensLayout(e);
    SubjectLayout(e);
    var o, g, s := Protocol.PutOrigin(e), Protocol.PutGens(e), Protocol.PutSubject(e);
    ThreeParts(o, g, s);
  }

  lemma ThreeParts(o: Bytes, g: Bytes, s: Bytes)
    ensures forall i: nat, n: nat {:trigger At(o, i, n)} :: i + n <= |o| ==> At(o + (g + s), i, n) == At(o, i, n)
    ensures forall i: nat, n: nat {:trigger At(g, i, n)} :: i + n <= |g| ==> At(o + (g + s), |o| + i, n) == At(g, i, n)
    ensures forall i: nat, n: nat {:trigger At(s, i, n)} :: i + n <= |s| ==> At(o + (g + s), |o| + |g| + i, n) == At(s, i, n)
  {
    hide At;
    forall i: nat, n: nat | i + n <= |o|
      ensures At(o + (g + s), i, n) == At(o, i, n)
    {
      OnHead(o, g + s, i, n);
    }
    forall i: nat, n: nat | i + n <= |g|
      ensures At(o + (g + s), |o| + i, n) == At(g, i, n)
    {
      OnTail(o, g + s, i, n);
      OnHead(g, s, i, n);
    }
    forall i: nat, n: nat | i + n <= |s|
      ensures At(o + (g + s), |o| + |g| + i, n) == At(s, i, n)
    {
      OnTail(o, g + s, |g| + i, n);
      OnTail(g, s, i, n);
    }
  }

  // -------------------------------------------------------------- bytecode

  /** One operation in 13 bytes: kind, the bits of the scalar, the count. */
  lemma OpLayout(op: Cpu.Op, rest: Bytes)
    ensures var s := Bytecode.PutOp(op) + rest;
            && |Bytecode.PutOp(op)| == 13
            && s[0] == op.kind && At(s, 1, 8) == op.scalar && At(s, 9, 4) == op.n && s[13..] == rest
  {
    hide At, BE;
    var s := Bytecode.PutOp(op) + rest;
    var tail := BE(8, op.scalar) + (BE(4, op.n) + rest);
    assert s == [op.kind] + tail;
    AtHead8(op.scalar, BE(4, op.n) + rest);
    AtHead4(op.n, rest);
    OnTail([op.kind], tail, 0, 8);
    OnTail([op.kind], tail, 8, 4);
    OnTail(BE(8, op.scalar), BE(4, op.n) + rest, 0, 4);
  }

  /** Operation `i` stands at 13 * i. */
  lemma {:induction false} OpsLayout(ops: seq<Cpu.Op>, i: nat)
    requires i < |ops|
    ensures var s := Bytecode.PutOps(ops);
            && |s| == 13 * |ops| && s[13 * i] == ops[i].kind
            && At(s, 13 * i + 1, 8) == ops[i].scalar && At(s, 13 * i + 9, 4) == ops[i].n
  {
    hide At, Bytecode.PutOp;
    var rest := Bytecode.PutOps(ops[1..]);
    OpLayout(ops[0], rest);
    OpsLength(ops[1..]);
    if i > 0 {
      OpsLayout(ops[1..], i - 1);
      OnTail(Bytecode.PutOp(ops[0]), rest, 13 * (i - 1) + 1, 8);
      OnTail(Bytecode.PutOp(ops[0]), rest, 13 * (i - 1) + 9, 4);
    }
  }

  lemma {:induction false} OpsLength(ops: seq<Cpu.Op>)
    ensures |Bytecode.PutOps(ops)| == 13 * |ops|
  {
    if ops != [] {
      OpsLength(ops[1..]);
    }
  }

  /** A blob, and what follows it. */
  lemma BlobLayout(v: Bytes, rest: Bytes)
    requires |v| < TWO64
    ensures var s := PutBlob(v) + rest;
            At(s, 0, 8) == |v| && s[8..8 + |v|] == v && s[8 + |v|..] == rest
  {
    hide At, BE;
    Assoc(BE(8, |v|), v, rest);
    AtHead8(|v|, v + rest);
    var s := PutBlob(v) + rest;
    assert s[8..] == v + rest;
  }

  /** Positions behind the first `k` bytes of a string. */
  lemma Shifted(s: Bytes, k: nat, tail: Bytes)
    requires k <= |s| && s[k..] == tail
    ensures forall i: nat, n: nat {:trigger At(tail, i, n)} :: i + n <= |tail| ==> At(s, k + i, n) == At(tail, i, n)
  {
    hide At;
    forall i: nat, n: nat | i + n <= |tail|
      ensures At(s, k + i, n) == At(tail, i, n)
    {
      AtTail(s, k, i, n);
    }
  }

  lemma HeaderLayout(p: Cpu.Program, rest: Bytes)
    requires Bytecode.Sized(p)
    ensures var s, k := Bytecode.PutHeader(p) + rest, 8 + |p.name|;
            var m := k + 21 + |p.launchConfig|;
            && |s| == m + |rest| && At(s, 0, 8) == |p.name| && s[8..k] == p.name
            && At(s, k, 8) == p.shapeN && s[k + 8] == p.dtype
            && At(s, k + 9, 4) == Bytecode.ToU32(p.alignment) && At(s, k + 13, 8) == |p.launchConfig|
            && s[k + 21..m] == p.launchConfig && s[m..] == rest
  {
    hide At, BE;
    var s, k := Bytecode.PutHeader(p) + rest, 8 + |p.name|;
    var launch := PutBlob(p.launchConfig) + rest;
    var align := BE(4, Bytecode.ToU32(p.alignment)) + launch;
    var dtype := [p.dtype] + align;
    var shape := BE(8, p.shapeN) + dtype;
    HeaderRight(p, rest);
    hide PutBlob, Bytecode.PutHeader;
    BlobLayout(p.name, shape);
    AtHead8(p.shapeN, dtype);
    AtHead4(Bytecode.ToU32(p.alignment), launch);
    BlobLayout(p.launchConfig, rest);
    Tails(s, k, shape, dtype, align, launch);
  }

  lemma HeaderRight(p: Cpu.Program, rest: Bytes)
    ensures Bytecode.PutHeader(p) + rest
         == PutBlob(p.name) + (BE(8, p.shapeN) + ([p.dtype] + (BE(4, Bytecode.ToU32(p.alignment)) + (PutBlob(p.launchConfig) + rest))))
    ensures |PutBlob(p.launchConfig) + rest| == 8 + |p.launchConfig| + |rest|
  {
    hide BE;
  }

  lemma Tails(s: Bytes, k: nat, shape: Bytes, dtype: Bytes, align: Bytes, launch: Bytes)
    requires k <= |s| && s[k..] == shape && |shape| >= 21 && |launch| >= 8
    requires shape[8..] == dtype && dtype[1..] == align && align[4..] == launch
    ensures At(s, k, 8) == At(shape, 0, 8) && s[k + 8] == dtype[0]
    ensures At(s, k + 9, 4) == At(align, 0, 4) && At(s, k + 13, 8) == At(launch, 0, 8) && s[k + 13..] == launch
  {
    hide At;
    TailTail(s, k, 8);
    TailTail(s, k + 8, 1);
    TailTail(s, k + 9, 4);
    AtTail(s, k, 0, 8);
    AtTail(s, k + 9, 0, 4);
    AtTail(s, k + 13, 0, 8);
  }

  /** An artifact: "CFB1", version 1, the header, the number of operations, the
      operations. */
  lemma ArtifactLayout(p: Cpu.Program)
    requires Bytecode.Sized(p)
    ensures var b, k := Bytecode.Encoded(p), 16 + |p.name|;
            var m := k + 21 + |p.launchConfig|;
            && |b| == m + 4 + 13 * |p.ops|
            && At(b, 0, 4) == 0x4346_4231 && At(b, 4, 4) == 1 && At(b, 8, 8) == |p.name| && b[16..k] == p.name
            && At(b, k, 8) == p.shapeN && b[k + 8] == p.dtype
            && At(b, k + 9, 4) == Bytecode.ToU32(p.alignment) && At(b, k + 13, 8) == |p.launchConfig|
            && b[k + 21..m] == p.launchConfig && At(b, m, 4) == |p.ops| % TWO32 && b[m + 4..] == Bytecode.PutOps(p.ops)
  {
    hide At, BE, Bytecode.PutHeader, Bytecode.PutOps;
    var b := Bytecode.Encoded(p);
    var ops := BE(4, |p.ops| % TWO32) + Bytecode.PutOps(p.ops);
    var rest := Bytecode.PutHeader(p) + ops;
    AtHead4(Bytecode.MAGIC, BE(4, Bytecode.VERSION) + rest);
    AtHead4(Bytecode.VERSION, rest);
    HeaderLayout(p, ops);
    AtHead4(|p.ops| % TWO32, Bytecode.PutOps(p.ops));
    OpsLength(p.ops);
    AtTail(b, 4, 0, 4);
    TailTail(b, 4, 4);
    Behind(b, rest, p, ops);
  }

  lemma Behind(b: Bytes, rest: Bytes, p: Cpu.Program, ops: Bytes)
    requires |b| >= 8 && b[8..] == rest
    requires var m := 29 + |p.name| + |p.launchConfig|; |rest| >= m + 4 && rest[m..] == ops
    ensures var k, m := 16 + |p.name|, 37 + |p.name| + |p.launchConfig|;
            && At(b, 8, 8) == At(rest, 0, 8) && b[16..k] == rest[8..k - 8]
            && At(b, k, 8) == At(rest, k - 8, 8) && b[k + 8] == rest[k]
            && At(b, k + 9, 4) == At(rest, k + 1, 4) && At(b, k + 13, 8) == At(rest, k + 5, 8)
            && b[k + 21..m] == rest[k + 13..m - 8] && At(b, m, 4) == At(ops, 0, 4) && b[m + 4..] == ops[4..]
  {
    hide At;
    var k, m := 16 + |p.name|, 37 + |p.name| + |p.launchConfig|;
    Shifted(b, 8, rest);
    assert At(rest, 0, 8) == At(b, 8, 8);
    assert At(rest, k - 8, 8) == At(b, k, 8);
    assert At(rest, k + 1, 4) == At(b, k + 9, 4);
    assert At(rest, k + 5, 8) == At(b, k + 13, 8);
    SliceTail(b, 8, 8, k - 8);
    SliceTail(b, 8, k + 13, m - 8);
    TailTail(b, 8, m - 8);
    TailTail(b, m, 4);
    AtTail(b, m, 0, 4);
  }

  lemma SliceTail(s: Bytes, k: nat, i: nat, j: nat)
    requires i <= j && k + j <= |s|
    ensures s[k..][i..j] == s[k + i..k + j]
  {
  }

  /** Only a wrong or missing version is called invalid; everything else that does
      not decode is called corrupt. */
  lemma ArtifactErrors(b: Bytes)
    ensures Bytecode.DecodedOf(b).ArtifactInvalid?
       <==> |b| >= 4 && At(b, 0, 4) == 0x4346_4231 && (|b| < 8 || At(b, 4, 4) != 1)
    ensures |b| < 4 || At(b, 0, 4) != 0x4346_4231 ==> Bytecode.DecodedOf(b).ArtifactCorrupt?
  {
    hide FromBE, Bytecode.DecodeBody;
    if |b| >= 8 {
      assert b[4..][..4] == b[4..8];
      NeverInvalid(b[8..]);
    }
  }

  lemma NeverInvalid(s: Bytes)
    ensures !Bytecode.DecodeBody(s).ArtifactInvalid?
  {
    hide Bytecode.GetHeader, Bytecode.GetOps;
  }

  // ----------------------------------------------------- records and lists

  /** A field: tag, length in eight bytes, value. */
  lemma FieldLayout(e: Canonical.Entry, rest: Bytes)
    requires |e.value| < TWO64
    ensures var s := Canonical.EncodeField(e) + rest;
            && s[0] == e.tag && At(s, 1, 8) == |e.value|
            && s[9..9 + |e.value|] == e.value && s[9 + |e.value|..] == rest
  {
    hide At, BE;
    var s, blob := Canonical.EncodeField(e) + rest, PutBlob(e.value) + rest;
    assert s == [e.tag] + blob;
    BlobLayout(e.value, rest);
    OnTail([e.tag], blob, 0, 8);
  }

  /** A record: the number of fields, then the fields; a tag out of range is
      counted and left out. */
  lemma RecordLayout(f: seq<Canonical.Entry>)
    ensures At(Canonical.Record(f), 0, 4) == |f| % TWO32 && Canonical.Record(f)[4..] == Canonical.EncodeFields(f)
    ensures f != [] && 1 <= f[0].tag <= 57 ==>
      Canonical.EncodeFields(f) == Canonical.EncodeField(f[0]) + Canonical.EncodeFields(f[1..])
    ensures f != [] && !(1 <= f[0].tag <= 57) ==> Canonical.EncodeFields(f) == Canonical.EncodeFields(f[1..])
  {
    AtHead4(|f| % TWO32, Canonical.EncodeFields(f));
  }

  /** A list of numbers: their count in four bytes, then eight bytes each. */
  lemma NumbersLayout(vs: seq<U64>, i: nat)
    requires i < |vs|
    ensures var b := Key.EncU64s(vs);
            |b| == 4 + 8 * |vs| && At(b, 0, 4) == |vs| % TWO32 && At(b, 4 + 8 * i, 8) == vs[i]
  {
    hide At, BE, Key.EncList;
    AtHead4(|vs| % TWO32, Key.EncList(vs));
    NumberInList(vs, i);
    OnTail(BE(4, |vs| % TWO32), Key.EncList(vs), 8 * i, 8);
  }

  lemma {:induction false} NumberInList(vs: seq<U64>, i: nat)
    requires i < |vs|
    ensures At(Key.EncList(vs), 8 * i, 8) == vs[i]
  {
    hide At, BE;
    var rest := Key.EncList(vs[1..]);
    AtHead8(vs[0], rest);
    if i > 0 {
      NumberInList(vs[1..], i - 1);
      OnTail(BE(8, vs[0]), rest, 8 * (i - 1), 8);
    }
  }

  /** A list of identities: their count, then sixteen bytes each. */
  lemma IdsLayout(ids: seq<Id128>, i: nat)
    requires i < |ids|
    ensures var b := Key.EncIds(ids);
            && |b| == 4 + 16 * |ids| && At(b, 0, 4) == |ids| % TWO32
            && At(b, 4 + 16 * i, 8) == ids[i].hi && At(b, 12 + 16 * i, 8) == ids[i].lo
  {
    hide At, BE, Key.EncIdList;
    Key.EncIdListLength(ids);
    AtHead4(|ids| % TWO32, Key.EncIdList(ids));
    IdInList(ids, i);
    OnTail(BE(4, |ids| % TWO32), Key.EncIdList(ids), 16 * i, 8);
    OnTail(BE(4, |ids| % TWO32), Key.EncIdList(ids), 16 * i + 8, 8);
  }

  lemma {:induction false} IdInList(ids: seq<Id128>, i: nat)
    requires i < |ids|
    ensures |Key.EncIdList(ids)| == 16 * |ids|
    ensures At(Key.EncIdList(ids), 16 * i, 8) == ids[i].hi && At(Key.EncIdList(ids), 16 * i + 8, 8) == ids[i].lo
  {
    hide At, BE;
    Key.EncIdListLength(ids);
    Key.EncIdListLength(ids[1..]);
    var rest := Key.EncIdList(ids[1..]);
    IdLayout(ids[0], rest);
    if i > 0 {
      IdInList(ids[1..], i - 1);
      OnTail(PutId(ids[0]), rest, 16 * (i - 1), 8);
      OnTail(PutId(ids[0]), rest, 16 * (i - 1) + 8, 8);
    }
  }

  // ----------------------------------------------------- names and metadata

  lemma HexLetters(k: nat)
    requires k < 16
    ensures Hex.HexChar(k) == "0123456789abcdef"[k]
    ensures Hex.HexVal("0123456789abcdef"[k]) == k && Hex.HexVal("0123456789ABCDEF"[k]) == k
  {
  }

  lemma {:induction false} DigitAt(n: nat, v: nat, k: nat)
    requires k < n
    ensures Hex.Digits(n, v)[k] == Hex.HexChar(v / Hex.Pow16(n - 1 - k) % 16)
  {
    if k < n - 1 {
      DigitAt(n - 1, v / 16, k);
      assert Hex.Pow16(n - 1 - k) == 16 * Hex.Pow16(n - 2 - k);
      DivTwice(v, Hex.Pow16(n - 2 - k));
    } else {
      assert Hex.Pow16(0) == 1;
    }
  }

  lemma DivTwice(v: nat, m: nat)
    requires m > 0
    ensures v / 16 / m == v / (16 * m)
  {
    var q := v / 16 / m;
    var r := v / 16 - q * m;
    assert v == 16 * (q * m + r) + v % 16;
    assert v == q * (16 * m) + (16 * r + v % 16);
    assert 0 <= 16 * r + v % 16 < 16 * m;
    Quotient(v, 16 * m, q, 16 * r + v % 16);
  }

  lemma Quotient(v: nat, d: nat, q: nat, r: nat)
    requires v == q * d + r && r < d
    ensures v / d == q
  {
    var x := v / d - q;
    assert x * d == r - v % d;
    Multiples(x, d);
  }

  lemma Multiples(x: int, d: int)
    requires d >= 0
    ensures x >= 1 ==> x * d >= d
    ensures x <= -1 ==> x * d <= -d
  {
    if x >= 1 {
      assert (x - 1) * d >= 0;
    }
    if x <= -1 {
      assert (-x - 1) * d >= 0;
    }
  }

  /** An identity as text: sixteen digits of the high word, sixteen of the low,
      the most significant first. */
  lemma IdText(v: Id128, k: nat)
    requires k < 16
    ensures Hex.IdHex(v)[k] == "0123456789abcdef"[v.hi / Hex.Pow16(15 - k) % 16]
    ensures Hex.IdHex(v)[16 + k] == "0123456789abcdef"[v.lo / Hex.Pow16(15 - k) % 16]
  {
    hide Hex.HexChar, Hex.Digits, Hex.Pow16;
    DigitAt(16, v.hi, k);
    DigitAt(16, v.lo, k);
    HexLetters(v.hi / Hex.Pow16(15 - k) % 16);
    HexLetters(v.lo / Hex.Pow16(15 - k) % 16);
  }

  /** A byte string as text: two digits a byte, the high one first. */
  lemma {:induction false} BytesText(d: Bytes, k: nat)
    requires k < |d|
    ensures Hex.BytesHex(d)[2 * k] == "0123456789abcdef"[d[k] / 16]
    ensures Hex.BytesHex(d)[2 * k + 1] == "0123456789abcdef"[d[k] % 16]
  {
    hide Hex.HexChar;
    if k < |d| - 1 {
      BytesText(d[..|d| - 1], k);
    } else {
      HexLetters(d[k] / 16);
      HexLetters(d[k] % 16);
    }
  }

  /** The identity derived from a digest, written out, is its second and fourth quarter. */
  lemma DerivedId(d: Key.Digest)
    ensures PutId(Request.IdFor(d)) == d[8..16] + d[24..32]
  {
    BEofFromBE(d[8..16]);
    BEofFromBE(d[24..32]);
  }

  /** The files of an artifact ... */
  lemma NameTexts(id: Id128, gen: U64)
    ensures Persistence.MetaName(id, gen)
         == Ascii(Hex.IdHex(id)) + (Ascii("_") + J.Decimal(gen)) + Ascii(".meta")
    ensures Persistence.BinName(id, gen)
         == Ascii(Hex.IdHex(id)) + (Ascii("_") + J.Decimal(gen)) + Ascii(".bin")
  {
    hide J.Decimal, Hex.IdHex;
    assert Persistence.META == Ascii(".meta");
    assert Persistence.BIN == Ascii(".bin");
    assert [Persistence.UNDERSCORE] == Ascii("_");
  }

  /** ... and the members of its document. */
  lemma DocumentTexts()
    ensures Persistence.TMP == Ascii(".tmp")
    ensures Persistence.K_ID == Ascii("id") && Persistence.K_GENERATION == Ascii("generation")
    ensures Persistence.K_DIGEST == Ascii("content_digest")
  {
  }

  lemma FlagTexts()
    ensures Persistence.K_INVALIDATED == Ascii("invalidated")
    ensures Persistence.K_SUPERSEDED == Ascii("superseded")
  {
  }

  /** A metadata file: "CFMD" as a blob, version 1, the key, the document, the
      content digest, and at the end the digest of all that. */
  lemma MetaLayout(lib: Persistence.Lib, r: Persistence.Record)
    requires |Canonical.Record(r.key)| < TWO64
    ensures var b, k := Persistence.Meta(lib, r), Canonical.Record(r.key);
            && |b| >= 88 + |k| && At(b, 0, 8) == 4 && b[8..12] == Ascii("CFMD") && At(b, 12, 4) == 1
            && At(b, 16, 8) == |k| && b[24..24 + |k|] == k
            && b[|b| - 64..|b| - 32] == Persistence.DocDigest(r.doc)
            && b[|b| - 32..] == lib.hash(b[..|b| - 32])
  {
    hide At, BE, PutBlob, Persistence.DocDigest, Persistence.MetaDoc, J.Dump, Canonical.Record;
    var k := PutBlob(Canonical.Record(r.key));
    var doc := PutBlob(J.Dump(lib.floats, J.Obj(Persistence.MetaDoc(r))));
    var payload, b := Persistence.Payload(lib, r), Persistence.Meta(lib, r);
    assert b[..|b| - 32] == payload;
    var tail := doc + (Persistence.DocDigest(r.doc) + lib.hash(payload));
    MetaRight(lib, r);
    assert Persistence.MAGIC == Ascii("CFMD");
    BlobLayout(Persistence.MAGIC, BE(4, Persistence.VERSION) + (k + tail));
    AtHead4(Persistence.VERSION, k + tail);
    BlobLayout(Canonical.Record(r.key), tail);
    TailTail(b, 12, 4);
    AtTail(b, 12, 0, 4);
    AtTail(b, 16, 0, 8);
  }

  lemma MetaRight(lib: Persistence.Lib, r: Persistence.Record)
    ensures var payload := Persistence.Payload(lib, r);
            var doc := PutBlob(J.Dump(lib.floats, J.Obj(Persistence.MetaDoc(r))));
            && |doc| >= 8 && |PutBlob(Canonical.Record(r.key))| == 8 + |Canonical.Record(r.key)|
            && Persistence.Meta(lib, r)
            == PutBlob(Persistence.MAGIC) + (BE(4, Persistence.VERSION)
               + (PutBlob(Canonical.Record(r.key)) + (doc + (Persistence.DocDigest(r.doc) + lib.hash(payload)))))
  {
    hide BE, Persistence.DocDigest, Persistence.MetaDoc, J.Dump, Canonical.Record;
  }
}
