/** Frames, envelopes and the framed byte stream of src/Protocol.cpp. */
module Protocol {
  import opened Wire

  const PROTOCOL_VERSION: U32 := 1
  const MAX_FRAME := 0x10_0000
  const ENVELOPE_SIZE := 100

  datatype Frame = Frame(mtype: U32, flags: U32, seqno: U32, payload: Bytes)

  /** Register (1) up to Control (12). */
  predicate ValidType(t: U32) { 1 <= t <= 12 }

  datatype Error =
    | TruncatedFrame | ProtocolVersionMismatch | UnknownMessageType | TrailingGarbage
    | FrameTooLarge | OverSizedFrame | MalformedFrame | IOError

  datatype Result<+T> = Ok(value: T) | Err(error: Error)

  // ------------------------------------------------------------ frame codec

  function Body(f: Frame): Bytes {
    BE(4, PROTOCOL_VERSION) + (BE(4, f.mtype) + (BE(4, f.flags) + (BE(4, f.seqno) + PutBlob(f.payload))))
  }

  function DecodedRest(t: U32, s: Bytes): Result<Frame> {
    match GetU32(s)
    case Short => Err(TruncatedFrame)
    case Got(flags, r1) =>
      match GetU32(r1)
      case Short => Err(TruncatedFrame)
      case Got(seqno, r2) =>
        match GetBlob(r2)
        case Short => Err(TruncatedFrame)
        case Got(payload, r3) => if r3 != [] then Err(TrailingGarbage) else Ok(Frame(t, flags, seqno, payload))
  }

  function DecodedTyped(s: Bytes): Result<Frame> {
    match GetU32(s)
    case Short => Err(TruncatedFrame)
    case Got(t, r) => if !ValidType(t) then Err(UnknownMessageType) else DecodedRest(t, r)
  }

  function DecodedBody(s: Bytes): Result<Frame> {
    match GetU32(s)
    case Short => Err(TruncatedFrame)
    case Got(v, r) => if v != PROTOCOL_VERSION then Err(ProtocolVersionMismatch) else DecodedTyped(r)
  }

  method EncodeFrameBody(f: Frame) returns (b: Bytes)
    requires |f.payload| < TWO64
    ensures b == Body(f)
  {
    hide BE;
    var w := new CanonicalWriter();
    w.U32(PROTOCOL_VERSION);
    w.U32(f.mtype);
    w.U32(f.flags);
    w.U32(f.seqno);
    w.U64(|f.payload|);
    w.Raw(f.payload);
    b := w.buf;
  }

  method DecodeRest(rd: CanonicalReader, t: U32) returns (r: Result<Frame>)
    requires rd.Valid()
    modifies rd`pos
    ensures r == DecodedRest(t, old(rd.Rest()))
  {
    hide GetUint, GetBlob;
    var ok1, flags := rd.U32();
    if !ok1 { return Err(TruncatedFrame); }
    var ok2, seqno := rd.U32();
    if !ok2 { return Err(TruncatedFrame); }
    var ok3, payload := rd.Blob();
    if !ok3 { return Err(TruncatedFrame); }
    var more := rd.HasRemaining();
    if more { return Err(TrailingGarbage); }
    return Ok(Frame(t, flags, seqno, payload));
  }

  method DecodeFrameBody(b: Bytes) returns (r: Result<Frame>)
    ensures r == DecodedBody(b)
  {
    hide GetUint, DecodedRest;
    var rd := new CanonicalReader(b);
    var ok1, v := rd.U32();
    if !ok1 { return Err(TruncatedFrame); }
    if v != PROTOCOL_VERSION { return Err(ProtocolVersionMismatch); }
    var ok2, t := rd.U32();
    if !ok2 { return Err(TruncatedFrame); }
    if !ValidType(t) { return Err(UnknownMessageType); }
    r := DecodeRest(rd, t);
  }

  lemma DecodeOfRest(f: Frame)
    requires |f.payload| < TWO64
    ensures DecodedRest(f.mtype, BE(4, f.flags) + (BE(4, f.seqno) + PutBlob(f.payload))) == Ok(f)
  {
    hide BE, GetUint, GetBlob, PutBlob;
    GetU32Put(f.flags, BE(4, f.seqno) + PutBlob(f.payload));
    GetU32Put(f.seqno, PutBlob(f.payload));
    GetBlobPut(f.payload, []);
    assert PutBlob(f.payload) + [] == PutBlob(f.payload);
  }

  /** A frame is recovered from its body if and only if its type is known. */
  lemma DecodeOfBody(f: Frame)
    requires |f.payload| < TWO64
    ensures DecodedBody(Body(f)) == if ValidType(f.mtype) then Ok(f) else Err(UnknownMessageType)
  {
    hide BE, GetUint, DecodedRest;
    var rest := BE(4, f.flags) + (BE(4, f.seqno) + PutBlob(f.payload));
    GetU32Put(PROTOCOL_VERSION, BE(4, f.mtype) + rest);
    GetU32Put(f.mtype, rest);
    DecodeOfRest(f);
  }

  lemma RestOfDecode(t: U32, s: Bytes)
    requires DecodedRest(t, s).Ok?
    ensures var f := DecodedRest(t, s).value;
            && f.mtype == t && |f.payload| < TWO64
            && s == BE(4, f.flags) + (BE(4, f.seqno) + PutBlob(f.payload))
  {
    hide BE, GetUint, GetBlob, PutBlob;
    var f := DecodedRest(t, s).value;
    var r1 := GetU32(s).rest;
    var r2 := GetU32(r1).rest;
    GetUintInv(4, s);
    GetUintInv(4, r1);
    GetBlobInv(r2);
    assert PutBlob(f.payload) + [] == PutBlob(f.payload);
  }

  /** Every accepted body is the encoding of the frame it decodes to. */
  lemma BodyOfDecode(b: Bytes)
    requires DecodedBody(b).Ok?
    ensures var f := DecodedBody(b).value;
            ValidType(f.mtype) && |f.payload| < TWO64 && Body(f) == b
  {
    hide BE, GetUint, DecodedRest;
    var r1 := GetU32(b).rest;
    GetUintInv(4, b);
    GetUintInv(4, r1);
    RestOfDecode(GetU32(r1).value, GetU32(r1).rest);
  }

  // ------------------------------------------------------------ envelope

  datatype ProtoEnvelope = ProtoEnvelope(
    epoch: U64, workerId: U32, bootId: Id128, cacheGen: U64, toolchainGen: U64,
    requestId: Id128, attemptId: Id128, artifactId: Id128, artifactGen: U64)

  function PutOrigin(e: ProtoEnvelope): Bytes { BE(8, e.epoch) + (BE(4, e.workerId) + PutId(e.bootId)) }
  function PutGens(e: ProtoEnvelope): Bytes { BE(8, e.cacheGen) + (BE(8, e.toolchainGen) + PutId(e.requestId)) }
  function PutSubject(e: ProtoEnvelope): Bytes { PutId(e.attemptId) + (PutId(e.artifactId) + BE(8, e.artifactGen)) }

  function EncodedEnvelope(e: ProtoEnvelope): (b: Bytes)
    ensures |b| == ENVELOPE_SIZE
  {
    PutOrigin(e) + (PutGens(e) + PutSubject(e))
  }

  const BLANK := ProtoEnvelope(0, 0, Id128(0, 0), 0, 0, Id128(0, 0), Id128(0, 0), Id128(0, 0), 0)

  function GetOrigin(e: ProtoEnvelope, s: Bytes): Parsed<ProtoEnvelope> {
    match GetU64(s)
    case Short => Short
    case Got(epoch, r1) =>
      match GetU32(r1)
      case Short => Short
      case Got(worker, r2) =>
        match GetId(r2)
        case Short => Short
        case Got(boot, r3) => Got(e.(epoch := epoch, workerId := worker, bootId := boot), r3)
  }

  function GetGens(e: ProtoEnvelope, s: Bytes): Parsed<ProtoEnvelope> {
    match GetU64(s)
    case Short => Short
    case Got(cacheGen, r1) =>
      match GetU64(r1)
      case Short => Short
      case Got(toolGen, r2) =>
        match GetId(r2)
        case Short => Short
        case Got(rid, r3) => Got(e.(cacheGen := cacheGen, toolchainGen := toolGen, requestId := rid), r3)
  }

  function GetSubject(e: ProtoEnvelope, s: Bytes): Parsed<ProtoEnvelope> {
    match GetId(s)
    case Short => Short
    case Got(aid, r1) =>
      match GetId(r1)
      case Short => Short
      case Got(art, r2) =>
        match GetU64(r2)
        case Short => Short
        case Got(gen, r3) => Got(e.(attemptId := aid, artifactId := art, artifactGen := gen), r3)
  }

  function DecodedEnvelope(b: Bytes): Result<ProtoEnvelope> {
    match GetOrigin(BLANK, b)
    case Short => Err(TruncatedFrame)
    case Got(e1, r1) =>
      match GetGens(e1, r1)
      case Short => Err(TruncatedFrame)
      case Got(e2, r2) =>
        match GetSubject(e2, r2)
        case Short => Err(TruncatedFrame)
        case Got(e3, r3) => if r3 != [] then Err(TrailingGarbage) else Ok(e3)
  }

  method EncodeEnvelope(e: ProtoEnvelope) returns (b: Bytes)
    ensures b == EncodedEnvelope(e)
  {
    hide BE, PutId;
    var w := new CanonicalWriter();
    w.U64(e.epoch); w.U32(e.workerId); w.U128(e.bootId);
    assert w.buf == PutOrigin(e);
    w.U64(e.cacheGen); w.U64(e.toolchainGen); w.U128(e.requestId);
    assert w.buf == PutOrigin(e) + PutGens(e);
    w.U128(e.attemptId); w.U128(e.artifactId); w.U64(e.artifactGen);
    hide PutOrigin, PutGens;
    b := w.buf;
  }

  method ReadOrigin(rd: CanonicalReader, e0: ProtoEnvelope) returns (ok: bool, e: ProtoEnvelope)
    requires rd.Valid()
    modifies rd`pos
    ensures rd.Valid()
    ensures ok <==> GetOrigin(e0, old(rd.Rest())).Got?
    ensures ok ==> GetOrigin(e0, old(rd.Rest())) == Got(e, rd.Rest())
  {
    hide GetUint, GetId;
    var ok1, epoch := rd.U64();
    if !ok1 { return false, e0; }
    var ok2, worker := rd.U32();
    if !ok2 { return false, e0; }
    var ok3, boot := rd.U128();
    if !ok3 { return false, e0; }
    return true, e0.(epoch := epoch, workerId := worker, bootId := boot);
  }

  method ReadGens(rd: CanonicalReader, e0: ProtoEnvelope) returns (ok: bool, e: ProtoEnvelope)
    requires rd.Valid()
    modifies rd`pos
    ensures rd.Valid()
    ensures ok <==> GetGens(e0, old(rd.Rest())).Got?
    ensures ok ==> GetGens(e0, old(rd.Rest())) == Got(e, rd.Rest())
  {
    hide GetUint, GetId;
    var ok1, cacheGen := rd.U64();
    if !ok1 { return false, e0; }
    var ok2, toolGen := rd.U64();
    if !ok2 { return false, e0; }
    var ok3, rid := rd.U128();
    if !ok3 { return false, e0; }
    return true, e0.(cacheGen := cacheGen, toolchainGen := toolGen, requestId := rid);
  }

  method ReadSubject(rd: CanonicalReader, e0: ProtoEnvelope) returns (ok: bool, e: ProtoEnvelope)
    requires rd.Valid()
    modifies rd`pos
    ensures rd.Valid()
    ensures ok <==> GetSubject(e0, old(rd.Rest())).Got?
    ensures ok ==> GetSubject(e0, old(rd.Rest())) == Got(e, rd.Rest())
  {
    hide GetUint, GetId;
    var ok1, aid := rd.U128();
    if !ok1 { return false, e0; }
    var ok2, art := rd.U128();
    if !ok2 { return false, e0; }
    var ok3, gen := rd.U64();
    if !ok3 { return false, e0; }
    return true, e0.(attemptId := aid, artifactId := art, artifactGen := gen);
  }

  method DecodeEnvelope(b: Bytes) returns (r: Result<ProtoEnvelope>)
    ensures r == DecodedEnvelope(b)
  {
    hide GetOrigin, GetGens, GetSubject;
    var rd := new CanonicalReader(b);
    var ok1, e1 := ReadOrigin(rd, BLANK);
    if !ok1 { return Err(TruncatedFrame); }
    var ok2, e2 := ReadGens(rd, e1);
    if !ok2 { return Err(TruncatedFrame); }
    var ok3, e3 := ReadSubject(rd, e2);
    if !ok3 { return Err(TruncatedFrame); }
    var more := rd.HasRemaining();
    if more { return Err(TrailingGarbage); }
    return Ok(e3);
  }

  lemma OriginPut(e0: ProtoEnvelope, e: ProtoEnvelope, rest: Bytes)
    ensures GetOrigin(e0, PutOrigin(e) + rest) == Got(e0.(epoch := e.epoch, workerId := e.workerId, bootId := e.bootId), rest)
  {
    hide BE, GetUint, GetId, PutId;
    var x, y, z := BE(8, e.epoch), BE(4, e.workerId), PutId(e.bootId);
    Assoc(x, y + z, rest);
    Assoc(y, z, rest);
    GetU64Put(e.epoch, y + (z + rest));
    GetU32Put(e.workerId, z + rest);
    GetIdPut(e.bootId, rest);
  }

  lemma GensPut(e0: ProtoEnvelope, e: ProtoEnvelope, rest: Bytes)
    ensures GetGens(e0, PutGens(e) + rest)
         == Got(e0.(cacheGen := e.cacheGen, toolchainGen := e.toolchainGen, requestId := e.requestId), rest)
  {
    hide BE, GetUint, GetId, PutId;
    var x, y, z := BE(8, e.cacheGen), BE(8, e.toolchainGen), PutId(e.requestId);
    Assoc(x, y + z, rest);
    Assoc(y, z, rest);
    GetU64Put(e.cacheGen, y + (z + rest));
    GetU64Put(e.toolchainGen, z + rest);
    GetIdPut(e.requestId, rest);
  }

  lemma SubjectPut(e0: ProtoEnvelope, e: ProtoEnvelope)
    ensures GetSubject(e0, PutSubject(e))
         == Got(e0.(attemptId := e.attemptId, artifactId := e.artifactId, artifactGen := e.artifactGen), [])
  {
    hide BE, GetUint, GetId, PutId;
    var y, z := PutId(e.artifactId), BE(8, e.artifactGen);
    GetIdPut(e.attemptId, y + z);
    GetIdPut(e.artifactId, z);
    GetU64Put(e.artifactGen, []);
    assert z + [] == z;
  }

  /** An envelope is recovered from its 100 bytes ... */
  lemma DecodeOfEnvelope(e: ProtoEnvelope)
    ensures |EncodedEnvelope(e)| == ENVELOPE_SIZE && DecodedEnvelope(EncodedEnvelope(e)) == Ok(e)
  {
    hide GetOrigin, GetGens, GetSubject, PutOrigin, PutGens, PutSubject;
    OriginPut(BLANK, e, PutGens(e) + PutSubject(e));
    var e1 := BLANK.(epoch := e.epoch, workerId := e.workerId, bootId := e.bootId);
    GensPut(e1, e, PutSubject(e));
    var e2 := e1.(cacheGen := e.cacheGen, toolchainGen := e.toolchainGen, requestId := e.requestId);
    SubjectPut(e2, e);
  }

  lemma OriginInv(e0: ProtoEnvelope, s: Bytes)
    requires |s| >= 28
    ensures GetOrigin(e0, s).Got?
    ensures var e := GetOrigin(e0, s).value;
            && s == PutOrigin(e) + GetOrigin(e0, s).rest
            && e == e0.(epoch := e.epoch, workerId := e.workerId, bootId := e.bootId)
  {
    hide BE, FromBE, PutId;
    GetUintInv(8, s);
    var r1 := GetU64(s).rest;
    GetUintInv(4, r1);
    var r2 := GetU32(r1).rest;
    GetIdInv(r2);
    var e := GetOrigin(e0, s).value;
    var rest := GetOrigin(e0, s).rest;
    Assoc(BE(4, e.workerId), PutId(e.bootId), rest);
    Assoc(BE(8, e.epoch), BE(4, e.workerId) + PutId(e.bootId), rest);
  }

  lemma GensInv(e0: ProtoEnvelope, s: Bytes)
    requires |s| >= 32
    ensures GetGens(e0, s).Got?
    ensures var e := GetGens(e0, s).value;
            && s == PutGens(e) + GetGens(e0, s).rest
            && e == e0.(cacheGen := e.cacheGen, toolchainGen := e.toolchainGen, requestId := e.requestId)
  {
    hide BE, FromBE, PutId;
    GetUintInv(8, s);
    var r1 := GetU64(s).rest;
    GetUintInv(8, r1);
    var r2 := GetU64(r1).rest;
    GetIdInv(r2);
    var e := GetGens(e0, s).value;
    var rest := GetGens(e0, s).rest;
    Assoc(BE(8, e.toolchainGen), PutId(e.requestId), rest);
    Assoc(BE(8, e.cacheGen), BE(8, e.toolchainGen) + PutId(e.requestId), rest);
  }

  lemma SubjectInv(e0: ProtoEnvelope, s: Bytes)
    requires |s| >= 40
    ensures GetSubject(e0, s).Got?
    ensures var e := GetSubject(e0, s).value;
            && s == PutSubject(e) + GetSubject(e0, s).rest
            && e == e0.(attemptId := e.attemptId, artifactId := e.artifactId, artifactGen := e.artifactGen)
  {
    hide BE, FromBE, PutId;
    GetIdInv(s);
    var r1 := GetId(s).rest;
    GetIdInv(r1);
    var r2 := GetId(r1).rest;
    GetUintInv(8, r2);
    var e := GetSubject(e0, s).value;
    var rest := GetSubject(e0, s).rest;
    Assoc(PutId(e.artifactId), BE(8, e.artifactGen), rest);
    Assoc(PutId(e.attemptId), PutId(e.artifactId) + BE(8, e.artifactGen), rest);
  }

  lemma PartLengths(e: ProtoEnvelope)
    ensures |PutOrigin(e)| == 28 && |PutGens(e)| == 32 && |PutSubject(e)| == 40
  {
  }

  lemma ShortParts(e0: ProtoEnvelope, s: Bytes)
    ensures |s| < 28 ==> GetOrigin(e0, s).Short?
    ensures |s| < 32 ==> GetGens(e0, s).Short?
    ensures |s| < 40 ==> GetSubject(e0, s).Short?
  {
    hide FromBE;
  }

  lemma ShortEnvelope(b: Bytes)
    requires |b| < ENVELOPE_SIZE
    ensures DecodedEnvelope(b) == Err(TruncatedFrame)
  {
    hide GetOrigin, GetGens, GetSubject, PutOrigin, PutGens, PutSubject;
    ShortParts(BLANK, b);
    if |b| >= 28 {
      OriginInv(BLANK, b);
      var Got(e1, r1) := GetOrigin(BLANK, b);
      PartLengths(e1);
      ShortParts(e1, r1);
      if |r1| >= 32 {
        GensInv(e1, r1);
        var Got(e2, r2) := GetGens(e1, r1);
        PartLengths(e2);
        ShortParts(e2, r2);
      }
    }
  }

  lemma LongEnvelope(b: Bytes)
    requires |b| >= ENVELOPE_SIZE
    ensures |b| > ENVELOPE_SIZE ==> DecodedEnvelope(b) == Err(TrailingGarbage)
    ensures |b| == ENVELOPE_SIZE ==> DecodedEnvelope(b).Ok? && EncodedEnvelope(DecodedEnvelope(b).value) == b
  {
    hide GetOrigin, GetGens, GetSubject, PutOrigin, PutGens, PutSubject;
    OriginInv(BLANK, b);
    var Got(e1, r1) := GetOrigin(BLANK, b);
    PartLengths(e1);
    GensInv(e1, r1);
    var Got(e2, r2) := GetGens(e1, r1);
    PartLengths(e2);
    SubjectInv(e2, r2);
    var Got(e3, r3) := GetSubject(e2, r2);
    PartLengths(e3);
    assert PutOrigin(e3) == PutOrigin(e1) && PutGens(e3) == PutGens(e2) by { PartsAgree(e1, e2, e3); }
    assert PutSubject(e3) + [] == PutSubject(e3);
  }

  lemma PartsAgree(e1: ProtoEnvelope, e2: ProtoEnvelope, e3: ProtoEnvelope)
    requires e2 == e1.(cacheGen := e2.cacheGen, toolchainGen := e2.toolchainGen, requestId := e2.requestId)
    requires e3 == e2.(attemptId := e3.attemptId, artifactId := e3.artifactId, artifactGen := e3.artifactGen)
    ensures PutOrigin(e3) == PutOrigin(e1) && PutGens(e3) == PutGens(e2)
  {
  }

  /** ... and decoding is exact: a byte string decodes if and only if it has 100
      bytes, and then it is the encoding of the result. */
  lemma EnvelopeOfDecode(b: Bytes)
    ensures DecodedEnvelope(b).Ok? <==> |b| == ENVELOPE_SIZE
    ensures |b| == ENVELOPE_SIZE ==> EncodedEnvelope(DecodedEnvelope(b).value) == b
    ensures |b| < ENVELOPE_SIZE ==> DecodedEnvelope(b) == Err(TruncatedFrame)
    ensures |b| > ENVELOPE_SIZE ==> DecodedEnvelope(b) == Err(TrailingGarbage)
  {
    hide DecodedEnvelope, EncodedEnvelope;
    if |b| < ENVELOPE_SIZE {
      ShortEnvelope(b);
    } else {
      LongEnvelope(b);
    }
  }
}
