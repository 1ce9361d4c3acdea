/** The framed channel of src/Protocol.cpp over a byte stream.  A socket hands
    over what it has in pieces of any positive size; the pieces are chosen
    arbitrarily, so every split is covered. */
module Channel {
  import opened Wire
  import opened Protocol

  class Socket {
    /** Bytes sent by the peer and not yet received; the peer has closed after them. */
    var incoming: Bytes
    var outgoing: Bytes

    constructor (incoming: Bytes)
      ensures this.incoming == incoming && outgoing == []
    {
      this.incoming, outgoing := incoming, [];
    }

    /** `recv`: at least one byte unless the stream has ended, at most `max`. */
    method Recv(max: nat) returns (got: Bytes)
      requires max > 0
      modifies this`incoming
      ensures got + incoming == old(incoming) && |got| <= max
      ensures got == [] ==> incoming == []
    {
      if incoming == [] { return []; }
      var n: nat :| 1 <= n <= max && n <= |incoming|;
      got := incoming[..n];
      incoming := incoming[n..];
    }

    /** `send`: takes at least one of the offered bytes. */
    method Send(data: Bytes) returns (sent: nat)
      requires data != []
      modifies this`outgoing
      ensures 1 <= sent <= |data| && outgoing == old(outgoing) + data[..sent]
    {
      sent :| 1 <= sent <= |data|;
      outgoing := outgoing + data[..sent];
    }

    method SendAll(data: Bytes)
      modifies this`outgoing
      ensures outgoing == old(outgoing) + data
    {
      var off := 0;
      while off < |data|
        invariant 0 <= off <= |data|
        invariant outgoing == old(outgoing) + data[..off]
      {
        var sent := Send(data[off..]);
        assert data[..off] + data[off..][..sent] == data[..off + sent];
        off := off + sent;
      }
      assert data[..off] == data;
    }

    /** `recvAll`: exactly `len` bytes, or failure with the stream drained. */
    method RecvAll(len: nat) returns (ok: bool, data: Bytes)
      modifies this`incoming
      ensures ok <==> len <= |old(incoming)|
      ensures ok ==> data == old(incoming)[..len] && incoming == old(incoming)[len..]
      ensures !ok ==> incoming == []
    {
      data := [];
      ghost var all := incoming;
      while |data| < len
        invariant |data| <= len && data + incoming == all
        decreases len - |data|
      {
        var got := Recv(len - |data|);
        if got == [] { return false, data; }
        Assoc(data, got, incoming);
        data := data + got;
      }
      assert all[..len] == data && all[len..] == incoming;
      ok := true;
    }

    method SendFrame(f: Frame) returns (r: Option<Error>)
      requires |f.payload| < TWO64
      modifies this`outgoing
      ensures r == if |Body(f)| > MAX_FRAME then Some(FrameTooLarge) else None
      ensures outgoing == old(outgoing) + if |Body(f)| > MAX_FRAME then [] else Framed(f)
    {
      hide BE, Body;
      var body := EncodeFrameBody(f);
      if |body| > MAX_FRAME { return Some(FrameTooLarge); }
      var w := new CanonicalWriter();
      w.U32(|body|);
      SendAll(w.buf);
      SendAll(body);
      return None;
    }

    method RecvFrame() returns (r: Result<Frame>)
      modifies this`incoming
      ensures (r, incoming) == Received(old(incoming))
    {
      hide FromBE, DecodedBody;
      var ok1, lenb := RecvAll(4);
      if !ok1 { return Err(IOError); }
      FromBE4(lenb[0], lenb[1], lenb[2], lenb[3]);
      assert lenb == [lenb[0], lenb[1], lenb[2], lenb[3]];
      var b0: int, b1: int, b2: int, b3: int := lenb[0], lenb[1], lenb[2], lenb[3];
      var len := b0 * 0x100_0000 + b1 * 0x1_0000 + b2 * 0x100 + b3;
      if len == 0 { return Err(MalformedFrame); }
      if len > MAX_FRAME { return Err(OverSizedFrame); }
      var ok2, body := RecvAll(len);
      if !ok2 { return Err(TruncatedFrame); }
      r := DecodeFrameBody(body);
    }
  }

  /** What a sent frame adds to the stream. */
  function Framed(f: Frame): Bytes { BE(4, |Body(f)|) + Body(f) }

  /** What receiving one frame yields and leaves, whatever the split. */
  function Received(s: Bytes): (Result<Frame>, Bytes) {
    if |s| < 4 then (Err(IOError), []) else
      var len := FromBE(s[..4]);
      if len == 0 then (Err(MalformedFrame), s[4..])
      else if len > MAX_FRAME then (Err(OverSizedFrame), s[4..])
      else if |s[4..]| < len then (Err(TruncatedFrame), [])
      else (DecodedBody(s[4..][..len]), s[4..][len..])
  }

  /** A frame the sender accepts. */
  predicate Sendable(f: Frame) { ValidType(f.mtype) && |Body(f)| <= MAX_FRAME }

  function Stream(fs: seq<Frame>): Bytes {
    if fs == [] then [] else Framed(fs[0]) + Stream(fs[1..])
  }

  lemma BodyLength(f: Frame)
    ensures |Body(f)| == 24 + |f.payload|
  {
    hide BE;
  }

  /** A frame is delimited by itself: it is received whatever follows it. */
  lemma ReceiveOne(f: Frame, rest: Bytes)
    requires Sendable(f)
    ensures Received(Framed(f) + rest) == (Ok(f), rest)
  {
    BodyLength(f);
    DecodeOfBody(f);
    hide BE, FromBE, Body, DecodedBody;
    var body := Body(f);
    HeaderRead(|body|, body + rest);
    Assoc(BE(4, |body|), body, rest);
    TakeDrop(body, rest);
  }

  lemma HeaderRead(len: U32, rest: Bytes)
    ensures FromBE((BE(4, len) + rest)[..4]) == len && (BE(4, len) + rest)[4..] == rest
  {
    Pow256Values();
    FromBEofBE(4, len);
    TakeDrop(BE(4, len), rest);
  }

  lemma TakeDrop(a: Bytes, b: Bytes)
    ensures (a + b)[..|a|] == a && (a + b)[|a|..] == b
  {
  }

  /** Receives up to `n` frames, stopping at the first error. */
  function ReceivedMany(n: nat, s: Bytes): (seq<Frame>, Bytes)
    decreases n, s
  {
    if n == 0 then ([], s) else
      var (r, rest) := Received(s);
      if r.Err? then ([], rest) else
        var (fs, rest') := ReceivedMany(n - 1, rest);
        ([r.value] + fs, rest')
  }

  /** Framing is self-delimiting: any list of sendable frames is received back
      from the concatenated stream, in order, and what follows is left alone. */
  lemma {:induction false} ReceiveAllFrames(n: nat, fs: seq<Frame>, rest: Bytes)
    requires n == |fs| && forall i :: 0 <= i < |fs| ==> Sendable(fs[i])
    ensures ReceivedMany(n, Stream(fs) + rest) == (fs, rest)
  {
    hide Framed, Received, Sendable;
    if n == 0 {
      assert Stream(fs) + rest == rest;
    } else {
      var tail := Stream(fs[1..]);
      assert fs == [fs[0]] + fs[1..];
      assert Stream(fs) + rest == Framed(fs[0]) + (tail + rest);
      ReceiveOne(fs[0], tail + rest);
      ReceiveAllFrames(n - 1, fs[1..], rest);
    }
  }

  /** A frame that is received was sent with exactly those bytes. */
  lemma ReceivedIsFramed(s: Bytes)
    requires Received(s).0.Ok?
    ensures var f := Received(s).0.value; Sendable(f) && s == Framed(f) + Received(s).1
  {
    hide DecodedBody, BE, FromBE;
    var len := FromBE(s[..4]);
    var body := s[4..][..len];
    BodyOfDecode(body);
    BEofFromBE(s[..4]);
    Split(s, 4);
    Split(s[4..], len);
    Assoc(s[..4], body, s[4..][len..]);
  }

  /** The whole path: frames written by one side are read by the other, however
      both sockets cut the bytes up. */
  method Transfer(fs: seq<Frame>) returns (got: seq<Frame>)
    requires forall i :: 0 <= i < |fs| ==> Sendable(fs[i])
    ensures got == fs
  {
    hide Framed, Received;
    var sender := new Socket([]);
    for i := 0 to |fs|
      invariant fresh(sender) && sender.outgoing == Stream(fs[..i])
    {
      BodyLength(fs[i]);
      var err := sender.SendFrame(fs[i]);
      StreamSnoc(fs[..i], fs[i]);
      assert fs[..i + 1] == fs[..i] + [fs[i]];
    }
    assert fs[..|fs|] == fs;
    var receiver := new Socket(sender.outgoing);
    assert Stream(fs) + [] == Stream(fs);
    ReceiveAllFrames(|fs|, fs, []);
    got := Drain(receiver, |fs|);
  }

  method Drain(s: Socket, n: nat) returns (got: seq<Frame>)
    modifies s`incoming
    ensures (got, s.incoming) == ReceivedMany(n, old(s.incoming))
  {
    hide Received;
    got := [];
    ghost var whole := ReceivedMany(n, s.incoming);
    assert [] + whole.0 == whole.0;
    for i := 0 to n
      invariant whole == (got + ReceivedMany(n - i, s.incoming).0, ReceivedMany(n - i, s.incoming).1)
    {
      ghost var before := s.incoming;
      var r := s.RecvFrame();
      if r.Err? {
        assert got + [] == got;
        return;
      }
      Regroup(got, r.value, ReceivedMany(n - i - 1, s.incoming).0);
      got := got + [r.value];
    }
    assert got + [] == got;
  }

  lemma Regroup(a: seq<Frame>, x: Frame, b: seq<Frame>)
    ensures a + ([x] + b) == (a + [x]) + b
  {
  }

  lemma {:induction false} StreamSnoc(fs: seq<Frame>, f: Frame)
    ensures Stream(fs + [f]) == Stream(fs) + Framed(f)
  {
    hide Framed;
    if fs == [] {
      assert fs + [f] == [f] && [f][1..] == [];
    } else {
      assert (fs + [f])[1..] == fs[1..] + [f];
      StreamSnoc(fs[1..], f);
      Assoc(Framed(fs[0]), Stream(fs[1..]), Framed(f));
    }
  }
}
