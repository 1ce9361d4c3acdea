/** The streaming SHA-256 class of src/Core.cpp against FIPS 180-4:
    section 5.1.1 (padding), 5.2.1 (parsing into blocks), 6.2.2 (compression). */
module Sha256 {
  import opened Wire
  import opened Key

  type Word = bv32

  datatype Hash = Hash(a: Word, b: Word, c: Word, d: Word, e: Word, f: Word, g: Word, h: Word)

  const K: seq<Word> :=
    [0x428a2f98, 0x71374491, 0xb5c0fbcf, 0xe9b5dba5, 0x3956c25b, 0x59f111f1, 0x923f82a4, 0xab1c5ed5]
    + [0xd807aa98, 0x12835b01, 0x243185be, 0x550c7dc3, 0x72be5d74, 0x80deb1fe, 0x9bdc06a7, 0xc19bf174]
    + [0xe49b69c1, 0xefbe4786, 0x0fc19dc6, 0x240ca1cc, 0x2de92c6f, 0x4a7484aa, 0x5cb0a9dc, 0x76f988da]
    + [0x983e5152, 0xa831c66d, 0xb00327c8, 0xbf597fc7, 0xc6e00bf3, 0xd5a79147, 0x06ca6351, 0x14292967]
    + [0x27b70a85, 0x2e1b2138, 0x4d2c6dfc, 0x53380d13, 0x650a7354, 0x766a0abb, 0x81c2c92e, 0x92722c85]
    + [0xa2bfe8a1, 0xa81a664b, 0xc24b8b70, 0xc76c51a3, 0xd192e819, 0xd6990624, 0xf40e3585, 0x106aa070]
    + [0x19a4c116, 0x1e376c08, 0x2748774c, 0x34b0bcb5, 0x391c0cb3, 0x4ed8aa4a, 0x5b9cca4f, 0x682e6ff3]
    + [0x748f82ee, 0x78a5636f, 0x84c87814, 0x8cc70208, 0x90befffa, 0xa4506ceb, 0xbef9a3f7, 0xc67178f2]

  const H0 := Hash(0x6a09e667, 0xbb67ae85, 0x3c6ef372, 0xa54ff53a, 0x510e527f, 0x9b05688c, 0x1f83d9ab, 0x5be0cd19)

  // ------------------------------------------------- FIPS 180-4 functions

  function Rotr(x: Word, n: Word): Word
    requires 0 < n < 32
  {
    (x >> n) | (x << (32 - n))
  }

  function Shr(x: Word, n: Word): Word
    requires n < 32
  {
    x >> n
  }

  function And(x: Word, y: Word): Word { x & y }
  function Not(x: Word): Word { !x }
  function Xor(x: Word, y: Word): Word { x ^ y }
  function Xor3(x: Word, y: Word, z: Word): Word { Xor(Xor(x, y), z) }

  function Ch(x: Word, y: Word, z: Word): Word { Xor(And(x, y), And(Not(x), z)) }
  function Maj(x: Word, y: Word, z: Word): Word { Xor3(And(x, y), And(x, z), And(y, z)) }
  function BigSigma0(x: Word): Word { Xor3(Rotr(x, 2), Rotr(x, 13), Rotr(x, 22)) }
  function BigSigma1(x: Word): Word { Xor3(Rotr(x, 6), Rotr(x, 11), Rotr(x, 25)) }
  function SmallSigma0(x: Word): Word { Xor3(Rotr(x, 7), Rotr(x, 18), Shr(x, 3)) }
  function SmallSigma1(x: Word): Word { Xor3(Rotr(x, 17), Rotr(x, 19), Shr(x, 10)) }

  function Join(b0: Byte, b1: Byte, b2: Byte, b3: Byte): Word {
    ((b0 as Word) << 24) | ((b1 as Word) << 16) | ((b2 as Word) << 8) | (b3 as Word)
  }

  function Mix(w2: Word, w7: Word, w15: Word, w16: Word): Word {
    SmallSigma1(w2) + w7 + SmallSigma0(w15) + w16
  }

  /** The message schedule. */
  function Schedule(block: Bytes, t: nat): Word
    requires |block| == 64 && t < 64
    decreases t, block
  {
    if t < 16 then Join(block[4 * t], block[4 * t + 1], block[4 * t + 2], block[4 * t + 3])
    else Mix(Schedule(block, t - 2), Schedule(block, t - 7), Schedule(block, t - 15), Schedule(block, t - 16))
  }

  /** Addition modulo 2^32. */
  function Add(x: Word, y: Word): Word { x + y }

  function T1(e: Word, f: Word, g: Word, h: Word, k: Word, w: Word): Word {
    h + BigSigma1(e) + Ch(e, f, g) + k + w
  }

  function T2(a: Word, b: Word, c: Word): Word { BigSigma0(a) + Maj(a, b, c) }

  function Round(v: Hash, k: Word, w: Word): Hash {
    var t1 := T1(v.e, v.f, v.g, v.h, k, w);
    var t2 := T2(v.a, v.b, v.c);
    Hash(Add(t1, t2), v.a, v.b, v.c, Add(v.d, t1), v.e, v.f, v.g)
  }

  lemma ScheduleUnfolds(block: Bytes, t: nat)
    requires |block| == 64 && t < 64
    ensures t < 16 ==> Schedule(block, t) == Join(block[4 * t], block[4 * t + 1], block[4 * t + 2], block[4 * t + 3])
    ensures t >= 16 ==>
      Schedule(block, t) == Mix(Schedule(block, t - 2), Schedule(block, t - 7), Schedule(block, t - 15), Schedule(block, t - 16))
  {
    hide Join, Mix;
  }

  function Constant(t: nat): Word
    requires t < 64
  {
    K[t]
  }

  function Rounds(v: Hash, block: Bytes, n: nat): Hash
    requires |block| == 64 && n <= 64
    decreases n, block
  {
    if n == 0 then v else Round(Rounds(v, block, n - 1), Constant(n - 1), Schedule(block, n - 1))
  }

  function Plus(x: Hash, y: Hash): Hash {
    Hash(Add(x.a, y.a), Add(x.b, y.b), Add(x.c, y.c), Add(x.d, y.d),
         Add(x.e, y.e), Add(x.f, y.f), Add(x.g, y.g), Add(x.h, y.h))
  }

  function Compress(v: Hash, block: Bytes): Hash
    requires |block| == 64
  {
    Plus(v, Rounds(v, block, 64))
  }

  /** The intermediate hash after `n` whole blocks. */
  function Blocks(n: nat, m: Bytes): Hash
    requires |m| == 64 * n
    decreases n, m
  {
    if n == 0 then H0 else Compress(Blocks(n - 1, m[..64 * (n - 1)]), m[64 * (n - 1)..])
  }

  function Zeros(k: nat): (z: Bytes)
    ensures |z| == k
  {
    seq(k, _ => 0)
  }

  /** How far a buffer fill is from the position of the length field. */
  function Gap(len: nat): nat { (56 - len) % 64 }

  /** How many zero bytes follow the 0x80 of a message of `n` bytes. */
  function ZeroCount(n: nat): nat { (55 - n) % 64 }

  /** The length field is 64 bits wide; below 2^61 bytes it is the bit length. */
  function Padded(m: Bytes): Bytes {
    m + [0x80] + Zeros(ZeroCount(|m|)) + BE(8, 8 * |m| % TWO64)
  }

  function WordBytes(w: Word): (b: Bytes)
    ensures |b| == 4
  {
    [((w >> 24) & 0xFF) as int, ((w >> 16) & 0xFF) as int, ((w >> 8) & 0xFF) as int, (w & 0xFF) as int]
  }

  function HashBytes(v: Hash): Bytes {
    WordBytes(v.a) + WordBytes(v.b) + WordBytes(v.c) + WordBytes(v.d)
    + WordBytes(v.e) + WordBytes(v.f) + WordBytes(v.g) + WordBytes(v.h)
  }

  lemma PaddedLength(n: nat)
    ensures (n + 1 + ZeroCount(n) + 8) % 64 == 0
  {
    var z := ZeroCount(n);
    var q := (55 - n) / 64;
    assert 55 - n == 64 * q + z;
    assert n + 1 + z + 8 == 64 * (1 - q);
  }

  /** No shorter run of zeros aligns the length field: the padding is minimal,
      as section 5.1.1 demands. */
  lemma {:induction false} PaddingIsMinimal(n: nat, k: nat)
    requires (n + 1 + k) % 64 == 56
    ensures ZeroCount(n) <= k
  {
    var z := ZeroCount(n);
    var q := (55 - n) / 64;
    var p := (n + 1 + k) / 64;
    assert 55 - n == 64 * q + z && n + 1 + k == 64 * p + 56;
    assert k - z == 64 * (p + q);
  }

  /** The number of blocks of the padded message. */
  function BlockCount(n: nat): (c: nat)
    ensures 64 * c == n + 1 + ZeroCount(n) + 8
  {
    PaddedLength(n);
    (n + 1 + ZeroCount(n) + 8) / 64
  }

  /** SHA-256 of a message. */
  function Sha(m: Bytes): Digest {
    HashBytes(Blocks(BlockCount(|m|), Padded(m)))
  }

  lemma {:induction false} LengthField(m: Bytes)
    requires |m| < 0x2000_0000_0000_0000
    ensures 8 * |m| % TWO64 == 8 * |m|
  {
  }

  lemma BlocksSnoc(n: nat, m: Bytes, block: Bytes)
    requires |m| == 64 * n && |block| == 64
    ensures Blocks(n + 1, m + block) == Compress(Blocks(n, m), block)
  {
    hide Compress;
    assert (m + block)[..64 * n] == m && (m + block)[64 * n..] == block;
  }

  // ------------------------------------------------------- the streaming class

  function ToHash(s: seq<Word>): Hash
    requires |s| == 8
  {
    Hash(s[0], s[1], s[2], s[3], s[4], s[5], s[6], s[7])
  }

  class Sha256 {
    const state: array<Word>
    const buffer: array<Byte>
    var bufferLen: nat
    var bitLen: U64
    /** Everything passed to `update` so far, and the whole blocks in it. */
    ghost var absorbed: Bytes
    ghost var blocks: nat

    ghost predicate Valid()
      reads this, state, buffer
    {
      && state.Length == 8 && buffer.Length == 64 && bufferLen < 64
      && |absorbed| == 64 * blocks + bufferLen
      && bitLen == 8 * |absorbed| % TWO64
      && ToHash(state[..]) == Blocks(blocks, absorbed[..64 * blocks])
      && buffer[..bufferLen] == absorbed[64 * blocks..]
    }

    constructor ()
      ensures Valid() && absorbed == [] && fresh(state) && fresh(buffer)
    {
      var s := new Word[8];
      s[0], s[1], s[2], s[3] := 0x6a09e667, 0xbb67ae85, 0x3c6ef372, 0xa54ff53a;
      s[4], s[5], s[6], s[7] := 0x510e527f, 0x9b05688c, 0x1f83d9ab, 0x5be0cd19;
      state := s;
      buffer := new Byte[64](_ => 0);
      bufferLen, bitLen := 0, 0;
      absorbed, blocks := [], 0;
    }

    /** The message schedule of the buffered block, as an array. */
    method Expand() returns (w: array<Word>)
      requires buffer.Length == 64
      ensures fresh(w) && w.Length == 64
      ensures forall i :: 0 <= i < 64 ==> w[i] == Schedule(buffer[..], i)
    {
      hide Join, Mix, Schedule;
      ghost var block := buffer[..];
      w := new Word[64](_ => 0);
      for i := 0 to 16
        invariant forall k :: 0 <= k < i ==> w[k] == Schedule(block, k)
      {
        w[i] := Join(buffer[4 * i], buffer[4 * i + 1], buffer[4 * i + 2], buffer[4 * i + 3]);
        ScheduleUnfolds(block, i);
      }
      for i := 16 to 64
        invariant forall k :: 0 <= k < i ==> w[k] == Schedule(block, k)
      {
        w[i] := Mix(w[i - 2], w[i - 7], w[i - 15], w[i - 16]);
        ScheduleUnfolds(block, i);
      }
    }

    /** `transform` on the full buffer. */
    method Transform()
      requires state.Length == 8 && buffer.Length == 64
      modifies state
      ensures ToHash(state[..]) == Compress(old(ToHash(state[..])), buffer[..])
    {
      hide Schedule, Round, Constant, Plus;
      var w := Expand();
      ghost var block := buffer[..];
      ghost var first := ToHash(state[..]);
      var start := Hash(state[0], state[1], state[2], state[3], state[4], state[5], state[6], state[7]);
      var v := start;
      for i := 0 to 64
        invariant v == Rounds(first, block, i)
        invariant ToHash(state[..]) == first && buffer[..] == block
        invariant w.Length == 64 && forall k :: 0 <= k < 64 ==> w[k] == Schedule(block, k)
      {
        v := RoundStep(v, Constant(i), w[i]);
      }
      AddToState(v);
    }

    method AddToState(v: Hash)
      requires state.Length == 8
      modifies state
      ensures ToHash(state[..]) == Plus(old(ToHash(state[..])), v)
    {
      hide Add;
      state[0], state[1] := Add(state[0], v.a), Add(state[1], v.b);
      state[2], state[3] := Add(state[2], v.c), Add(state[3], v.d);
      state[4], state[5] := Add(state[4], v.e), Add(state[5], v.f);
      state[6], state[7] := Add(state[6], v.g), Add(state[7], v.h);
    }

    method Copy(part: Bytes)
      requires buffer.Length == 64 && bufferLen + |part| <= 64
      modifies buffer
      ensures buffer[..bufferLen + |part|] == old(buffer[..bufferLen]) + part
    {
      forall i | 0 <= i < |part| {
        buffer[bufferLen + i] := part[i];
      }
    }

    /** One turn of the copy loop: at most fills the buffer, and compresses it when full. */
    method Absorb(part: Bytes)
      requires state.Length == 8 && buffer.Length == 64 && bufferLen + |part| <= 64
      requires |absorbed| == 64 * blocks + bufferLen
      requires ToHash(state[..]) == Blocks(blocks, absorbed[..64 * blocks])
      requires buffer[..bufferLen] == absorbed[64 * blocks..]
      modifies this`bufferLen, this`absorbed, this`blocks, state, buffer
      ensures absorbed == old(absorbed) + part
      ensures bufferLen < 64 && |absorbed| == 64 * blocks + bufferLen
      ensures ToHash(state[..]) == Blocks(blocks, absorbed[..64 * blocks])
      ensures buffer[..bufferLen] == absorbed[64 * blocks..]
    {
      hide Compress, Blocks, ToHash;
      Copy(part);
      SplitAppend(absorbed, 64 * blocks, part);
      bufferLen := bufferLen + |part|;
      absorbed := absorbed + part;
      if bufferLen == 64 {
        assert buffer[..] == buffer[..64];
        assert absorbed[..64 * blocks] + buffer[..] == absorbed;
        BlocksSnoc(blocks, absorbed[..64 * blocks], buffer[..]);
        Transform();
        bufferLen := 0;
        blocks := blocks + 1;
        assert absorbed[..64 * blocks] == absorbed;
      }
    }

    /** Any chunking: what counts is the concatenation. */
    method Update(data: Bytes)
      requires Valid()
      modifies this, state, buffer
      ensures Valid() && absorbed == old(absorbed) + data
    {
      hide Blocks, ToHash;
      bitLen := (bitLen + |data| * 8) % TWO64;
      BitLength(|absorbed|, |data|);
      var pos := 0;
      while pos < |data|
        invariant 0 <= pos <= |data|
        invariant state.Length == 8 && buffer.Length == 64 && bufferLen < 64
        invariant |absorbed| == 64 * blocks + bufferLen
        invariant ToHash(state[..]) == Blocks(blocks, absorbed[..64 * blocks])
        invariant buffer[..bufferLen] == absorbed[64 * blocks..]
        invariant absorbed == old(absorbed) + data[..pos]
        invariant bitLen == 8 * (|old(absorbed)| + |data|) % TWO64
      {
        var take := if 64 - bufferLen < |data| - pos then 64 - bufferLen else |data| - pos;
        Absorb(data[pos..pos + take]);
        assert data[..pos + take] == data[..pos] + data[pos..pos + take];
        pos := pos + take;
      }
      assert data[..pos] == data;
    }

    /** The 0x80 byte and the zeros.  The loop terminates because each zero byte
        brings the buffer one step closer to 56 modulo 64. */
    method Pad()
      requires Valid()
      modifies this, state, buffer
      ensures Valid()
      ensures absorbed == old(absorbed) + [0x80] + Zeros(ZeroCount(|old(absorbed)|))
    {
      hide Blocks, ToHash, ZeroCount, Gap;
      ghost var m := absorbed;
      Update([0x80]);
      ghost var k := 0;
      PadStart(|m|, blocks, bufferLen);
      assert m + [0x80] + Zeros(0) == m + [0x80];
      while bufferLen != 56
        invariant Valid() && absorbed == m + [0x80] + Zeros(k)
        invariant Gap(bufferLen) + k == ZeroCount(|m|)
        decreases Gap(bufferLen)
      {
        ghost var was, b0 := bufferLen, blocks;
        Update([0]);
        ZerosSnoc(m + [0x80], k);
        PadStep(was, bufferLen, b0, blocks);
        k := k + 1;
      }
      assert Gap(56) == 0 by { GapClosed(); }
    }

    method Final() returns (out: Digest)
      requires Valid()
      modifies this, state, buffer
      ensures out == Sha(old(absorbed))
    {
      hide Blocks, BE, HashBytes, ToHash, ZeroCount;
      ghost var m := absorbed;
      var bits := bitLen;
      Pad();
      var lenb := LengthBytes(bits);
      Update(lenb);
      PadEnd(|m|, blocks, bufferLen);
      assert absorbed == Padded(m);
      assert absorbed[..64 * blocks] == absorbed;
      out := Output();
    }

    method Output() returns (out: Digest)
      requires state.Length == 8
      ensures out == HashBytes(ToHash(state[..]))
    {
      hide WordBytes;
      var bytes: Bytes := [];
      ghost var v := ToHash(state[..]);
      bytes := WordBytes(state[0]) + WordBytes(state[1]) + WordBytes(state[2]) + WordBytes(state[3])
               + WordBytes(state[4]) + WordBytes(state[5]) + WordBytes(state[6]) + WordBytes(state[7]);
      out := bytes;
    }
  }

  lemma SplitAppend(a: Bytes, n: nat, part: Bytes)
    requires n <= |a|
    ensures (a + part)[..n] == a[..n] && (a + part)[n..] == a[n..] + part
  {
  }

  /** One round: the working variables shift down by one. */
  method RoundStep(v: Hash, k: Word, w: Word) returns (r: Hash)
    ensures r == Round(v, k, w)
  {
    hide T1, T2, Add;
    var a, b, c, d := v.a, v.b, v.c, v.d;
    var e, f, g, h := v.e, v.f, v.g, v.h;
    var t1 := T1(e, f, g, h, k, w);
    var t2 := T2(a, b, c);
    h := g; g := f; f := e; e := Add(d, t1); d := c; c := b; b := a; a := Add(t1, t2);
    r := Hash(a, b, c, d, e, f, g, h);
  }

  method LengthBytes(bits: U64) returns (b: Bytes)
    ensures b == BE(8, bits)
  {
    b := [];
    for i := 0 to 8
      invariant b == BE(8, bits)[..i]
    {
      BEAt(8, bits, i);
      b := b + [(bits / Pow256(7 - i)) % 256];
    }
  }

  lemma BitLength(n: nat, k: nat)
    ensures (8 * n % TWO64 + k * 8) % TWO64 == 8 * (n + k) % TWO64
  {
    var q, r := 8 * n / TWO64, 8 * n % TWO64;
    var q2, r2 := (r + 8 * k) / TWO64, (r + 8 * k) % TWO64;
    assert 8 * (n + k) == (q + q2) * TWO64 + r2;
    DivUnique(8 * (n + k), TWO64, q + q2, r2);
  }

  lemma PadStart(n: nat, blocks: nat, len: nat)
    requires n + 1 == 64 * blocks + len && len < 64
    ensures Gap(len) == ZeroCount(n)
  {
    assert 55 - n == 56 - len - 64 * blocks;
    ModShift(56 - len, blocks);
  }

  lemma ModShift(x: int, q: int)
    ensures (x - 64 * q) % 64 == x % 64
  {
    DivUnique(x - 64 * q, 64, x / 64 - q, x % 64);
  }

  lemma ZerosSnoc(m: Bytes, k: nat)
    ensures m + Zeros(k) + [0] == m + Zeros(k + 1)
  {
    assert Zeros(k) + [0] == Zeros(k + 1);
  }

  lemma GapClosed()
    ensures Gap(56) == 0
  {
  }

  lemma PadStep(was: nat, len: nat, b0: nat, b1: nat)
    requires was < 64 && len < 64 && was != 56 && 64 * b0 + was + 1 == 64 * b1 + len
    ensures Gap(len) == Gap(was) - 1
  {
    if was < 63 {
      assert b1 == b0 && len == was + 1;
    } else {
      assert b1 == b0 + 1 && len == 0;
    }
  }

  lemma PadEnd(n: nat, blocks: nat, len: nat)
    requires 64 * blocks + len == n + 1 + ZeroCount(n) + 8 && len < 64
    ensures len == 0 && blocks == BlockCount(n)
  {
  }

  /** `Sha256::hash`. */
  method HashOf(data: Bytes) returns (d: Digest)
    ensures d == Sha(data)
  {
    hide Sha, Blocks;
    var s := new Sha256();
    s.Update(data);
    assert [] + data == data;
    d := s.Final();
  }

  /** A message fed in any number of pieces has the digest of the whole. */
  method HashOfChunks(chunks: seq<Bytes>) returns (d: Digest)
    ensures d == Sha(Concat(chunks))
  {
    hide Sha, Blocks;
    var s := new Sha256();
    for i := 0 to |chunks|
      invariant s.Valid() && fresh(s) && fresh(s.state) && fresh(s.buffer)
      invariant s.absorbed == Concat(chunks[..i])
    {
      s.Update(chunks[i]);
      assert chunks[..i + 1][..i] == chunks[..i];
    }
    assert chunks[..|chunks|] == chunks;
    d := s.Final();
  }

  function Concat(chunks: seq<Bytes>): Bytes {
    if chunks == [] then [] else Concat(chunks[..|chunks| - 1]) + chunks[|chunks| - 1]
  }
}
