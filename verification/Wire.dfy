/** Big-endian wire primitives: the writer and the bounded reader of
    src/Canonical.cpp.  Bytes are modelled as integers below 256 and a shift
    `v >> 8*k` as division by `Pow256(k)`.

    The specification side is a pair of functions per primitive: what a writer
    appends, and a parser that splits a byte string into a value and the rest.
    The classes below are proved against them.
 */
module Wire {
  type Byte = x: int | 0 <= x < 256
  type Bytes = seq<Byte>

  const TWO32 := 0x1_0000_0000
  const TWO64 := 0x1_0000_0000_0000_0000

  type U32 = x: int | 0 <= x < TWO32
  type U64 = x: int | 0 <= x < TWO64

  datatype Option<+T> = None | Some(value: T)

  /** A text as bytes. */
  function Ascii(s: string): (b: Bytes)
    ensures |b| == |s|
  {
    seq(|s|, i requires 0 <= i < |s| => s[i] as int % 256)
  }

  /** The two words of a 128-bit identity. */
  datatype Id128 = Id128(hi: U64, lo: U64)

  function Pow256(n: nat): (r: nat)
    ensures r > 0
  {
    if n == 0 then 1 else 256 * Pow256(n - 1)
  }

  lemma Pow256Values()
    ensures Pow256(1) == 256
    ensures Pow256(4) == TWO32
    ensures Pow256(8) == TWO64
  {
    assert Pow256(2) == 0x1_0000;
    assert Pow256(4) == 256 * (256 * Pow256(2));
    assert Pow256(6) == 256 * (256 * Pow256(4));
    assert Pow256(8) == 256 * (256 * Pow256(6));
  }

  /** The `n` low bytes of `v`, most significant first. */
  function BE(n: nat, v: nat): (r: Bytes)
    ensures |r| == n
    decreases n, v
  {
    if n == 0 then [] else BE(n - 1, v / 256) + [v % 256]
  }

  function FromBE(b: Bytes): (r: nat)
  {
    if b == [] then 0 else FromBE(b[..|b| - 1]) * 256 + b[|b| - 1]
  }

  lemma {:induction false} FromBEBound(b: Bytes)
    ensures FromBE(b) < Pow256(|b|)
  {
    if b != [] {
      FromBEBound(b[..|b| - 1]);
    }
  }

  lemma {:induction false} FromBEofBE(n: nat, v: nat)
    requires v < Pow256(n)
    ensures FromBE(BE(n, v)) == v
  {
    if n > 0 {
      FromBEofBE(n - 1, v / 256);
      assert BE(n, v)[..n - 1] == BE(n - 1, v / 256);
    }
  }

  lemma {:induction false} BEofFromBE(b: Bytes)
    ensures BE(|b|, FromBE(b)) == b
  {
    if b != [] {
      BEofFromBE(b[..|b| - 1]);
    }
  }

  lemma {:induction false} DivDiv(v: nat, k: nat)
    ensures v / Pow256(k + 1) == (v / 256) / Pow256(k)
  {
    var p := Pow256(k);
    var q := (v / 256) / p;
    var r := (v / 256) % p;
    assert v / 256 == q * p + r;
    assert v == (q * p + r) * 256 + v % 256;
    assert v == q * (256 * p) + (r * 256 + v % 256);
    assert 0 <= r * 256 + v % 256 < 256 * p;
    DivUnique(v, 256 * p, q, r * 256 + v % 256);
  }

  lemma DivUnique(v: int, d: int, q: int, r: int)
    requires d > 0 && 0 <= r < d && v == q * d + r
    ensures v / d == q && v % d == r
  {
    var q' := v / d;
    var r' := v % d;
    assert v == q' * d + r';
    assert (q - q') * d == r' - r;
    if q > q' {
      assert (q - q') * d >= d by { MulAtLeast(q - q', d); }
    } else if q < q' {
      assert (q' - q) * d >= d by { MulAtLeast(q' - q, d); }
    }
  }

  lemma MulAtLeast(a: int, d: int)
    requires a >= 1 && d > 0
    ensures a * d >= d
  {
    assert (a - 1) * d >= 0;
  }

  /** Byte `k` of a big-endian integer is what the source's shift-and-mask yields. */
  lemma {:induction false} BEAt(n: nat, v: nat, k: nat)
    requires k < n
    ensures BE(n, v)[k] == (v / Pow256(n - 1 - k)) % 256
  {
    if k < n - 1 {
      BEAt(n - 1, v / 256, k);
      DivDiv(v, n - 2 - k);
    }
  }

  // ---------------------------------------------------------------- parsers

  /** The outcome of reading one item from the front of a byte string. */
  datatype Parsed<+T> = Short | Got(value: T, rest: Bytes)

  function GetUint(n: nat, s: Bytes): Parsed<nat>
  {
    if |s| < n then Short else Got(FromBE(s[..n]), s[n..])
  }

  function GetRaw(n: nat, s: Bytes): Parsed<Bytes>
  {
    if |s| < n then Short else Got(s[..n], s[n..])
  }

  /** A 64-bit length followed by that many bytes. */
  function GetBlob(s: Bytes): Parsed<Bytes>
  {
    match GetUint(8, s)
    case Short => Short
    case Got(len, rest) => GetRaw(len, rest)
  }

  function GetId(s: Bytes): Parsed<Id128>
  {
    match GetUint(8, s)
    case Short => Short
    case Got(hi, r1) =>
      match GetUint(8, r1)
      case Short => Short
      case Got(lo, r2) =>
        Pow256Values(); FromBEBound(s[..8]); FromBEBound(r1[..8]);
        Got(Id128(hi, lo), r2)
  }

  function GetU8(s: Bytes): Parsed<Byte> {
    if s == [] then Short else Got(s[0], s[1..])
  }

  function GetU32(s: Bytes): (r: Parsed<U32>)
    ensures r == GetUint(4, s)
  {
    if |s| < 4 then Short else
      Pow256Values(); FromBEBound(s[..4]);
      Got(FromBE(s[..4]), s[4..])
  }

  function GetU64(s: Bytes): (r: Parsed<U64>)
    ensures r == GetUint(8, s)
  {
    if |s| < 8 then Short else
      Pow256Values(); FromBEBound(s[..8]);
      Got(FromBE(s[..8]), s[8..])
  }

  function PutBlob(b: Bytes): Bytes { BE(8, |b|) + b }

  function PutId(v: Id128): Bytes { BE(8, v.hi) + BE(8, v.lo) }

  /** Reading back what was written, whatever follows it. */
  lemma GetUintPut(n: nat, v: nat, rest: Bytes)
    requires v < Pow256(n)
    ensures GetUint(n, BE(n, v) + rest) == Got(v, rest)
  {
    FromBEofBE(n, v);
    assert (BE(n, v) + rest)[..n] == BE(n, v);
    assert (BE(n, v) + rest)[n..] == rest;
  }

  /** Whatever is accepted is exactly what writing the value would have produced. */
  lemma GetUintInv(n: nat, s: Bytes)
    requires GetUint(n, s).Got?
    ensures GetUint(n, s).value < Pow256(n)
    ensures s == BE(n, GetUint(n, s).value) + GetUint(n, s).rest
  {
    FromBEBound(s[..n]);
    BEofFromBE(s[..n]);
    assert s == s[..n] + s[n..];
  }

  lemma GetU32Put(v: U32, rest: Bytes)
    ensures GetU32(BE(4, v) + rest) == Got(v, rest)
  {
    Pow256Values();
    GetUintPut(4, v, rest);
  }

  lemma GetU64Put(v: U64, rest: Bytes)
    ensures GetU64(BE(8, v) + rest) == Got(v, rest)
  {
    Pow256Values();
    GetUintPut(8, v, rest);
  }

  lemma GetBlobPut(b: Bytes, rest: Bytes)
    requires |b| < TWO64
    ensures GetBlob(PutBlob(b) + rest) == Got(b, rest)
  {
    Pow256Values();
    hide BE, FromBE, Pow256;
    assert PutBlob(b) + rest == BE(8, |b|) + (b + rest);
    GetUintPut(8, |b|, b + rest);
    assert (b + rest)[..|b|] == b && (b + rest)[|b|..] == rest;
  }

  lemma GetBlobInv(s: Bytes)
    requires GetBlob(s).Got?
    ensures |GetBlob(s).value| < TWO64
    ensures s == PutBlob(GetBlob(s).value) + GetBlob(s).rest
  {
    Pow256Values();
    hide BE, FromBE, Pow256;
    var Got(len, tail) := GetUint(8, s);
    GetUintInv(8, s);
    Split(tail, len);
    Assoc(BE(8, len), tail[..len], tail[len..]);
  }

  lemma Assoc(a: Bytes, b: Bytes, c: Bytes)
    ensures (a + b) + c == a + (b + c)
  {
  }

  lemma Split(s: Bytes, n: nat)
    requires n <= |s|
    ensures s == s[..n] + s[n..] && |s[..n]| == n
  {
  }

  lemma GetIdPut(v: Id128, rest: Bytes)
    ensures GetId(PutId(v) + rest) == Got(v, rest)
  {
    Pow256Values();
    hide BE, FromBE, Pow256;
    assert PutId(v) + rest == BE(8, v.hi) + (BE(8, v.lo) + rest);
    GetUintPut(8, v.hi, BE(8, v.lo) + rest);
    GetUintPut(8, v.lo, rest);
  }

  lemma GetIdInv(s: Bytes)
    requires GetId(s).Got?
    ensures s == PutId(GetId(s).value) + GetId(s).rest
  {
    hide BE, FromBE;
    GetUintInv(8, s);
    GetUintInv(8, GetUint(8, s).rest);
  }

  // ---------------------------------------------------------------- writer

  class CanonicalWriter {
    var buf: Bytes

    constructor ()
      ensures buf == []
    {
      buf := [];
    }

    method U8(v: Byte)
      modifies this
      ensures buf == old(buf) + [v]
    {
      buf := buf + [v];
    }

    method U32(v: U32)
      modifies this
      ensures buf == old(buf) + BE(4, v)
    {
      assert Pow256(0) == 1 && Pow256(1) == 256 && Pow256(2) == 0x1_0000 && Pow256(3) == 0x100_0000;
      BEAt(4, v, 0); BEAt(4, v, 1); BEAt(4, v, 2); BEAt(4, v, 3);
      buf := buf + [(v / 0x100_0000) % 256] + [(v / 0x1_0000) % 256] + [(v / 0x100) % 256] + [v % 256];
    }

    method U64(v: U64)
      modifies this
      ensures buf == old(buf) + BE(8, v)
    {
      var i := 8;
      while i > 0
        invariant 0 <= i <= 8
        invariant buf == old(buf) + BE(8, v)[..8 - i]
      {
        i := i - 1;
        BEAt(8, v, 7 - i);
        buf := buf + [(v / Pow256(i)) % 256];
      }
    }

    method U128(v: Id128)
      modifies this
      ensures buf == old(buf) + PutId(v)
    {
      U64(v.hi);
      U64(v.lo);
    }

    method Raw(b: Bytes)
      modifies this
      ensures buf == old(buf) + b
    {
      buf := buf + b;
    }

    method Str(b: Bytes)
      requires |b| < TWO64
      modifies this
      ensures buf == old(buf) + PutBlob(b)
    {
      U64(|b|);
      Raw(b);
    }
  }

  // ---------------------------------------------------------------- reader

  class CanonicalReader {
    const data: Bytes
    var pos: nat

    ghost predicate Valid()
      reads this
    {
      pos <= |data|
    }

    /** The bytes not yet consumed. */
    ghost function Rest(): Bytes
      requires Valid()
      reads this
    {
      data[pos..]
    }

    constructor (data: Bytes)
      ensures Valid() && this.data == data && pos == 0 && Rest() == data
    {
      this.data := data;
      pos := 0;
    }

    method HasRemaining() returns (r: bool)
      requires Valid()
      ensures r <==> Rest() != []
    {
      r := pos < |data|;
    }

    method U8() returns (ok: bool, out: Byte)
      requires Valid()
      modifies this`pos
      ensures Valid()
      ensures ok <==> |old(Rest())| >= 1
      ensures ok ==> out == old(Rest())[0] && Rest() == old(Rest())[1..]
      ensures !ok ==> pos == old(pos)
    {
      if pos + 1 > |data| { return false, 0; }
      out := data[pos];
      pos := pos + 1;
      ok := true;
    }

    method U32() returns (ok: bool, out: U32)
      requires Valid()
      modifies this`pos
      ensures Valid()
      ensures ok <==> GetUint(4, old(Rest())).Got?
      ensures ok ==> GetUint(4, old(Rest())) == Got(out, Rest())
      ensures !ok ==> pos == old(pos)
    {
      if pos + 4 > |data| { return false, 0; }
      ghost var s := data[pos..];
      assert s[..4] == [data[pos], data[pos + 1], data[pos + 2], data[pos + 3]];
      FromBE4(data[pos], data[pos + 1], data[pos + 2], data[pos + 3]);
      var b0: int, b1: int, b2: int, b3: int := data[pos], data[pos + 1], data[pos + 2], data[pos + 3];
      out := b0 * 0x100_0000 + b1 * 0x1_0000 + b2 * 0x100 + b3;
      pos := pos + 4;
      ok := true;
    }

    method U64() returns (ok: bool, out: U64)
      requires Valid()
      modifies this`pos
      ensures Valid()
      ensures ok <==> GetUint(8, old(Rest())).Got?
      ensures ok ==> GetUint(8, old(Rest())) == Got(out, Rest())
      ensures !ok ==> pos == old(pos)
    {
      if pos + 8 > |data| { return false, 0; }
      Pow256Values();
      ghost var s := data[pos..];
      var v: nat := 0;
      for i := 0 to 8
        invariant v == FromBE(s[..i])
        invariant pos == old(pos)
      {
        assert s[..i + 1][..i] == s[..i];
        v := v * 256 + data[pos + i];
      }
      FromBEBound(s[..8]);
      out := v;
      pos := pos + 8;
      ok := true;
    }

    method U128() returns (ok: bool, out: Id128)
      requires Valid()
      modifies this`pos
      ensures Valid()
      ensures ok <==> GetId(old(Rest())).Got?
      ensures ok ==> GetId(old(Rest())) == Got(out, Rest())
    {
      var okH, h := U64();
      if !okH { return false, Id128(0, 0); }
      var okL, l := U64();
      if !okL { return false, Id128(0, 0); }
      return true, Id128(h, l);
    }

    /** `str` and `bytesBlob`; the bound `pos_ + len` is taken in the naturals. */
    method Blob() returns (ok: bool, out: Bytes)
      requires Valid()
      modifies this`pos
      ensures Valid()
      ensures ok <==> GetBlob(old(Rest())).Got?
      ensures ok ==> GetBlob(old(Rest())) == Got(out, Rest())
    {
      var okLen, len := U64();
      if !okLen || pos + len > |data| { return false, []; }
      out := data[pos..pos + len];
      assert out == Rest()[..len];
      pos := pos + len;
      ok := true;
    }

    /** `bytesBlob` with the bound taken in 64 bits as written.  It is `Blob` as
        long as the sum does not wrap; a length that wraps is always accepted,
        yields all that is left, and moves the position back. */
    method Blob64() returns (ok: bool, out: Bytes)
      requires Valid() && |data| < TWO64
      modifies this`pos
      ensures Valid()
      ensures |old(Rest())| < 8 ==> !ok
      ensures |old(Rest())| >= 8 ==>
        var end := old(pos) + 8 + GetUint(8, old(Rest())).value;
        if end < TWO64 then
          (ok <==> GetBlob(old(Rest())).Got?) && (ok ==> GetBlob(old(Rest())) == Got(out, Rest()))
        else ok && GetBlob(old(Rest())).Short? && out == old(Rest())[8..] && pos == end - TWO64 < old(pos) + 8
    {
      hide FromBE;
      var okLen, len := U64();
      if !okLen { return false, []; }
      ok, out := Take64(len);
    }

    /** The part of `bytesBlob` after the length, where `substr` clamps. */
    method Take64(len: U64) returns (ok: bool, out: Bytes)
      requires Valid() && |data| < TWO64
      modifies this`pos
      ensures Valid()
      ensures old(pos) + len < TWO64 ==> (ok <==> len <= |old(Rest())|)
      ensures old(pos) + len < TWO64 && ok ==> out == old(Rest())[..len] && Rest() == old(Rest())[len..]
      ensures old(pos) + len >= TWO64 ==> ok && out == old(Rest()) && pos == old(pos) + len - TWO64
    {
      Wraps(pos + len);
      var end := (pos + len) % TWO64;
      if end > |data| { return false, []; }
      var n := if len < |data| - pos then len else |data| - pos;
      out := data[pos..pos + n];
      pos := end;
      ok := true;
    }

    method RawBlob(n: nat) returns (ok: bool, out: Bytes)
      requires Valid()
      modifies this`pos
      ensures Valid()
      ensures ok <==> GetRaw(n, old(Rest())).Got?
      ensures ok ==> GetRaw(n, old(Rest())) == Got(out, Rest())
      ensures !ok ==> pos == old(pos)
    {
      if pos + n > |data| { return false, []; }
      out := data[pos..pos + n];
      assert out == Rest()[..n];
      pos := pos + n;
      ok := true;
    }
  }

  lemma Wraps(x: nat)
    requires x < 2 * TWO64
    ensures x % TWO64 == if x < TWO64 then x else x - TWO64
  {
    if x < TWO64 {
      DivUnique(x, TWO64, 0, x);
    } else {
      DivUnique(x, TWO64, 1, x - TWO64);
    }
  }

  lemma FromBE4(a: Byte, b: Byte, c: Byte, d: Byte)
    ensures FromBE([a, b, c, d]) == (a as int) * 0x100_0000 + (b as int) * 0x1_0000 + (c as int) * 0x100 + d
  {
    assert [a, b, c, d][..3] == [a, b, c];
    assert [a, b, c][..2] == [a, b];
    assert [a, b][..1] == [a];
    assert FromBE([a]) == a;
    assert FromBE([a, b]) == (a as int) * 256 + b;
    assert FromBE([a, b, c]) == (a as int) * 0x1_0000 + (b as int) * 256 + c;
  }

  /** The source tests `pos_ + len > size` in 64 bits.  That test agrees with
      the one in the naturals exactly when the sum does not wrap. */
  lemma WrappedBoundAgrees(pos: nat, len: U64, size: U64)
    requires pos <= size
    ensures ((pos + len) % TWO64 <= size <==> pos + len <= size) <==> pos + len < TWO64
  {
    if pos + len >= TWO64 {
      DivUnique(pos + len, TWO64, 1, pos + len - TWO64);
    }
  }
}
