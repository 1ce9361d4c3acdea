/** Hexadecimal names of identities and digests, as in src/Core.cpp. */
module Hex {
  import opened Wire
  import opened Key

  function HexChar(n: nat): char
    requires n < 16
  {
    if n < 10 then '0' + n as char else 'a' + (n - 10) as char
  }

  /** The digit's value, or -1. */
  function HexVal(c: char): int {
    if '0' <= c <= '9' then c as int - '0' as int
    else if 'a' <= c <= 'f' then c as int - 'a' as int + 10
    else if 'A' <= c <= 'F' then c as int - 'A' as int + 10
    else -1
  }

  predicate AllHex(s: string) { forall i :: 0 <= i < |s| ==> HexVal(s[i]) >= 0 }

  predicate Lower(s: string) { forall i :: 0 <= i < |s| ==> !('A' <= s[i] <= 'F') }

  lemma HexCharVal(n: nat)
    requires n < 16
    ensures HexVal(HexChar(n)) == n && !('A' <= HexChar(n) <= 'F')
  {
  }

  lemma HexValChar(c: char)
    requires HexVal(c) >= 0
    ensures HexVal(c) < 16
    ensures HexChar(HexVal(c)) == c <==> !('A' <= c <= 'F')
  {
  }

  function Pow16(n: nat): (r: nat)
    ensures r > 0
  {
    if n == 0 then 1 else 16 * Pow16(n - 1)
  }

  lemma Pow16Values()
    ensures Pow16(16) == TWO64
  {
    assert Pow16(2) == 0x100;
    assert Pow16(4) == 16 * (16 * Pow16(2));
    assert Pow16(6) == 16 * (16 * Pow16(4));
    assert Pow16(8) == 16 * (16 * Pow16(6));
    assert Pow16(10) == 16 * (16 * Pow16(8));
    assert Pow16(12) == 16 * (16 * Pow16(10));
    assert Pow16(14) == 16 * (16 * Pow16(12));
    assert Pow16(16) == 16 * (16 * Pow16(14));
  }

  /** The `n` low digits of `v`, most significant first. */
  function Digits(n: nat, v: nat): (s: string)
    ensures |s| == n
    decreases n, v
  {
    if n == 0 then "" else Digits(n - 1, v / 16) + [HexChar(v % 16)]
  }

  function FromHex(s: string): nat
    requires AllHex(s)
  {
    if s == "" then 0 else FromHex(s[..|s| - 1]) * 16 + HexVal(s[|s| - 1])
  }

  lemma {:induction false} DigitsAreHex(n: nat, v: nat)
    ensures AllHex(Digits(n, v)) && Lower(Digits(n, v))
  {
    if n > 0 {
      DigitsAreHex(n - 1, v / 16);
      HexCharVal(v % 16);
    }
  }

  lemma {:induction false} FromHexOfDigits(n: nat, v: nat)
    requires v < Pow16(n)
    ensures AllHex(Digits(n, v)) && FromHex(Digits(n, v)) == v
  {
    DigitsAreHex(n, v);
    if n > 0 {
      FromHexOfDigits(n - 1, v / 16);
      HexCharVal(v % 16);
      assert Digits(n, v)[..n - 1] == Digits(n - 1, v / 16);
    }
  }

  lemma {:induction false} FromHexBound(s: string)
    requires AllHex(s)
    ensures FromHex(s) < Pow16(|s|)
  {
    if s != "" {
      FromHexBound(s[..|s| - 1]);
      HexValChar(s[|s| - 1]);
    }
  }

  lemma {:induction false} DigitsOfFromHex(s: string)
    requires AllHex(s)
    ensures Digits(|s|, FromHex(s)) == s <==> Lower(s)
  {
    if s != "" {
      var init, last := s[..|s| - 1], s[|s| - 1];
      FromHexUnfolds(s);
      hide Digits, FromHex, HexVal, HexChar, Lower;
      DigitsOfFromHex(init);
      assert s == init + [last];
      SnocCanonical(init, last, FromHex(init));
    }
  }

  lemma FromHexUnfolds(s: string)
    requires AllHex(s) && s != ""
    ensures FromHex(s) == FromHex(s[..|s| - 1]) * 16 + HexVal(s[|s| - 1])
  {
  }

  lemma SnocCanonical(init: string, last: char, v: nat)
    requires HexVal(last) >= 0 && (Digits(|init|, v) == init <==> Lower(init))
    ensures Digits(|init| + 1, v * 16 + HexVal(last)) == init + [last] <==> Lower(init + [last])
  {
    HexValChar(last);
    var d := HexVal(last);
    hide Digits, HexVal, HexChar, Lower;
    DigitsSnoc(|init|, v, d);
    LowerSnoc(init, last);
    SnocEqual(Digits(|init|, v), init, HexChar(d), last);
  }

  lemma DigitsSnoc(n: nat, v: nat, d: nat)
    requires d < 16
    ensures Digits(n + 1, v * 16 + d) == Digits(n, v) + [HexChar(d)]
  {
    assert (v * 16 + d) / 16 == v && (v * 16 + d) % 16 == d;
  }

  lemma LowerSnoc(s: string, c: char)
    ensures Lower(s + [c]) <==> Lower(s) && !('A' <= c <= 'F')
  {
    if Lower(s + [c]) {
      assert (s + [c])[|s|] == c;
      assert forall i :: 0 <= i < |s| ==> (s + [c])[i] == s[i];
    }
  }

  lemma SnocEqual(a: string, b: string, x: char, y: char)
    requires |a| == |b|
    ensures a + [x] == b + [y] <==> a == b && x == y
  {
    if a + [x] == b + [y] {
      assert (a + [x])[..|a|] == a && (b + [y])[..|b|] == b;
      assert (a + [x])[|a|] == x && (b + [y])[|b|] == y;
    }
  }

  // ------------------------------------------------------------ identities

  function IdHex(v: Id128): (s: string)
    ensures |s| == 32
  {
    Digits(16, v.hi) + Digits(16, v.lo)
  }

  function ParseId(s: string): Option<Id128> {
    if |s| != 32 || !AllHex(s) then None
    else
      Pow16Values();
      assert AllHex(s[..16]) && AllHex(s[16..]);
      FromHexBound(s[..16]); FromHexBound(s[16..]);
      Some(Id128(FromHex(s[..16]), FromHex(s[16..])))
  }

  /** Shifts each digit into the high or the low word. */
  method Parse(s: string) returns (r: Option<Id128>)
    ensures r == ParseId(s)
  {
    if |s| != 32 { return None; }
    var h: nat, l: nat := 0, 0;
    for i := 0 to 32
      invariant AllHex(s[..i])
      invariant i <= 16 ==> h == FromHex(s[..i]) && l == 0
      invariant i >= 16 ==> AllHex(s[..16]) && h == FromHex(s[..16]) && AllHex(s[16..i]) && l == FromHex(s[16..i])
    {
      var v := HexVal(s[i]);
      if v < 0 { return None; }
      assert s[..i + 1] == s[..i] + [s[i]];
      if i < 16 {
        h := h * 16 + v;
        assert s[..i + 1][..i] == s[..i];
      } else {
        assert s[16..i + 1][..i - 16] == s[16..i];
        l := l * 16 + v;
      }
    }
    assert s[..32] == s && s[16..32] == s[16..];
    Pow16Values();
    FromHexBound(s[..16]);
    FromHexBound(s[16..]);
    return Some(Id128(h, l));
  }

  /** An identity is recovered from its name ... */
  lemma ParseOfIdHex(v: Id128)
    ensures ParseId(IdHex(v)) == Some(v)
  {
    Pow16Values();
    var s := IdHex(v);
    hide Digits, FromHex, Pow16;
    FromHexOfDigits(16, v.hi);
    FromHexOfDigits(16, v.lo);
    assert s[..16] == Digits(16, v.hi) && s[16..] == Digits(16, v.lo);
  }

  /** ... and a parsed name is canonical exactly when it is lower case. */
  lemma IdHexOfParse(s: string)
    requires ParseId(s).Some?
    ensures IdHex(ParseId(s).value) == s <==> Lower(s)
  {
    hide Digits, FromHex;
    var a, b := s[..16], s[16..];
    DigitsOfFromHex(a);
    DigitsOfFromHex(b);
    assert s == a + b;
    LowerConcat(a, b);
    var v := ParseId(s).value;
    if IdHex(v) == s {
      assert IdHex(v)[..16] == Digits(16, v.hi) && IdHex(v)[16..] == Digits(16, v.lo);
    }
  }

  lemma LowerConcat(a: string, b: string)
    ensures Lower(a + b) <==> Lower(a) && Lower(b)
  {
    if Lower(a + b) {
      assert forall i :: 0 <= i < |a| ==> (a + b)[i] == a[i];
      assert forall i :: 0 <= i < |b| ==> (a + b)[|a| + i] == b[i];
    }
  }

  lemma IdHexInjective(a: Id128, b: Id128)
    ensures IdHex(a) == IdHex(b) <==> a == b
  {
    ParseOfIdHex(a);
    ParseOfIdHex(b);
  }

  // --------------------------------------------------------------- digests

  function BytesHex(d: Bytes): (s: string)
    ensures |s| == 2 * |d|
  {
    if d == [] then "" else
      var b := d[|d| - 1];
      BytesHex(d[..|d| - 1]) + [HexChar(b / 16), HexChar(b % 16)]
  }

  function UnHex(n: nat, s: string): (d: Bytes)
    requires |s| == 2 * n && AllHex(s)
    ensures |d| == n
    decreases n, s
  {
    if n == 0 then [] else
      HexValChar(s[2 * n - 2]); HexValChar(s[2 * n - 1]);
      UnHex(n - 1, s[..2 * n - 2]) + [HexVal(s[2 * n - 2]) * 16 + HexVal(s[2 * n - 1])]
  }

  lemma UnHexSnoc(n: nat, s: string, x: char, y: char)
    requires |s| == 2 * n && AllHex(s) && HexVal(x) >= 0 && HexVal(y) >= 0
    ensures AllHex(s + [x, y]) && 0 <= HexVal(x) * 16 + HexVal(y) < 256
    ensures UnHex(n + 1, s + [x, y]) == UnHex(n, s) + [HexVal(x) * 16 + HexVal(y)]
  {
    hide HexVal;
    HexValChar(x);
    HexValChar(y);
    assert (s + [x, y])[..2 * n] == s;
  }

  lemma {:induction false} UnHexOfBytesHex(n: nat, d: Bytes)
    requires n == |d|
    ensures AllHex(BytesHex(d)) && UnHex(n, BytesHex(d)) == d
  {
    if n > 0 {
      var init, b := d[..n - 1], d[n - 1];
      UnHexOfBytesHex(n - 1, init);
      hide UnHex, HexVal, HexChar;
      HexCharVal(b / 16);
      HexCharVal(b % 16);
      UnHexSnoc(n - 1, BytesHex(init), HexChar(b / 16), HexChar(b % 16));
      assert d == init + [b];
    }
  }

  lemma BytesHexInjective(a: Bytes, b: Bytes)
    ensures BytesHex(a) == BytesHex(b) <==> a == b
  {
    UnHexOfBytesHex(|a|, a);
    UnHexOfBytesHex(|b|, b);
  }

  function DigestFromHex(s: string): Option<Digest> {
    if |s| != 64 || !AllHex(s) then None else Some(UnHex(32, s))
  }

  method ParseDigest(s: string) returns (r: Option<Digest>)
    ensures r == DigestFromHex(s)
  {
    if |s| != 64 { return None; }
    var d: Bytes := [];
    for i := 0 to 32
      invariant AllHex(s[..2 * i]) && d == UnHex(i, s[..2 * i])
    {
      var h := HexVal(s[2 * i]);
      var l := HexVal(s[2 * i + 1]);
      if h < 0 || l < 0 { return None; }
      hide HexVal, UnHex;
      assert s[..2 * (i + 1)] == s[..2 * i] + [s[2 * i], s[2 * i + 1]];
      UnHexSnoc(i, s[..2 * i], s[2 * i], s[2 * i + 1]);
      d := d + [h * 16 + l];
    }
    assert s[..64] == s;
    return Some(d);
  }

  lemma DigestRoundTrip(d: Digest)
    ensures DigestFromHex(BytesHex(d)) == Some(d)
  {
    UnHexOfBytesHex(32, d);
  }
}
