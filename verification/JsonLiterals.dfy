/** What the literals of a text denote (decimals with a fraction and an exponent,
    escapes), and the characters in which every value is printed. */
module JsonLiterals {
  import opened Wire
  import opened Json
  import opened JsonTheorems

  // ------------------------------------------------------- decimal values

  lemma DivideTimes(m: real, a: real, b: real)
    requires a > 0.0 && b > 0.0
    ensures m / a / b == m / (b * a) && m / a == b * (m / (b * a))
  {
    var r := m / (b * a);
    assert b * a > 0.0;
    assert r * (b * a) == m;
    assert r * b * a == m;
    assert m / a == r * b;
  }

  /** Scaling by a power of ten, one step at a time in either direction. */
  lemma ScaleStep(m: real, e: int)
    ensures Scale10(m, 0) == m && Scale10(m, e + 1) == 10.0 * Scale10(m, e)
  {
    if e >= 0 {
      assert Pow10(e + 1) == 10.0 * Pow10(e);
      hide Pow10;
    } else {
      var p := Pow10(-e - 1);
      assert Pow10(-e) == 10.0 * p;
      hide Pow10;
      DivideTimes(m, p, 10.0);
    }
    ScaleZero(m);
  }

  /** Moving the point by `k` places and the exponent by `k` cancel. */
  lemma {:induction false} ScaleShift(m: real, e: int, k: nat)
    ensures Scale10(m, e - k) == Scale10(m / Pow10(k), e)
    decreases k
  {
    if k > 0 {
      ScaleShift(m, e - 1, k - 1);
      var x, p := m / Pow10(k), Pow10(k - 1);
      assert Pow10(k) == 10.0 * p;
      hide Pow10, Scale10;
      assert x == m / p / 10.0 by {
        DivideTimes(m, p, 10.0);
      }
      ScaleTens(m / p, e - 1);
    }
  }

  lemma ScaleTens(y: real, e: int)
    ensures Scale10(y, e) == Scale10(y / 10.0, e + 1)
  {
    ScaleStep(y / 10.0, e);
    var x := y / 10.0;
    ScaledLinear(x, e);
    hide Scale10;
    assert 10.0 * x == y;
  }

  lemma ScaledLinear(x: real, e: int)
    ensures Scale10(10.0 * x, e) == 10.0 * Scale10(x, e)
  {
    if e >= 0 {
      Associate(x, Pow10(e));
    } else {
      var p := Pow10(-e);
      hide Pow10;
      Associate(x / p, p);
      DivideScaled(x, p);
    }
  }

  lemma Associate(x: real, p: real)
    ensures 10.0 * x * p == 10.0 * (x * p)
  {
  }

  lemma DivideScaled(x: real, p: real)
    requires p > 0.0
    ensures 10.0 * x / p == 10.0 * (x / p)
  {
    var q := x / p;
    assert q * p == x;
    Associate(q, p);
  }

  predicate Placed(v: int, w: int, p: real, f: int) { v as real == w as real * p + f as real }

  /** Place value: digits further left weigh more. */
  lemma {:induction false} PlaceValue(w: Bytes, f: Bytes)
    ensures Placed(DecimalValue(w + f), DecimalValue(w), Pow10(|f|), DecimalValue(f))
  {
    if f == [] {
      assert w + f == w;
      assert Pow10(0) == 1.0 && DecimalValue([]) == 0;
    } else {
      hide DecimalValue, Pow10, Placed;
      var g, x := f[..|f| - 1], f[|f| - 1] as int - 48;
      PlaceValue(w, g);
      assert (w + f)[..|w + f| - 1] == w + g;
      LastDigit(w + f);
      LastDigit(f);
      PowerStep(|g|);
      Carried(DecimalValue(w), Pow10(|g|), DecimalValue(g), DecimalValue(w + g), x);
    }
  }

  lemma Carried(w: int, p: real, g: int, v: int, x: int)
    requires Placed(v, w, p, g)
    ensures Placed(v * 10 + x, w, 10.0 * p, g * 10 + x)
  {
    assert (v * 10 + x) as real == v as real * 10.0 + x as real;
    assert (g * 10 + x) as real == g as real * 10.0 + x as real;
  }

  lemma PowerStep(n: nat)
    ensures Pow10(n + 1) == 10.0 * Pow10(n)
  {
  }

  lemma LastDigit(s: Bytes)
    requires s != []
    ensures DecimalValue(s) == DecimalValue(s[..|s| - 1]) * 10 + (s[|s| - 1] as int - 48)
  {
  }

  lemma DigitValue(k: nat)
    requires k < 10
    ensures DecimalValue([48 + k]) == k && DecimalValue([]) == 0
  {
    assert [48 + k][..0] == [];
  }

  /** What stands after the point counts as a fraction of its own length. */
  function PointValue(w: Bytes, f: Bytes): real {
    DecimalValue(w) as real + DecimalValue(f) as real / Pow10(|f|)
  }

  /** A decimal `w.f` with what follows its digits: the value of its digits, scaled
      by the exponent, and the sign in front. */
  lemma DecimalOfPoint(w: Bytes, f: Bytes, tail: Bytes)
    requires AllDigits(w) && AllDigits(f) && w + f != []
    requires tail == [] || !IsDigit(tail[0])
    ensures var t := w + ([DOT] + (f + tail));
            var v := Scale10(PointValue(w, f), ExponentOf(tail));
            DecimalOf(t) == Some(v) && DecimalOf([MINUS] + t) == Some(-v) && DecimalOf([PLUS] + t) == Some(v)
  {
    hide DecimalOf, Scale10, ExponentOf, PointValue, DecimalValue;
    var t := w + ([DOT] + (f + tail));
    UnsignedPoint(w, f, tail);
    PointScaled(w, f, ExponentOf(tail));
    assert !Starts(t, MINUS) && !Starts(t, PLUS);
    SignedDecimal(t);
  }

  lemma UnsignedPoint(w: Bytes, f: Bytes, tail: Bytes)
    requires AllDigits(w) && AllDigits(f) && w + f != []
    requires tail == [] || !IsDigit(tail[0])
    ensures DecimalOf(w + ([DOT] + (f + tail)))
         == Some(Scale10(DecimalValue(w + f) as real, ExponentOf(tail) - |f|))
  {
    hide DecimalValue, Scale10, Run, ExponentOf, DecimalOf;
    var after := [DOT] + (f + tail);
    Parts(w, f, tail);
    DecimalOfParts(w + after, w, after, f, tail);
  }

  lemma DecimalOfParts(t: Bytes, w: Bytes, after: Bytes, f: Bytes, tail: Bytes)
    requires !Starts(t, MINUS) && !Starts(t, PLUS) && Starts(after, DOT) && w + f != []
    requires Run(t, IsDigit) == |w| && t[..|w|] == w && t[|w|..] == after
    requires Run(after[1..], IsDigit) == |f| && after[1..][..|f|] == f && after[1 + |f|..] == tail
    ensures DecimalOf(t) == Some(Scale10(DecimalValue(w + f) as real, ExponentOf(tail) - |f|))
  {
    hide DecimalValue, Scale10, Run, ExponentOf;
  }

  lemma SignedDecimal(t: Bytes)
    requires !Starts(t, MINUS) && !Starts(t, PLUS)
    ensures DecimalOf([PLUS] + t) == DecimalOf(t)
    ensures DecimalOf(t).Some? ==> DecimalOf([MINUS] + t) == Some(-DecimalOf(t).value)
  {
    hide DecimalValue, Scale10, Run, ExponentOf;
    assert ([MINUS] + t)[1..] == t && ([PLUS] + t)[1..] == t;
  }

  lemma Parts(w: Bytes, f: Bytes, tail: Bytes)
    requires AllDigits(w) && AllDigits(f)
    requires tail == [] || !IsDigit(tail[0])
    ensures var t := w + ([DOT] + (f + tail));
            && Run(t, IsDigit) == |w| && t[..|w|] == w && t[|w|..] == [DOT] + (f + tail)
            && t[|w|..][1..] == f + tail && Run(f + tail, IsDigit) == |f| && (f + tail)[..|f|] == f
            && t[|w|..][1 + |f|..] == tail
  {
    RunOver(w, [DOT] + (f + tail), IsDigit);
    RunOver(f, tail, IsDigit);
  }

  lemma PointScaled(w: Bytes, f: Bytes, e: int)
    ensures Scale10(DecimalValue(w + f) as real, e - |f|) == Scale10(PointValue(w, f), e)
  {
    hide DecimalValue, Scale10, Pow10;
    PlaceValue(w, f);
    ScaleShift(DecimalValue(w + f) as real, e, |f|);
    Divided(DecimalValue(w + f) as real, DecimalValue(w) as real, Pow10(|f|), DecimalValue(f) as real);
  }

  lemma Divided(m: real, w: real, p: real, f: real)
    requires p > 0.0 && m == w * p + f
    ensures m / p == w + f / p
  {
    var q := f / p;
    assert q * p == f;
    assert (w + q) * p == m;
  }

  /** The same without a point. */
  lemma DecimalOfWhole(w: Bytes, tail: Bytes)
    requires AllDigits(w) && w != []
    requires tail == [] || (!IsDigit(tail[0]) && tail[0] != DOT)
    ensures DecimalOf(w + tail) == Some(Scale10(DecimalValue(w) as real, ExponentOf(tail)))
  {
    RunOver(w, tail, IsDigit);
    var t := w + tail;
    assert t[..|w|] == w && t[|w|..] == tail && w + [] == w;
    hide DecimalValue, Scale10, Run, ExponentOf;
  }

  /** An exponent is an e of either case, a sign that may be missing, and digits. */
  lemma ExponentValue(e: Byte, d: Bytes)
    requires e == 'e' as int || e == 'E' as int
    requires AllDigits(d)
    ensures ExponentOf([e] + d) == DecimalValue(d)
    ensures ExponentOf([e] + ([PLUS] + d)) == DecimalValue(d)
    ensures ExponentOf([e] + ([MINUS] + d)) == -DecimalValue(d)
    ensures ExponentOf([]) == 0
  {
    hide DecimalValue;
    RunOver(d, [], IsDigit);
    assert d + [] == d && d[..|d|] == d;
    assert ([e] + d)[1..] == d;
    assert ([e] + ([PLUS] + d))[1..] == [PLUS] + d && ([PLUS] + d)[1..] == d;
    assert ([e] + ([MINUS] + d))[1..] == [MINUS] + d && ([MINUS] + d)[1..] == d;
    hide Run;
  }

  /** `w.f` and `w.fEk`, and the sign of the exponent. */
  lemma DecimalsDenote(w: Bytes, f: Bytes, e: Byte, d: Bytes)
    requires AllDigits(w) && AllDigits(f) && w + f != [] && AllDigits(d)
    requires e == 'e' as int || e == 'E' as int
    ensures DecimalOf(w + ([DOT] + (f + []))) == Some(PointValue(w, f))
    ensures DecimalOf(w + ([DOT] + (f + ([e] + d)))) == Some(Scale10(PointValue(w, f), DecimalValue(d)))
    ensures DecimalOf(w + ([DOT] + (f + ([e] + ([PLUS] + d))))) == Some(Scale10(PointValue(w, f), DecimalValue(d)))
    ensures DecimalOf(w + ([DOT] + (f + ([e] + ([MINUS] + d))))) == Some(Scale10(PointValue(w, f), -DecimalValue(d)))
  {
    hide DecimalValue, DecimalOf, ExponentOf, PointValue, Scale10;
    ExponentValue(e, d);
    DecimalOfPoint(w, f, []);
    DecimalOfPoint(w, f, [e] + d);
    DecimalOfPoint(w, f, [e] + ([PLUS] + d));
    DecimalOfPoint(w, f, [e] + ([MINUS] + d));
    ScaleZero(PointValue(w, f));
  }

  /** Every integer of 64 bits is printed with all its digits. */
  lemma PrintedInteger(fl: Floats, n: int)
    requires -0x8000_0000_0000_0000 <= n < 0x8000_0000_0000_0000
    ensures Printed(fl, n as real) == n as real
  {
    hide IntText, DecimalOf;
    assert (n as real).Floor == n;
    DecimalOfInt(n);
  }

  // -------------------------------------------------------------- escapes

  /** The escapes of one letter, and that there are no others. */
  lemma ShortEscapes(c: Byte)
    ensures Unescape('n' as int) == Some(10) && Unescape('t' as int) == Some(9) && Unescape('r' as int) == Some(13)
    ensures Unescape('b' as int) == Some(8) && Unescape('f' as int) == Some(12)
    ensures Unescape('"' as int) == Some('"' as int) && Unescape('\\' as int) == Some('\\' as int)
    ensures Unescape('/' as int) == Some('/' as int)
    ensures Unescape(c).Some? <==> c in Ascii("\"\\/bfnrt")
  {
    var s := "\"\\/bfnrt";
    assert Ascii(s) == [34, 92, 47, 98, 102, 110, 114, 116];
  }

  lemma HexLetters(k: nat)
    requires k < 16
    ensures HexOf("0123456789abcdef"[k] as int) == k && HexOf("0123456789ABCDEF"[k] as int) == k
    ensures HexDigit(k) == "0123456789abcdef"[k] as int
  {
  }

  /** Four hexadecimal digits stand for their low byte. */
  lemma EscapeOfHex(h: Bytes)
    requires |h| == 4 && forall i :: 0 <= i < 4 ==> HexOf(h[i]) >= 0
    ensures EscapeValue(h) == 16 * HexOf(h[2]) + HexOf(h[3])
  {
    var a, b, c, d := HexOf(h[0]), HexOf(h[1]), HexOf(h[2]), HexOf(h[3]);
    assert SkipSpace(h) == h && !Starts(h, MINUS) && !Starts(h, PLUS) && h[1] != 120 && h[1] != 88;
    assert h[1..][1..] == h[2..] && h[2..][1..] == h[3..] && h[3..][1..] == [];
    hide HexOf;
    assert HexRun(h[3..], (a * 16 + b) * 16 + c) == HexRun([], ((a * 16 + b) * 16 + c) * 16 + d);
    assert HexRun(h[2..], a * 16 + b) == HexRun(h[3..], (a * 16 + b) * 16 + c);
    assert HexRun(h[1..], a) == HexRun(h[2..], a * 16 + b);
    assert HexRun(h, 0) == ((a * 16 + b) * 16 + c) * 16 + d;
    LowByte(a, b, c, d);
  }

  /** What `strtoul` also accepts in the four places: a sign, and a 0x prefix. */
  lemma EscapeOddities(a: Byte, b: Byte, c: Byte)
    requires HexOf(a) >= 0 && HexOf(b) >= 0 && HexOf(c) >= 0
    ensures EscapeValue([PLUS, a, b, c]) == 16 * HexOf(b) + HexOf(c)
    ensures (EscapeValue([MINUS, a, b, c]) + 16 * HexOf(b) + HexOf(c)) % 256 == 0
    ensures EscapeValue([48, 'x' as int, b, c]) == 16 * HexOf(b) + HexOf(c)
  {
    HexBelow(b);
    HexBelow(c);
    hide EscapeValue, HexRun, HexOf;
    HexRuns(a, b, c);
    var v: int := HexRun([a, b, c], 0);
    LowByte(0, HexOf(a), HexOf(b), HexOf(c));
    Negated(v);
    SignedEscape(PLUS, [a, b, c]);
    SignedEscape(MINUS, [a, b, c]);
    PrefixedEscape(b, c);
  }

  lemma HexBelow(c: Byte)
    ensures HexOf(c) < 16
  {
  }

  lemma Negated(v: int)
    ensures ((-v) % 256 + v % 256) % 256 == 0
  {
  }

  lemma HexRuns(a: Byte, b: Byte, c: Byte)
    requires HexOf(a) >= 0 && HexOf(b) >= 0 && HexOf(c) >= 0
    ensures HexRun([a, b, c], 0) == (HexOf(a) * 16 + HexOf(b)) * 16 + HexOf(c)
    ensures HexRun([b, c], 0) == HexOf(b) * 16 + HexOf(c)
  {
    hide HexOf;
    var s, u: Bytes := [a, b, c], [b, c];
    assert s[1..] == u && u[1..] == [c] && [c][1..] == [];
    var x, y, z := HexOf(a), HexOf(b), HexOf(c);
    assert HexRun([c], x * 16 + y) == HexRun([], (x * 16 + y) * 16 + z);
    assert HexRun(u, x) == HexRun([c], x * 16 + y);
    assert HexRun([c], y) == HexRun([], y * 16 + z);
  }

  lemma SignedEscape(sign: Byte, s: Bytes)
    requires (sign == PLUS || sign == MINUS) && |s| == 3 && HexOf(s[1]) >= 0
    ensures EscapeValue([sign] + s) == (if sign == MINUS then 0 - HexRun(s, 0) else HexRun(s, 0)) % 256
    ensures [sign] + s == [sign, s[0], s[1], s[2]]
  {
    hide HexRun;
    var h := [sign] + s;
    assert h[1..] == s && SkipSpace(h) == h;
  }

  lemma PrefixedEscape(b: Byte, c: Byte)
    requires HexOf(b) >= 0
    ensures EscapeValue([48, 'x' as int, b, c]) == HexRun([b, c], 0) % 256
  {
    hide HexRun, HexOf;
    var h: Bytes := [48, 'x' as int, b, c];
    assert h[2..] == [b, c] && SkipSpace(h) == h;
  }

  lemma LowByte(a: int, b: int, c: int, d: int)
    requires 0 <= c < 16 && 0 <= d < 16
    ensures (((a * 16 + b) * 16 + c) * 16 + d) % 256 == 16 * c + d
  {
    assert ((a * 16 + b) * 16 + c) * 16 + d == 256 * (a * 16 + b) + (16 * c + d);
  }

  // ----------------------------------------------------- character classes

  lemma Classes(c: Byte)
    ensures IsBlank(c) <==> c in Ascii(" \t\r\n")
    ensures IsDigit(c) <==> c in Ascii("0123456789")
    ensures IsNumeric(c) <==> c in Ascii("0123456789.eE+-")
  {
    assert Ascii(" \t\r\n") == [32, 9, 13, 10];
    assert Ascii("0123456789") == [48, 49, 50, 51, 52, 53, 54, 55, 56, 57];
    assert Ascii("0123456789.eE+-") == Ascii("0123456789") + [46, 101, 69, 43, 45];
  }

  /** Blanks in front of a value are skipped. */
  lemma BlanksAreSkipped(fl: Floats, s: Bytes, t: Bytes)
    requires forall i :: 0 <= i < |s| ==> IsBlank(s[i])
    ensures ParseValue(fl, s + t) == ParseValue(fl, t)
  {
    hide ParseObject, ParseArray, ParseString, ParseWord, ParseNumber;
    SkipOver(s, t);
  }

  lemma {:induction false} SkipOver(s: Bytes, t: Bytes)
    requires forall i :: 0 <= i < |s| ==> IsBlank(s[i])
    ensures SkipBlanks(s + t) == SkipBlanks(t)
  {
    if s == [] {
      assert s + t == t;
    } else {
      assert (s + t)[1..] == s[1..] + t;
      SkipOver(s[1..], t);
    }
  }

  // ------------------------------------------------------------- printing

  /** The text of every kind of value, in its own characters. */
  lemma PrintedShape(fl: Floats, s: Bytes, items: seq<Json>, ms: seq<Member>)
    ensures Dump(fl, Null) == Ascii("null") && Dump(fl, Bool(true)) == Ascii("true") && Dump(fl, Bool(false)) == Ascii("false")
    ensures Dump(fl, Str(s)) == Ascii("\"") + (EscapeAll(s) + Ascii("\""))
    ensures Dump(fl, Arr(items)) == Ascii("[") + (DumpItems(fl, items) + Ascii("]"))
    ensures Dump(fl, Obj(ms)) == Ascii("{") + (DumpMembers(fl, ms) + Ascii("}"))
  {
    Punctuation();
    hide Ascii, EscapeAll, DumpItems, DumpMembers;
  }

  lemma Punctuation()
    ensures NULL == Ascii("null") && TRUE == Ascii("true") && FALSE == Ascii("false")
    ensures [QUOTE] == Ascii("\"") && [OPEN_ARRAY] == Ascii("[") && [CLOSE_ARRAY] == Ascii("]")
    ensures [OPEN_OBJECT] == Ascii("{") && [CLOSE_OBJECT] == Ascii("}") && [COMMA] == Ascii(",") && [COLON] == Ascii(":")
    ensures [MINUS] == Ascii("-") && [BACKSLASH, QUOTE] == Ascii("\\\"") && [BACKSLASH, BACKSLASH] == Ascii("\\\\")
    ensures [BACKSLASH, LOWER_U, 48, 48] == Ascii("\\u00")
  {
  }

  /** Items and members are separated by commas, a key from its value by a colon. */
  lemma PrintedList(fl: Floats, x: Json, items: seq<Json>, m: Member, ms: seq<Member>)
    ensures DumpItems(fl, []) == [] && DumpMembers(fl, []) == []
    ensures DumpItems(fl, [x] + items) == Dump(fl, x) + if items == [] then [] else Ascii(",") + DumpItems(fl, items)
    ensures DumpMembers(fl, [m] + ms)
         == Dump(fl, Str(m.key)) + (Ascii(":") + Dump(fl, m.value)) + if ms == [] then [] else Ascii(",") + DumpMembers(fl, ms)
  {
    Punctuation();
    hide Ascii, Dump;
    assert ([x] + items)[1..] == items && ([m] + ms)[1..] == ms;
    KeyIsString(fl, m.key);
  }

  lemma KeyIsString(fl: Floats, s: Bytes)
    ensures Dump(fl, Str(s)) == Quoted(s)
  {
  }

  /** Quotes, backslashes and control characters are escaped, all else stands for itself. */
  lemma PrintedByte(c: Byte)
    ensures c == '"' as int ==> EscapeByte(c) == Ascii("\\\"")
    ensures c == '\\' as int ==> EscapeByte(c) == Ascii("\\\\")
    ensures c < 32 ==>
      EscapeByte(c) == Ascii("\\u00") + ["0123456789abcdef"[c / 16] as int, "0123456789abcdef"[c % 16] as int]
    ensures c >= 32 && c != '"' as int && c != '\\' as int ==> EscapeByte(c) == [c]
  {
    Punctuation();
    hide Ascii, HexDigit;
    if c < 32 {
      HexLetters(c / 16);
      HexLetters(c % 16);
    }
  }
}
