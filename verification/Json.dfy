/** JSON values, the printer and the grammar of the parser of src/Json.cpp.
    Text is a byte string; an object is a list of members sorted by key, as in
    the `std::map` that holds it. */
module Json {
  import opened Wire
  import Order
  import Key

  datatype Json =
    | Null
    | Bool(b: bool)
    | Num(n: real)
    | Str(s: Bytes)
    | Arr(items: seq<Json>)
    | Obj(members: seq<Member>)

  datatype Member = Member(key: Bytes, value: Json)

  /** The printer of non-integers and the rounding of a decimal to a double. */
  datatype Floats = Floats(show: real -> Bytes, round: real -> real)

  const EXACT := 0x20_0000_0000_0000

  /** Integers up to 2^53 are doubles. */
  ghost predicate FloatsOk(fl: Floats) {
    forall x: real :: IsInt(x) && -EXACT <= x.Floor <= EXACT ==> fl.round(x) == x
  }

  predicate KeyLess(a: Bytes, b: Bytes) { Order.Lex(Key.ByteLt, a, b) }

  predicate SortedMembers(ms: seq<Member>) {
    forall i, j :: 0 <= i < j < |ms| ==> KeyLess(ms[i].key, ms[j].key)
  }

  /** Objects are maps, at every depth. */
  ghost predicate WellFormed(j: Json)
    decreases j
  {
    match j
    case Arr(items) => forall i :: 0 <= i < |items| ==> WellFormed(items[i])
    case Obj(ms) => SortedMembers(ms) && forall i :: 0 <= i < |ms| ==> WellFormed(ms[i].value)
    case _ => true
  }

  /** Every number is an integer in the exact range of a double. */
  ghost predicate Integral(j: Json)
    decreases j
  {
    match j
    case Num(n) => IsInt(n) && -EXACT <= n.Floor <= EXACT
    case Arr(items) => forall i :: 0 <= i < |items| ==> Integral(items[i])
    case Obj(ms) => forall i :: 0 <= i < |ms| ==> Integral(ms[i].value)
    case _ => true
  }

  predicate IsInt(n: real) { n.Floor as real == n }

  // --------------------------------------------------------------- bytes

  const QUOTE: Byte := 34
  const PLUS: Byte := 43
  const COMMA: Byte := 44
  const MINUS: Byte := 45
  const DOT: Byte := 46
  const SLASH: Byte := 47
  const COLON: Byte := 58
  const UPPER_E: Byte := 69
  const OPEN_ARRAY: Byte := 91
  const BACKSLASH: Byte := 92
  const CLOSE_ARRAY: Byte := 93
  const LOWER_E: Byte := 101
  const LOWER_F: Byte := 102
  const LOWER_N: Byte := 110
  const LOWER_T: Byte := 116
  const LOWER_U: Byte := 117
  const OPEN_OBJECT: Byte := 123
  const CLOSE_OBJECT: Byte := 125

  const TRUE: Bytes := [116, 114, 117, 101]
  const FALSE: Bytes := [102, 97, 108, 115, 101]
  const NULL: Bytes := [110, 117, 108, 108]

  predicate IsDigit(c: Byte) { 48 <= c <= 57 }
  predicate IsBlank(c: Byte) { c == 32 || c == 9 || c == 13 || c == 10 }

  /** The characters a number token may hold. */
  predicate IsNumeric(c: Byte) {
    IsDigit(c) || c == DOT || c == LOWER_E || c == UPPER_E || c == PLUS || c == MINUS
  }

  // ------------------------------------------------------------- printing

  function HexDigit(n: nat): Byte
    requires n < 16
  {
    if n < 10 then 48 + n else 87 + n
  }

  function EscapeByte(c: Byte): Bytes {
    if c == QUOTE then [BACKSLASH, QUOTE]
    else if c == BACKSLASH then [BACKSLASH, BACKSLASH]
    else if c < 0x20 then [BACKSLASH, LOWER_U, 48, 48, HexDigit(c / 16), HexDigit(c % 16)]
    else [c]
  }

  function EscapeAll(s: Bytes): Bytes {
    if s == [] then [] else EscapeByte(s[0]) + EscapeAll(s[1..])
  }

  function Quoted(s: Bytes): Bytes { [QUOTE] + (EscapeAll(s) + [QUOTE]) }

  function Decimal(n: nat): Bytes {
    if n < 10 then [48 + n] else Decimal(n / 10) + [48 + n % 10]
  }

  function IntText(n: int): Bytes { if n < 0 then [MINUS] + Decimal(-n) else Decimal(n) }

  /** An integer that fits 64 bits prints as one; the rest is left to the stream. */
  function NumText(fl: Floats, n: real): Bytes {
    if IsInt(n) && -0x8000_0000_0000_0000 <= n.Floor < 0x8000_0000_0000_0000 then IntText(n.Floor) else fl.show(n)
  }

  function Dump(fl: Floats, j: Json): Bytes
    decreases j, 1
  {
    match j
    case Null => NULL
    case Bool(b) => if b then TRUE else FALSE
    case Num(n) => NumText(fl, n)
    case Str(s) => Quoted(s)
    case Arr(items) => [OPEN_ARRAY] + (DumpItems(fl, items) + [CLOSE_ARRAY])
    case Obj(ms) => [OPEN_OBJECT] + (DumpMembers(fl, ms) + [CLOSE_OBJECT])
  }

  function DumpItems(fl: Floats, items: seq<Json>): Bytes
    decreases items, 0
  {
    if items == [] then [] else
      Dump(fl, items[0]) + (if |items| == 1 then [] else [COMMA] + DumpItems(fl, items[1..]))
  }

  function DumpMember(fl: Floats, m: Member): Bytes
    decreases m, 0
  {
    Quoted(m.key) + ([COLON] + Dump(fl, m.value))
  }

  function DumpMembers(fl: Floats, ms: seq<Member>): Bytes
    decreases ms, 0
  {
    if ms == [] then [] else
      DumpMember(fl, ms[0]) + (if |ms| == 1 then [] else [COMMA] + DumpMembers(fl, ms[1..]))
  }

  // -------------------------------------------------------------- parsing

  datatype Parse<+T> = Fail | Ok(value: T, rest: Bytes)

  function SkipBlanks(s: Bytes): (r: Bytes)
    ensures |r| <= |s|
  {
    if s != [] && IsBlank(s[0]) then SkipBlanks(s[1..]) else s
  }

  predicate Starts(s: Bytes, c: Byte) { s != [] && s[0] == c }

  function HexOf(c: Byte): int {
    if 48 <= c <= 57 then c - 48 else if 97 <= c <= 102 then c - 87 else if 65 <= c <= 70 then c - 55 else -1
  }

  function HexRun(s: Bytes, v: nat): nat
    decreases s
  {
    if s == [] || HexOf(s[0]) < 0 then v else HexRun(s[1..], v * 16 + HexOf(s[0]))
  }

  function SkipSpace(s: Bytes): Bytes {
    if s != [] && (s[0] == 32 || 9 <= s[0] <= 13) then SkipSpace(s[1..]) else s
  }

  /** `strtoul` in base 16 on the four characters of a \u escape, as the low
      byte that is kept: leading space, a sign and a 0x prefix are accepted. */
  function EscapeValue(h: Bytes): Byte {
    var t := SkipSpace(h);
    var neg := Starts(t, MINUS);
    var u := if neg || Starts(t, PLUS) then t[1..] else t;
    var w := if |u| >= 3 && u[0] == 48 && (u[1] == 120 || u[1] == 88) && HexOf(u[2]) >= 0 then u[2..] else u;
    var v: int := HexRun(w, 0);
    (if neg then -v else v) % 256
  }

  /** The byte a one-letter escape stands for. */
  function Unescape(e: Byte): Option<Byte> {
    if e == QUOTE || e == BACKSLASH || e == SLASH then Some(e)
    else if e == 98 then Some(8)
    else if e == 102 then Some(12)
    else if e == 110 then Some(10)
    else if e == 114 then Some(13)
    else if e == 116 then Some(9)
    else None
  }

  /** The rest of a string after its opening quote. */
  function ParseChars(s: Bytes, acc: Bytes): (r: Parse<Bytes>)
    ensures r.Ok? ==> |r.rest| < |s|
    decreases |s|
  {
    if s == [] then Fail
    else if s[0] == QUOTE then Ok(acc, s[1..])
    else if s[0] != BACKSLASH then ParseChars(s[1..], acc + [s[0]])
    else if |s| < 2 then Fail
    else if s[1] == LOWER_U then
      if |s| < 6 then Fail else ParseChars(s[6..], acc + [EscapeValue(s[2..6])])
    else
      match Unescape(s[1])
      case None => Fail
      case Some(c) => ParseChars(s[2..], acc + [c])
  }

  function ParseString(s: Bytes): (r: Parse<Bytes>)
    requires s != []
    ensures r.Ok? ==> |r.rest| < |s|
  {
    ParseChars(s[1..], [])
  }

  function Run(s: Bytes, p: Byte -> bool): (n: nat)
    ensures n <= |s|
    ensures s != [] && p(s[0]) ==> n > 0
  {
    if s == [] || !p(s[0]) then 0 else 1 + Run(s[1..], p)
  }

  function DecimalValue(s: Bytes): int {
    if s == [] then 0 else DecimalValue(s[..|s| - 1]) * 10 + (s[|s| - 1] as int - 48)
  }

  function Pow10(n: nat): (r: real)
    ensures r > 0.0
  {
    if n == 0 then 1.0 else 10.0 * Pow10(n - 1)
  }

  function Scale10(m: real, e: int): real { if e >= 0 then m * Pow10(e) else m / Pow10(-e) }

  /** The exponent part of a decimal: 0 unless an e is followed by digits. */
  function ExponentOf(s: Bytes): int {
    if s == [] || (s[0] != LOWER_E && s[0] != UPPER_E) then 0 else
      var t := s[1..];
      var u := if Starts(t, MINUS) || Starts(t, PLUS) then t[1..] else t;
      var v := DecimalValue(u[..Run(u, IsDigit)]);
      if Starts(t, MINUS) then -v else v
  }

  /** `strtod` on a token of numeric characters: the value of the longest
      decimal at its start, if there is one. */
  function DecimalOf(t: Bytes): Option<real> {
    var neg := Starts(t, MINUS);
    var u := if neg || Starts(t, PLUS) then t[1..] else t;
    var n := Run(u, IsDigit);
    var whole := u[..n];
    var after := u[n..];
    var frac := if Starts(after, DOT) then after[1..][..Run(after[1..], IsDigit)] else [];
    if whole + frac == [] then None else
      var tail := if Starts(after, DOT) then after[1 + |frac|..] else after;
      var v := Scale10(DecimalValue(whole + frac) as real, ExponentOf(tail) - |frac|);
      Some(if neg then -v else v)
  }

  function ParseNumber(fl: Floats, s: Bytes): (r: Parse<Json>)
    requires s != [] && (s[0] == MINUS || IsDigit(s[0]))
    ensures r.Ok? ==> |r.rest| < |s|
  {
    var n := Run(s, IsNumeric);
    match DecimalOf(s[..n])
    case None => Fail
    case Some(v) => Ok(Num(fl.round(v)), s[n..])
  }

  /** A decimal that the number parser takes as a whole. */
  predicate IsToken(t: Bytes) {
    && t != [] && (t[0] == MINUS || IsDigit(t[0])) && (forall i :: 0 <= i < |t| ==> IsNumeric(t[i]))
    && DecimalOf(t).Some?
  }

  /** A stream prints a finite double as a decimal, with whatever precision. */
  ghost predicate ShowOk(fl: Floats) {
    forall x: real :: IsToken(fl.show(x))
  }

  /** The value of the decimal that is printed for a number. */
  function Printed(fl: Floats, n: real): real {
    match DecimalOf(NumText(fl, n))
    case Some(v) => v
    case None => 0.0
  }

  /** A value as it is read back: numbers may have lost digits, nothing else changes. */
  function Reread(fl: Floats, j: Json): Json
    decreases j, 1
  {
    match j
    case Num(n) => Num(fl.round(Printed(fl, n)))
    case Arr(items) => Arr(RereadItems(fl, items))
    case Obj(ms) => Obj(RereadMembers(fl, ms))
    case _ => j
  }

  function RereadItems(fl: Floats, items: seq<Json>): (r: seq<Json>)
    ensures |r| == |items|
    decreases items, 0
  {
    if items == [] then [] else [Reread(fl, items[0])] + RereadItems(fl, items[1..])
  }

  function RereadMembers(fl: Floats, ms: seq<Member>): (r: seq<Member>)
    ensures |r| == |ms|
    decreases ms, 0
  {
    if ms == [] then [] else [Member(ms[0].key, Reread(fl, ms[0].value))] + RereadMembers(fl, ms[1..])
  }

  /** Every number is printed with enough digits to come back. */
  ghost predicate Exact(fl: Floats, j: Json)
    decreases j
  {
    match j
    case Num(n) => fl.round(Printed(fl, n)) == n
    case Arr(items) => forall i :: 0 <= i < |items| ==> Exact(fl, items[i])
    case Obj(ms) => forall i :: 0 <= i < |ms| ==> Exact(fl, ms[i].value)
    case _ => true
  }

  predicate HasPrefix(s: Bytes, p: Bytes) { |p| <= |s| && s[..|p|] == p }

  function ParseWord(s: Bytes): (r: Parse<Json>)
    ensures r.Ok? ==> |r.rest| < |s|
  {
    if HasPrefix(s, TRUE) then Ok(Bool(true), s[4..])
    else if HasPrefix(s, FALSE) then Ok(Bool(false), s[5..])
    else if HasPrefix(s, NULL) then Ok(Null, s[4..])
    else Fail
  }

  /** `insert_or_assign`. */
  function Assign(ms: seq<Member>, m: Member): seq<Member> {
    if ms == [] || KeyLess(m.key, ms[0].key) then [m] + ms
    else if ms[0].key == m.key then [m] + ms[1..]
    else [ms[0]] + Assign(ms[1..], m)
  }

  function ParseValue(fl: Floats, text: Bytes): (r: Parse<Json>)
    ensures r.Ok? ==> |r.rest| < |text|
    decreases |text|, 2
  {
    var s := SkipBlanks(text);
    if s == [] then Fail
    else if s[0] == OPEN_OBJECT then ParseObject(fl, s)
    else if s[0] == OPEN_ARRAY then ParseArray(fl, s)
    else if s[0] == QUOTE then
      match ParseString(s)
      case Fail => Fail
      case Ok(v, rest) => Ok(Str(v), rest)
    else if s[0] == LOWER_T || s[0] == LOWER_F || s[0] == LOWER_N then ParseWord(s)
    else if s[0] == MINUS || IsDigit(s[0]) then ParseNumber(fl, s)
    else Fail
  }

  function ParseArray(fl: Floats, s: Bytes): (r: Parse<Json>)
    requires s != []
    ensures r.Ok? ==> |r.rest| < |s|
    decreases |s|, 1
  {
    var t := SkipBlanks(s[1..]);
    if Starts(t, CLOSE_ARRAY) then Ok(Arr([]), t[1..]) else ParseItems(fl, t, [])
  }

  function ParseItems(fl: Floats, s: Bytes, acc: seq<Json>): (r: Parse<Json>)
    ensures r.Ok? ==> |r.rest| < |s|
    decreases |s|, 3
  {
    match ParseValue(fl, s)
    case Fail => Fail
    case Ok(v, r) =>
      var t := SkipBlanks(r);
      if Starts(t, CLOSE_ARRAY) then Ok(Arr(acc + [v]), t[1..])
      else if Starts(t, COMMA) then ParseItems(fl, t[1..], acc + [v])
      else Fail
  }

  function ParseObject(fl: Floats, s: Bytes): (r: Parse<Json>)
    requires s != []
    ensures r.Ok? ==> |r.rest| < |s|
    decreases |s|, 1
  {
    var t := SkipBlanks(s[1..]);
    if Starts(t, CLOSE_OBJECT) then Ok(Obj([]), t[1..]) else ParseMembers(fl, t, [])
  }

  function ParseMember(fl: Floats, text: Bytes): (r: Parse<Member>)
    ensures r.Ok? ==> |r.rest| < |text|
    decreases |text|, 3
  {
    var s := SkipBlanks(text);
    if !Starts(s, QUOTE) then Fail else
      match ParseString(s)
      case Fail => Fail
      case Ok(key, r) =>
        var t := SkipBlanks(r);
        if !Starts(t, COLON) then Fail else
          match ParseValue(fl, t[1..])
          case Fail => Fail
          case Ok(v, r') => Ok(Member(key, v), r')
  }

  function ParseMembers(fl: Floats, s: Bytes, acc: seq<Member>): (r: Parse<Json>)
    ensures r.Ok? ==> |r.rest| < |s|
    decreases |s|, 4
  {
    match ParseMember(fl, s)
    case Fail => Fail
    case Ok(m, r) =>
      var t := SkipBlanks(r);
      if Starts(t, CLOSE_OBJECT) then Ok(Obj(Assign(acc, m)), t[1..])
      else if Starts(t, COMMA) then ParseMembers(fl, t[1..], Assign(acc, m))
      else Fail
  }

  /** `Json::parse`: one value and nothing but blanks after it. */
  function ParseText(fl: Floats, text: Bytes): Option<Json> {
    match ParseValue(fl, text)
    case Fail => None
    case Ok(j, rest) => if SkipBlanks(rest) == [] then Some(j) else None
  }
}
