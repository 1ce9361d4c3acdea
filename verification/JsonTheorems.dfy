/** Printing then parsing is the identity; parsing yields well-formed values. */
module JsonTheorems {
  import opened Wire
  import opened Json
  import Order
  import Key

  // -------------------------------------------------------------- strings

  lemma HexDigitValue(n: nat)
    requires n < 16
    ensures HexOf(HexDigit(n)) == n && HexDigit(n) != 120 && HexDigit(n) != 88
  {
  }

  lemma EscapeValueOf(c: Byte)
    requires c < 0x20
    ensures EscapeValue([48, 48, HexDigit(c / 16), HexDigit(c % 16)]) == c
  {
    var x, y := HexDigit(c / 16), HexDigit(c % 16);
    HexDigitValue(c / 16);
    HexDigitValue(c % 16);
    var h: Bytes := [48, 48, x, y];
    assert h[1..] == [48, x, y] && [48, x, y][1..] == [x, y] && [x, y][1..] == [y] && [y][1..] == [];
    hide HexDigit;
    assert HexOf(48) == 0;
    assert HexRun([], c) == c;
    assert HexRun([y], c / 16) == HexRun([], c / 16 * 16 + c % 16);
    assert HexRun([x, y], 0) == HexRun([y], c / 16);
    assert HexRun([48, x, y], 0) == HexRun([x, y], 0);
    assert HexRun(h, 0) == HexRun([48, x, y], 0);
  }

  lemma EscapedByteParses(c: Byte, rest: Bytes, acc: Bytes)
    ensures ParseChars(EscapeByte(c) + rest, acc) == ParseChars(rest, acc + [c])
  {
    hide EscapeValue, HexDigit;
    var s := EscapeByte(c) + rest;
    if c == QUOTE || c == BACKSLASH {
      assert s[2..] == rest;
    } else if c < 0x20 {
      EscapeValueOf(c);
      assert s[2..6] == [48, 48, HexDigit(c / 16), HexDigit(c % 16)];
      assert s[6..] == rest;
    } else {
      assert s[1..] == rest;
    }
  }

  lemma {:induction false} EscapedParses(s: Bytes, rest: Bytes, acc: Bytes)
    ensures ParseChars(EscapeAll(s) + ([QUOTE] + rest), acc) == Ok(acc + s, rest)
  {
    hide EscapeByte;
    if s == [] {
      assert EscapeAll(s) + ([QUOTE] + rest) == [QUOTE] + rest;
      assert ([QUOTE] + rest)[1..] == rest;
      assert acc + s == acc;
    } else {
      hide ParseChars;
      var tail := EscapeAll(s[1..]) + ([QUOTE] + rest);
      Assoc(EscapeByte(s[0]), EscapeAll(s[1..]), [QUOTE] + rest);
      EscapedByteParses(s[0], tail, acc);
      EscapedParses(s[1..], rest, acc + [s[0]]);
      assert acc + [s[0]] + s[1..] == acc + s;
    }
  }

  lemma QuotedParses(s: Bytes, rest: Bytes)
    ensures ParseString(Quoted(s) + rest) == Ok(s, rest)
  {
    hide ParseChars, EscapeAll;
    assert (Quoted(s) + rest)[1..] == EscapeAll(s) + ([QUOTE] + rest);
    EscapedParses(s, rest, []);
    assert [] + s == s;
  }

  // -------------------------------------------------------------- numbers

  ghost predicate AllDigits(s: Bytes) { forall i :: 0 <= i < |s| ==> IsDigit(s[i]) }

  lemma {:induction false} DecimalDigits(n: nat)
    ensures Decimal(n) != [] && AllDigits(Decimal(n))
  {
    if n >= 10 {
      DecimalDigits(n / 10);
    }
  }

  lemma {:induction false} DecimalValueOf(n: nat)
    ensures DecimalValue(Decimal(n)) == n
  {
    if n < 10 {
      assert DecimalValue([]) == 0;
      assert [48 + n][..0] == [];
    } else {
      var init := Decimal(n / 10);
      DecimalValueOf(n / 10);
      assert Decimal(n)[..|init|] == init;
    }
  }

  lemma {:induction false} RunOver(s: Bytes, rest: Bytes, p: Byte -> bool)
    requires forall i :: 0 <= i < |s| ==> p(s[i])
    requires rest == [] || !p(rest[0])
    ensures Run(s + rest, p) == |s|
  {
    if s == [] {
      assert s + rest == rest;
    } else {
      assert (s + rest)[1..] == s[1..] + rest;
      RunOver(s[1..], rest, p);
    }
  }

  lemma DecimalOfDigits(d: Bytes)
    requires d != [] && AllDigits(d)
    ensures DecimalOf(d) == Some(DecimalValue(d) as real)
    ensures DecimalOf([MINUS] + d) == Some(-(DecimalValue(d) as real))
  {
    RunOver(d, [], IsDigit);
    assert d + [] == d;
    assert d[..|d|] == d && d[|d|..] == [];
    assert ([MINUS] + d)[1..] == d;
    ScaleZero(DecimalValue(d) as real);
    hide DecimalValue, Scale10, Run;
  }

  lemma ScaleZero(m: real)
    ensures Scale10(m, 0) == m
  {
    assert Pow10(0) == 1.0;
  }

  lemma DecimalOfInt(n: int)
    ensures DecimalOf(IntText(n)) == Some(n as real)
    ensures IntText(n) != [] && (IntText(n)[0] == MINUS || IsDigit(IntText(n)[0]))
    ensures forall i :: 0 <= i < |IntText(n)| ==> IsNumeric(IntText(n)[i])
  {
    var m := if n < 0 then -n else n;
    DecimalDigits(m);
    DecimalValueOf(m);
    hide Decimal, DecimalValue, DecimalOf;
    DecimalOfDigits(Decimal(m));
  }

  /** What may follow a value in a text: nothing that would extend a number. */
  predicate Ends(rest: Bytes) { rest == [] || !IsNumeric(rest[0]) }

  /** Every number is printed as one token ... */
  lemma NumberIsToken(fl: Floats, n: real)
    requires ShowOk(fl)
    ensures IsToken(NumText(fl, n))
  {
    DecimalOfInt(n.Floor);
    hide IntText, DecimalOf;
    assert IsToken(fl.show(n));
  }

  /** ... which is read back with the value it shows, rounded to a double ... */
  lemma NumberTextParses(fl: Floats, n: real, rest: Bytes)
    requires ShowOk(fl) && Ends(rest)
    ensures var t := NumText(fl, n);
            && t != [] && (t[0] == MINUS || IsDigit(t[0]))
            && ParseNumber(fl, t + rest) == Ok(Num(fl.round(Printed(fl, n))), rest)
  {
    NumberIsToken(fl, n);
    var t := NumText(fl, n);
    hide NumText, DecimalOf;
    RunOver(t, rest, IsNumeric);
    assert (t + rest)[..|t|] == t && (t + rest)[|t|..] == rest;
  }

  /** ... and exactly, if it is an integer up to 2^53. */
  lemma IntegersAreExact(fl: Floats, n: real)
    requires FloatsOk(fl) && IsInt(n) && -EXACT <= n.Floor <= EXACT
    ensures Printed(fl, n) == n && fl.round(Printed(fl, n)) == n
  {
    DecimalOfInt(n.Floor);
  }

  // -------------------------------------------------------------- objects

  lemma ByteLtTotal()
    ensures Order.StrictTotal(Key.ByteLt)
  {
  }

  lemma LessIsStrict(a: Bytes, b: Bytes)
    requires KeyLess(a, b)
    ensures a != b && !KeyLess(b, a)
  {
    ByteLtTotal();
    Order.LexIrreflexive(Key.ByteLt, a);
    if KeyLess(b, a) {
      Order.LexTransitive(Key.ByteLt, a, b, a);
    }
  }

  /** Members that arrive in key order are appended. */
  lemma {:induction false} AssignAppends(ms: seq<Member>, m: Member)
    requires forall i :: 0 <= i < |ms| ==> KeyLess(ms[i].key, m.key)
    ensures Assign(ms, m) == ms + [m]
  {
    hide KeyLess;
    if ms != [] {
      LessIsStrict(ms[0].key, m.key);
      AssignAppends(ms[1..], m);
      assert ms == [ms[0]] + ms[1..];
    }
  }

  lemma SortedPrefix(acc: seq<Member>, ms: seq<Member>)
    requires ms != [] && SortedMembers(acc + ms)
    ensures forall i :: 0 <= i < |acc| ==> KeyLess(acc[i].key, ms[0].key)
  {
    hide KeyLess;
    forall i | 0 <= i < |acc| ensures KeyLess(acc[i].key, ms[0].key) {
      assert (acc + ms)[i] == acc[i] && (acc + ms)[|acc|] == ms[0];
    }
  }

  lemma SameKeysSorted(a: seq<Member>, b: seq<Member>)
    requires SortedMembers(a) && |a| == |b| && forall i :: 0 <= i < |a| ==> a[i].key == b[i].key
    ensures SortedMembers(b)
  {
    hide KeyLess;
    forall i, j | 0 <= i < j < |b| ensures KeyLess(b[i].key, b[j].key) {
      assert KeyLess(a[i].key, a[j].key);
    }
  }

  // ------------------------------------------------------------- round trip

  lemma NoBlank(s: Bytes)
    requires s != [] && !IsBlank(s[0])
    ensures SkipBlanks(s) == s
  {
  }

  /** The printed form starts with the character that selects its own parser. */
  lemma DumpHead(fl: Floats, j: Json, rest: Bytes)
    requires ShowOk(fl)
    ensures Dump(fl, j) != [] && !IsBlank(Dump(fl, j)[0]) && Dump(fl, j)[0] != CLOSE_ARRAY
    ensures SkipBlanks(Dump(fl, j) + rest) == Dump(fl, j) + rest
  {
    if j.Num? {
      NumberIsToken(fl, j.n);
    }
    hide NumText, DumpItems, DumpMembers, EscapeAll, ShowOk, DecimalOf;
    NoBlank(Dump(fl, j) + rest);
  }

  lemma WordParses(fl: Floats, j: Json, rest: Bytes)
    requires j.Null? || j.Bool?
    ensures ParseValue(fl, Dump(fl, j) + rest) == Ok(j, rest)
  {
    var d := Dump(fl, j);
    assert (d + rest)[..|d|] == d && (d + rest)[|d|..] == rest;
    NoBlank(d + rest);
  }

  lemma NumberParses(fl: Floats, j: Json, rest: Bytes)
    requires j.Num? && ShowOk(fl) && Ends(rest)
    ensures ParseValue(fl, Dump(fl, j) + rest) == Ok(Reread(fl, j), rest)
  {
    NumberTextParses(fl, j.n, rest);
    DumpHead(fl, j, rest);
    hide ParseNumber, NumText, Printed, ShowOk;
  }

  lemma StringParses(fl: Floats, j: Json, rest: Bytes)
    requires j.Str?
    ensures ParseValue(fl, Dump(fl, j) + rest) == Ok(j, rest)
  {
    QuotedParses(j.s, rest);
    assert Quoted(j.s)[0] == QUOTE;
    hide ParseString, Quoted;
    NoBlank(Quoted(j.s) + rest);
  }

  /** Every value is read back from its text, whatever follows it, as its reread form. */
  lemma {:induction false} DumpParses(fl: Floats, j: Json, rest: Bytes)
    requires ShowOk(fl) && WellFormed(j) && Ends(rest)
    ensures ParseValue(fl, Dump(fl, j) + rest) == Ok(Reread(fl, j), rest)
    decreases j, 1
  {
    match j
    case Null => WordParses(fl, j, rest);
    case Bool(_) => WordParses(fl, j, rest);
    case Num(_) => NumberParses(fl, j, rest);
    case Str(_) => StringParses(fl, j, rest);
    case Arr(items) =>
      if items != [] {
        ItemsParse(fl, items, [], rest);
        assert [] + RereadItems(fl, items) == RereadItems(fl, items);
      }
      ArrayText(fl, items, rest);
      ArrayParses(fl, items, rest);
    case Obj(ms) =>
      if ms != [] {
        assert [] + ms == ms;
        MembersParse(fl, ms, [], rest);
        assert [] + RereadMembers(fl, ms) == RereadMembers(fl, ms);
      }
      ObjectText(fl, ms, rest);
      ObjectParses(fl, ms, rest);
  }

  lemma ArrayText(fl: Floats, items: seq<Json>, rest: Bytes)
    ensures Dump(fl, Arr(items)) + rest == [OPEN_ARRAY] + (DumpItems(fl, items) + ([CLOSE_ARRAY] + rest))
  {
    hide DumpItems;
  }

  lemma ObjectText(fl: Floats, ms: seq<Member>, rest: Bytes)
    ensures Dump(fl, Obj(ms)) + rest == [OPEN_OBJECT] + (DumpMembers(fl, ms) + ([CLOSE_OBJECT] + rest))
  {
    hide DumpMembers;
  }

  lemma ItemsHead(fl: Floats, items: seq<Json>, rest: Bytes)
    requires items != [] && ShowOk(fl)
    ensures var t := DumpItems(fl, items) + rest;
            t != [] && !IsBlank(t[0]) && t[0] != CLOSE_ARRAY && SkipBlanks(t) == t
  {
    DumpHead(fl, items[0], []);
    hide Dump;
    NoBlank(DumpItems(fl, items) + rest);
  }

  lemma ArrayParses(fl: Floats, items: seq<Json>, rest: Bytes)
    requires ShowOk(fl)
    requires items != [] ==> ParseItems(fl, DumpItems(fl, items) + ([CLOSE_ARRAY] + rest), []) == Ok(Arr(RereadItems(fl, items)), rest)
    ensures ParseValue(fl, [OPEN_ARRAY] + (DumpItems(fl, items) + ([CLOSE_ARRAY] + rest))) == Ok(Arr(RereadItems(fl, items)), rest)
  {
    var body := DumpItems(fl, items) + ([CLOSE_ARRAY] + rest);
    var s := [OPEN_ARRAY] + body;
    NoBlank(s);
    assert s[1..] == body;
    if items == [] {
      assert body == [CLOSE_ARRAY] + rest;
      NoBlank(body);
      assert body[1..] == rest;
    } else {
      ItemsHead(fl, items, [CLOSE_ARRAY] + rest);
    }
    hide ParseItems, DumpItems, ShowOk;
  }

  lemma MembersHead(fl: Floats, ms: seq<Member>, rest: Bytes)
    requires ms != []
    ensures var t := DumpMembers(fl, ms) + rest; Starts(t, QUOTE) && SkipBlanks(t) == t
  {
    hide Dump, EscapeAll;
    var d := DumpMember(fl, ms[0]);
    assert d[0] == QUOTE;
    hide DumpMember;
    assert DumpMembers(fl, ms)[0] == d[0];
    NoBlank(DumpMembers(fl, ms) + rest);
  }

  lemma ObjectParses(fl: Floats, ms: seq<Member>, rest: Bytes)
    requires ms != [] ==> ParseMembers(fl, DumpMembers(fl, ms) + ([CLOSE_OBJECT] + rest), []) == Ok(Obj(RereadMembers(fl, ms)), rest)
    ensures ParseValue(fl, [OPEN_OBJECT] + (DumpMembers(fl, ms) + ([CLOSE_OBJECT] + rest))) == Ok(Obj(RereadMembers(fl, ms)), rest)
  {
    var body := DumpMembers(fl, ms) + ([CLOSE_OBJECT] + rest);
    var s := [OPEN_OBJECT] + body;
    NoBlank(s);
    assert s[1..] == body;
    if ms == [] {
      assert body == [CLOSE_OBJECT] + rest;
      NoBlank(body);
      assert body[1..] == rest;
    } else {
      MembersHead(fl, ms, [CLOSE_OBJECT] + rest);
    }
    hide ParseMembers, DumpMembers;
  }

  lemma {:induction false} ItemsParse(fl: Floats, items: seq<Json>, acc: seq<Json>, rest: Bytes)
    requires ShowOk(fl) && items != [] && forall i :: 0 <= i < |items| ==> WellFormed(items[i])
    ensures ParseItems(fl, DumpItems(fl, items) + ([CLOSE_ARRAY] + rest), acc) == Ok(Arr(acc + RereadItems(fl, items)), rest)
    decreases items, 0
  {
    hide ShowOk, ParseItems, DumpItems;
    var close := [CLOSE_ARRAY] + rest;
    var j := items[0];
    if |items| == 1 {
      DumpParses(fl, j, close);
      assert items == [j];
      RereadOne(fl, j);
      LastItem(fl, j, acc, rest);
    } else {
      var tail := DumpItems(fl, items[1..]) + close;
      DumpParses(fl, j, [COMMA] + tail);
      ItemsParse(fl, items[1..], acc + [Reread(fl, j)], rest);
      ItemsUnfold(fl, items, close);
      NextItem(fl, j, acc, tail);
      assert acc + [Reread(fl, j)] + RereadItems(fl, items[1..]) == acc + RereadItems(fl, items);
    }
  }

  lemma RereadOne(fl: Floats, j: Json)
    ensures RereadItems(fl, [j]) == [Reread(fl, j)]
  {
    hide Reread;
    assert [j][1..] == [];
  }

  lemma RereadOneMember(fl: Floats, m: Member)
    ensures RereadMembers(fl, [m]) == [RereadMember(fl, m)]
  {
    hide Reread;
    assert [m][1..] == [];
  }

  lemma LastItem(fl: Floats, j: Json, acc: seq<Json>, rest: Bytes)
    requires ParseValue(fl, Dump(fl, j) + ([CLOSE_ARRAY] + rest)) == Ok(Reread(fl, j), [CLOSE_ARRAY] + rest)
    ensures ParseItems(fl, DumpItems(fl, [j]) + ([CLOSE_ARRAY] + rest), acc) == Ok(Arr(acc + [Reread(fl, j)]), rest)
  {
    hide Dump, ParseValue, Reread;
    var close := [CLOSE_ARRAY] + rest;
    assert DumpItems(fl, [j]) == Dump(fl, j);
    NoBlank(close);
    assert close[1..] == rest;
  }

  lemma NextItem(fl: Floats, j: Json, acc: seq<Json>, tail: Bytes)
    requires ParseValue(fl, Dump(fl, j) + ([COMMA] + tail)) == Ok(Reread(fl, j), [COMMA] + tail)
    ensures ParseItems(fl, Dump(fl, j) + ([COMMA] + tail), acc) == ParseItems(fl, tail, acc + [Reread(fl, j)])
  {
    hide Dump, ParseValue, Reread;
    var next := [COMMA] + tail;
    NoBlank(next);
    assert next[1..] == tail;
  }

  lemma ItemsUnfold(fl: Floats, items: seq<Json>, close: Bytes)
    requires |items| > 1
    ensures DumpItems(fl, items) + close == Dump(fl, items[0]) + ([COMMA] + (DumpItems(fl, items[1..]) + close))
  {
    var a, b := Dump(fl, items[0]), DumpItems(fl, items[1..]);
    hide Dump;
    assert DumpItems(fl, items) == a + ([COMMA] + b);
    hide DumpItems;
    Assoc(a, [COMMA] + b, close);
    Assoc([COMMA], b, close);
  }

  function RereadMember(fl: Floats, m: Member): Member { Member(m.key, Reread(fl, m.value)) }

  lemma {:induction false} MemberParses(fl: Floats, m: Member, rest: Bytes)
    requires ShowOk(fl) && WellFormed(m.value) && Ends(rest)
    ensures ParseMember(fl, DumpMember(fl, m) + rest) == Ok(RereadMember(fl, m), rest)
    decreases m, 0
  {
    DumpParses(fl, m.value, rest);
    var d := Dump(fl, m.value) + rest;
    var t := [COLON] + d;
    QuotedParses(m.key, t);
    assert DumpMember(fl, m) + rest == Quoted(m.key) + t by { hide Dump, Quoted; }
    assert Quoted(m.key)[0] == QUOTE;
    hide Dump, Quoted, ParseString, ParseValue, WellFormed, Reread, ShowOk;
    NoBlank(Quoted(m.key) + t);
    NoBlank(t);
    assert t[1..] == d;
  }

  lemma {:induction false} MembersParse(fl: Floats, ms: seq<Member>, acc: seq<Member>, rest: Bytes)
    requires ShowOk(fl) && ms != [] && SortedMembers(acc + ms)
    requires forall i :: 0 <= i < |ms| ==> WellFormed(ms[i].value)
    ensures ParseMembers(fl, DumpMembers(fl, ms) + ([CLOSE_OBJECT] + rest), acc) == Ok(Obj(acc + RereadMembers(fl, ms)), rest)
    decreases ms, 0
  {
    hide DumpMember, ParseMember, Assign, ParseMembers, DumpMembers, KeyLess, ShowOk, Reread;
    var close := [CLOSE_OBJECT] + rest;
    var m := ms[0];
    var m' := RereadMember(fl, m);
    assert Assign(acc, m') == acc + [m'] by { SortedPrefix(acc, ms); AssignAppends(acc, m'); }
    if |ms| == 1 {
      MemberParses(fl, m, close);
      assert ms == [m];
      RereadOneMember(fl, m);
      LastMember(fl, m, acc, rest);
    } else {
      var tail := DumpMembers(fl, ms[1..]) + close;
      MemberParses(fl, m, [COMMA] + tail);
      SameKeysSorted(acc + ms, acc + [m'] + ms[1..]);
      MembersParse(fl, ms[1..], acc + [m'], rest);
      MembersUnfold(fl, ms, close);
      NextMember(fl, m, acc, tail);
      assert acc + [m'] + RereadMembers(fl, ms[1..]) == acc + RereadMembers(fl, ms);
    }
  }

  lemma LastMember(fl: Floats, m: Member, acc: seq<Member>, rest: Bytes)
    requires ParseMember(fl, DumpMember(fl, m) + ([CLOSE_OBJECT] + rest)) == Ok(RereadMember(fl, m), [CLOSE_OBJECT] + rest)
    ensures ParseMembers(fl, DumpMembers(fl, [m]) + ([CLOSE_OBJECT] + rest), acc) == Ok(Obj(Assign(acc, RereadMember(fl, m))), rest)
  {
    hide DumpMember, ParseMember, Assign, Reread;
    var close := [CLOSE_OBJECT] + rest;
    assert DumpMembers(fl, [m]) == DumpMember(fl, m);
    NoBlank(close);
    assert close[1..] == rest;
  }

  lemma NextMember(fl: Floats, m: Member, acc: seq<Member>, tail: Bytes)
    requires ParseMember(fl, DumpMember(fl, m) + ([COMMA] + tail)) == Ok(RereadMember(fl, m), [COMMA] + tail)
    ensures ParseMembers(fl, DumpMember(fl, m) + ([COMMA] + tail), acc) == ParseMembers(fl, tail, Assign(acc, RereadMember(fl, m)))
  {
    hide DumpMember, ParseMember, Assign, Reread;
    var next := [COMMA] + tail;
    NoBlank(next);
    assert next[1..] == tail;
  }

  lemma MembersUnfold(fl: Floats, ms: seq<Member>, close: Bytes)
    requires |ms| > 1
    ensures DumpMembers(fl, ms) + close == DumpMember(fl, ms[0]) + ([COMMA] + (DumpMembers(fl, ms[1..]) + close))
  {
    var a, b := DumpMember(fl, ms[0]), DumpMembers(fl, ms[1..]);
    hide DumpMember;
    assert DumpMembers(fl, ms) == a + ([COMMA] + b);
    hide DumpMembers;
    Assoc(a, [COMMA] + b, close);
    Assoc([COMMA], b, close);
  }

  /** Printing then parsing always succeeds and gives the reread value, which is
      the value itself if and only if each of its numbers was printed exactly. */
  lemma RoundTrip(fl: Floats, j: Json)
    requires ShowOk(fl) && WellFormed(j)
    ensures ParseText(fl, Dump(fl, j)) == Some(Reread(fl, j))
    ensures ParseText(fl, Dump(fl, j)) == Some(j) <==> Exact(fl, j)
  {
    DumpParses(fl, j, []);
    RereadIff(fl, j);
    assert Dump(fl, j) + [] == Dump(fl, j);
    hide Dump, ParseValue, Reread, Exact;
  }

  lemma {:induction false} RereadIff(fl: Floats, j: Json)
    ensures Reread(fl, j) == j <==> Exact(fl, j)
    decreases j, 1
  {
    hide Printed;
    match j
    case Arr(items) => RereadItemsIff(fl, items);
    case Obj(ms) => RereadMembersIff(fl, ms);
    case _ =>
  }

  lemma {:induction false} RereadItemsIff(fl: Floats, items: seq<Json>)
    ensures RereadItems(fl, items) == items <==> forall i :: 0 <= i < |items| ==> Exact(fl, items[i])
    decreases items, 0
  {
    if items != [] {
      var x, rest := items[0], items[1..];
      RereadIff(fl, x);
      RereadItemsIff(fl, rest);
      hide Reread, Exact;
      assert items == [x] + rest;
      var r := RereadItems(fl, items);
      assert r[0] == Reread(fl, x) && r[1..] == RereadItems(fl, rest);
      if forall i :: 0 <= i < |items| ==> Exact(fl, items[i]) {
        assert forall i :: 0 <= i < |rest| ==> rest[i] == items[i + 1];
      }
    }
  }

  lemma {:induction false} RereadMembersIff(fl: Floats, ms: seq<Member>)
    ensures RereadMembers(fl, ms) == ms <==> forall i :: 0 <= i < |ms| ==> Exact(fl, ms[i].value)
    decreases ms, 0
  {
    if ms != [] {
      var x, rest := ms[0], ms[1..];
      RereadIff(fl, x.value);
      RereadMembersIff(fl, rest);
      hide Reread, Exact;
      assert ms == [x] + rest;
      var r := RereadMembers(fl, ms);
      assert r[0] == Member(x.key, Reread(fl, x.value)) && r[1..] == RereadMembers(fl, rest);
      if forall i :: 0 <= i < |ms| ==> Exact(fl, ms[i].value) {
        assert forall i :: 0 <= i < |rest| ==> rest[i] == ms[i + 1];
      }
    }
  }

  /** Values whose numbers are integers up to 2^53 are printed exactly. */
  lemma {:induction false} IntegralIsExact(fl: Floats, j: Json)
    requires FloatsOk(fl) && Integral(j)
    ensures Exact(fl, j)
    decreases j
  {
    match j
    case Num(n) => IntegersAreExact(fl, n);
    case Arr(items) =>
      forall i | 0 <= i < |items| ensures Exact(fl, items[i]) {
        IntegralIsExact(fl, items[i]);
      }
    case Obj(ms) =>
      forall i | 0 <= i < |ms| ensures Exact(fl, ms[i].value) {
        IntegralIsExact(fl, ms[i].value);
      }
    case _ =>
  }

  /** Two values with one text differ at most in what printing loses. */
  lemma DumpInjective(fl: Floats, a: Json, b: Json)
    requires ShowOk(fl) && WellFormed(a) && WellFormed(b) && Dump(fl, a) == Dump(fl, b)
    ensures Reread(fl, a) == Reread(fl, b)
    ensures Exact(fl, a) && Exact(fl, b) ==> a == b
  {
    hide Dump, ParseText, Reread, Exact;
    RoundTrip(fl, a);
    RoundTrip(fl, b);
  }

  // ------------------------------------------------------- parsed values

  lemma {:induction false} AssignSorted(ms: seq<Member>, m: Member)
    requires SortedMembers(ms)
    ensures SortedMembers(Assign(ms, m))
    ensures forall x :: x in Assign(ms, m) ==> x in ms || x == m
  {
    hide KeyLess;
    if ms == [] {
    } else if KeyLess(m.key, ms[0].key) {
      forall i | 0 <= i < |ms| ensures KeyLess(m.key, ms[i].key) {
        if i > 0 { LessTransitive(m.key, ms[0].key, ms[i].key); }
      }
    } else if ms[0].key != m.key {
      AssignSorted(ms[1..], m);
      LessTotal(ms[0].key, m.key);
      var r := Assign(ms[1..], m);
      forall i | 0 <= i < |r| ensures KeyLess(ms[0].key, r[i].key) {
        assert r[i] in r;
      }
    }
  }

  lemma LessTransitive(a: Bytes, b: Bytes, c: Bytes)
    requires KeyLess(a, b) && KeyLess(b, c)
    ensures KeyLess(a, c)
  {
    ByteLtTotal();
    Order.LexTransitive(Key.ByteLt, a, b, c);
  }

  lemma LessTotal(a: Bytes, b: Bytes)
    ensures a == b || KeyLess(a, b) || KeyLess(b, a)
  {
    ByteLtTotal();
    Order.LexTotal(Key.ByteLt, a, b);
  }

  /** Whatever the parser accepts, every object in it is a map. */
  lemma {:induction false} ParsedIsWellFormed(fl: Floats, text: Bytes)
    requires ParseValue(fl, text).Ok?
    ensures WellFormed(ParseValue(fl, text).value)
    decreases |text|, 2
  {
    var s := SkipBlanks(text);
    hide ParseNumber, ParseWord, ParseString, ParseItems, ParseMembers;
    if s[0] == OPEN_OBJECT {
      var t := SkipBlanks(s[1..]);
      if !Starts(t, CLOSE_OBJECT) { ParsedMembers(fl, t, []); }
    } else if s[0] == OPEN_ARRAY {
      var t := SkipBlanks(s[1..]);
      if !Starts(t, CLOSE_ARRAY) { ParsedItems(fl, t, []); }
    } else {
      ScalarWellFormed(fl, text, s);
    }
  }

  lemma ScalarWellFormed(fl: Floats, text: Bytes, s: Bytes)
    requires s == SkipBlanks(text) && s != [] && s[0] != OPEN_OBJECT && s[0] != OPEN_ARRAY
    requires ParseValue(fl, text).Ok?
    ensures WellFormed(ParseValue(fl, text).value)
  {
    hide DecimalOf, Run;
  }

  lemma {:induction false} ParsedItems(fl: Floats, s: Bytes, acc: seq<Json>)
    requires ParseItems(fl, s, acc).Ok?
    requires forall i :: 0 <= i < |acc| ==> WellFormed(acc[i])
    ensures WellFormed(ParseItems(fl, s, acc).value)
    decreases |s|, 3
  {
    hide ParseValue;
    ParsedIsWellFormed(fl, s);
    var Ok(v, r) := ParseValue(fl, s);
    var t := SkipBlanks(r);
    if !Starts(t, CLOSE_ARRAY) {
      ParsedItems(fl, t[1..], acc + [v]);
    }
  }

  lemma {:induction false} ParsedMembers(fl: Floats, s: Bytes, acc: seq<Member>)
    requires ParseMembers(fl, s, acc).Ok? && SortedMembers(acc)
    requires forall m :: m in acc ==> WellFormed(m.value)
    ensures WellFormed(ParseMembers(fl, s, acc).value)
    decreases |s|, 4
  {
    hide ParseValue;
    ParsedMember(fl, s);
    var Ok(m, r) := ParseMember(fl, s);
    hide ParseMember;
    AssignSorted(acc, m);
    hide Assign;
    var t := SkipBlanks(r);
    if !Starts(t, CLOSE_OBJECT) {
      ParsedMembers(fl, t[1..], Assign(acc, m));
    }
  }

  lemma {:induction false} ParsedMember(fl: Floats, text: Bytes)
    requires ParseMember(fl, text).Ok?
    ensures WellFormed(ParseMember(fl, text).value.value)
    decreases |text|, 3
  {
    hide ParseValue, ParseString;
    var s := SkipBlanks(text);
    var r := ParseString(s).rest;
    var t := SkipBlanks(r);
    ParsedIsWellFormed(fl, t[1..]);
  }
}
