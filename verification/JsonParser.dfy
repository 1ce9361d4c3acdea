/** The `Parser` and the stream printer of src/Json.cpp, proved against the
    grammar and the printed form of module Json. */
module JsonParser {
  import opened Wire
  import J = Json

  class Parser {
    const text: Bytes
    var i: nat
    /** Sticky: once set, the whole parse fails. */
    var fail: bool

    ghost predicate Valid()
      reads this
    {
      i <= |text|
    }

    ghost function Rest(): Bytes
      requires Valid()
      reads this
    {
      text[i..]
    }

    constructor (text: Bytes)
      ensures Valid() && this.text == text && Rest() == text && !fail
    {
      this.text := text;
      i, fail := 0, false;
    }

    method SkipWs()
      requires Valid()
      modifies this`i
      ensures Valid() && i >= old(i) && Rest() == J.SkipBlanks(old(Rest()))
    {
      while i < |text| && J.IsBlank(text[i])
        invariant Valid() && i >= old(i)
        invariant J.SkipBlanks(Rest()) == J.SkipBlanks(old(Rest()))
      {
        i := i + 1;
      }
    }

    function Peek(): Byte
      reads this
    {
      if i >= |text| then 0 else text[i]
    }

    method Next() returns (c: Byte)
      requires Valid()
      modifies this`i
      ensures Valid()
      ensures old(Rest()) == [] ==> c == 0 && i == old(i)
      ensures old(Rest()) != [] ==> c == old(Rest())[0] && i == old(i) + 1 && Rest() == old(Rest())[1..]
    {
      if i >= |text| { return 0; }
      c := text[i];
      i := i + 1;
    }

    /** The escape after a backslash that has been consumed. */
    method Escape(ghost acc: Bytes) returns (ok: bool, c: Byte)
      requires Valid()
      modifies this`i
      ensures Valid() && i >= old(i)
      ensures !ok ==> J.ParseChars([J.BACKSLASH] + old(Rest()), acc) == J.Fail
      ensures ok ==> J.ParseChars([J.BACKSLASH] + old(Rest()), acc) == J.ParseChars(Rest(), acc + [c])
    {
      hide J.EscapeValue;
      ghost var s := [J.BACKSLASH] + Rest();
      if i >= |text| { return false, 0; }
      var e := Next();
      assert s[1] == e && s[2..] == Rest();
      if e == J.LOWER_U {
        if i + 4 > |text| { return false, 0; }
        var hex := text[i..i + 4];
        i := i + 4;
        assert s[2..6] == hex && s[6..] == Rest();
        return true, J.EscapeValue(hex);
      }
      var u := J.Unescape(e);
      if u.None? { return false, 0; }
      return true, u.value;
    }

    method String() returns (out: Bytes)
      requires Valid() && Rest() != []
      modifies this`i, this`fail
      ensures Valid() && i > old(i)
      ensures fail <==> old(fail) || J.ParseString(old(Rest())).Fail?
      ensures J.ParseString(old(Rest())).Ok? ==> J.ParseString(old(Rest())) == J.Ok(out, Rest())
    {
      ghost var whole := J.ParseString(Rest());
      var _ := Next();
      out := [];
      while true
        invariant Valid() && i > old(i) && fail == old(fail)
        invariant whole == J.ParseChars(Rest(), out)
        decreases |text| - i
      {
        if i >= |text| { fail := true; return; }
        ghost var before := Rest();
        var c := Next();
        if c == J.QUOTE { return; }
        if c == J.BACKSLASH {
          assert before == [J.BACKSLASH] + Rest();
          var ok, e := Escape(out);
          if !ok { fail := true; return; }
          out := out + [e];
        } else {
          out := out + [c];
        }
      }
    }

    method Word() returns (j: J.Json)
      requires Valid()
      modifies this`i, this`fail
      ensures Valid() && i >= old(i)
      ensures fail <==> old(fail) || J.ParseWord(old(Rest())).Fail?
      ensures J.ParseWord(old(Rest())).Ok? ==> J.ParseWord(old(Rest())) == J.Ok(j, Rest())
    {
      if J.HasPrefix(text[i..], J.TRUE) { i := i + 4; return J.Bool(true); }
      if J.HasPrefix(text[i..], J.FALSE) { i := i + 5; return J.Bool(false); }
      if J.HasPrefix(text[i..], J.NULL) { i := i + 4; return J.Null; }
      fail := true;
      j := J.Null;
    }

    /** Consumes the characters of a number. */
    method Token() returns (token: Bytes)
      requires Valid()
      modifies this`i
      ensures Valid() && i >= old(i)
      ensures var s := old(Rest()); var n := J.Run(s, J.IsNumeric); token == s[..n] && Rest() == s[n..]
    {
      var start := i;
      ghost var s := Rest();
      if Peek() == J.MINUS { i := i + 1; }
      while i < |text| && J.IsNumeric(text[i])
        invariant start <= i <= |text|
        invariant J.Run(s, J.IsNumeric) == i - start + J.Run(text[i..], J.IsNumeric)
      {
        i := i + 1;
      }
      token := text[start..i];
    }

    method Number(fl: J.Floats) returns (j: J.Json)
      requires Valid() && Rest() != [] && (Rest()[0] == J.MINUS || J.IsDigit(Rest()[0]))
      modifies this`i, this`fail
      ensures Valid() && i >= old(i)
      ensures fail <==> old(fail) || J.ParseNumber(fl, old(Rest())).Fail?
      ensures J.ParseNumber(fl, old(Rest())).Ok? ==> J.ParseNumber(fl, old(Rest())) == J.Ok(j, Rest())
    {
      hide J.DecimalOf, J.Run;
      var token := Token();
      var d := J.DecimalOf(token);
      if d.None? { fail := true; return J.Null; }
      return J.Num(fl.round(d.value));
    }

    method Value(fl: J.Floats) returns (j: J.Json)
      requires Valid()
      modifies this`i, this`fail
      ensures Valid() && i >= old(i) && (old(fail) ==> fail)
      ensures !old(fail) ==> (fail <==> J.ParseValue(fl, old(Rest())).Fail?)
      ensures !old(fail) && !fail ==> J.ParseValue(fl, old(Rest())) == J.Ok(j, Rest())
      decreases |text| - i, 2
    {
      hide J.ParseString, J.ParseWord, J.ParseNumber, J.ParseObject, J.ParseArray;
      SkipWs();
      if i >= |text| { fail := true; return J.Null; }
      var c := Peek();
      if c == J.OPEN_OBJECT { j := Object(fl); return; }
      if c == J.OPEN_ARRAY { j := Array(fl); return; }
      if c == J.QUOTE { var s := String(); return J.Str(s); }
      if c == J.LOWER_T || c == J.LOWER_F || c == J.LOWER_N { j := Word(); return; }
      if c == J.MINUS || J.IsDigit(c) { j := Number(fl); return; }
      fail := true;
      j := J.Null;
    }

    method Array(fl: J.Floats) returns (j: J.Json)
      requires Valid() && Rest() != []
      modifies this`i, this`fail
      ensures Valid() && i >= old(i) && (old(fail) ==> fail)
      ensures !old(fail) ==> (fail <==> J.ParseArray(fl, old(Rest())).Fail?)
      ensures !old(fail) && !fail ==> J.ParseArray(fl, old(Rest())) == J.Ok(j, Rest())
      decreases |text| - i, 1
    {
      hide J.ParseValue;
      ghost var whole := J.ParseArray(fl, Rest());
      var a: seq<J.Json> := [];
      var _ := Next();
      SkipWs();
      if Peek() == J.CLOSE_ARRAY { var _ := Next(); return J.Arr([]); }
      while true
        invariant Valid() && i > old(i) && fail == old(fail)
        invariant whole == J.ParseItems(fl, Rest(), a)
        decreases |text| - i
      {
        ghost var at := i;
        var v := Value(fl);
        if fail { return J.Null; }
        a := a + [v];
        SkipWs();
        var d := Next();
        if d == J.CLOSE_ARRAY { return J.Arr(a); }
        if d != J.COMMA { fail := true; return J.Null; }
      }
    }

    method OneMember(fl: J.Floats) returns (m: J.Member)
      requires Valid()
      modifies this`i, this`fail
      ensures Valid() && i >= old(i) && (old(fail) ==> fail)
      ensures !old(fail) ==> (fail <==> J.ParseMember(fl, old(Rest())).Fail?)
      ensures !old(fail) && !fail ==> J.ParseMember(fl, old(Rest())) == J.Ok(m, Rest())
      decreases |text| - i, 3
    {
      hide J.ParseValue, J.ParseString;
      m := J.Member([], J.Null);
      SkipWs();
      if Peek() != J.QUOTE { fail := true; return; }
      var key := String();
      SkipWs();
      var c := Next();
      if c != J.COLON { fail := true; return; }
      var v := Value(fl);
      if fail { return; }
      m := J.Member(key, v);
    }

    method Object(fl: J.Floats) returns (j: J.Json)
      requires Valid() && Rest() != []
      modifies this`i, this`fail
      ensures Valid() && i >= old(i) && (old(fail) ==> fail)
      ensures !old(fail) ==> (fail <==> J.ParseObject(fl, old(Rest())).Fail?)
      ensures !old(fail) && !fail ==> J.ParseObject(fl, old(Rest())) == J.Ok(j, Rest())
      decreases |text| - i, 1
    {
      hide J.ParseMember, J.Assign;
      ghost var whole := J.ParseObject(fl, Rest());
      var o: seq<J.Member> := [];
      var _ := Next();
      SkipWs();
      if Peek() == J.CLOSE_OBJECT { var _ := Next(); return J.Obj([]); }
      while true
        invariant Valid() && i > old(i) && fail == old(fail)
        invariant whole == J.ParseMembers(fl, Rest(), o)
        decreases |text| - i
      {
        var m := OneMember(fl);
        if fail { return J.Null; }
        o := J.Assign(o, m);
        SkipWs();
        var d := Next();
        if d == J.CLOSE_OBJECT { return J.Obj(o); }
        if d != J.COMMA { fail := true; return J.Null; }
      }
    }
  }

  /** `Json::parse`. */
  method Parse(fl: J.Floats, text: Bytes) returns (r: Option<J.Json>)
    ensures r == J.ParseText(fl, text)
  {
    hide J.ParseText, J.ParseValue, J.SkipBlanks;
    var p := new Parser(text);
    var j := p.Value(fl);
    if p.fail {
      TextFails(fl, text);
      return None;
    }
    TextParses(fl, text, j, p.Rest());
    p.SkipWs();
    if p.i < |p.text| { return None; }
    return Some(j);
  }

  lemma TextFails(fl: J.Floats, text: Bytes)
    requires J.ParseValue(fl, text).Fail?
    ensures J.ParseText(fl, text) == None
  {
    hide J.ParseValue, J.SkipBlanks;
  }

  lemma TextParses(fl: J.Floats, text: Bytes, j: J.Json, rest: Bytes)
    requires J.ParseValue(fl, text) == J.Ok(j, rest)
    ensures J.ParseText(fl, text) == if |J.SkipBlanks(rest)| == 0 then Some(j) else None
  {
    hide J.ParseValue, J.SkipBlanks;
  }

  // ------------------------------------------------------------- printing

  class Printer {
    var out: Bytes

    constructor ()
      ensures out == []
    {
      out := [];
    }

    method Put(b: Bytes)
      modifies this
      ensures out == old(out) + b
    {
      out := out + b;
    }

    method EscapeTo(s: Bytes)
      modifies this
      ensures out == old(out) + J.Quoted(s)
    {
      hide J.EscapeByte, J.EscapeAll;
      Put([J.QUOTE]);
      ghost var base := out;
      assert s[0..] == s;
      for k := 0 to |s|
        invariant out + J.EscapeAll(s[k..]) == base + J.EscapeAll(s)
      {
        EscapeStep(s, k);
        Assoc(out, J.EscapeByte(s[k]), J.EscapeAll(s[k + 1..]));
        Put(J.EscapeByte(s[k]));
      }
      EscapeEnd(s);
      assert out + [] == out;
      Put([J.QUOTE]);
      Assoc(old(out), [J.QUOTE], J.EscapeAll(s));
      Assoc(old(out), [J.QUOTE] + J.EscapeAll(s), [J.QUOTE]);
      Assoc([J.QUOTE], J.EscapeAll(s), [J.QUOTE]);
    }

    method DumpTo(fl: J.Floats, j: J.Json)
      modifies this
      ensures out == old(out) + J.Dump(fl, j)
      decreases j, 1
    {
      hide J.Quoted, J.NumText, J.DumpItems, J.DumpMembers;
      match j
      case Null => Put(J.NULL);
      case Bool(b) => Put(if b then J.TRUE else J.FALSE);
      case Num(n) => Put(J.NumText(fl, n));
      case Str(s) => EscapeTo(s);
      case Arr(items) =>
        Put([J.OPEN_ARRAY]);
        DumpItemsTo(fl, items);
        Put([J.CLOSE_ARRAY]);
      case Obj(ms) =>
        Put([J.OPEN_OBJECT]);
        DumpMembersTo(fl, ms);
        Put([J.CLOSE_OBJECT]);
    }

    method DumpItemsTo(fl: J.Floats, items: seq<J.Json>)
      modifies this
      ensures out == old(out) + J.DumpItems(fl, items)
      decreases items, 0
    {
      hide J.Dump, J.DumpItems;
      ghost var base := out;
      ghost var n := |items|;
      var first := true;
      assert items[0..] == items;
      for k := 0 to |items|
        invariant first <==> k == 0
        invariant out + Separated(k, n, J.DumpItems(fl, items[k..])) == base + J.DumpItems(fl, items)
      {
        ghost var rest := Separated(k + 1, n, J.DumpItems(fl, items[k + 1..]));
        ItemsStep(fl, items, k);
        Assoc(out, [J.COMMA], J.DumpItems(fl, items[k..]));
        if !first { Put([J.COMMA]); }
        first := false;
        Assoc(out, J.Dump(fl, items[k]), rest);
        DumpTo(fl, items[k]);
      }
      ItemsEnd(fl, items);
      assert out + [] == out;
    }

    method DumpMemberTo(fl: J.Floats, m: J.Member)
      modifies this
      ensures out == old(out) + J.DumpMember(fl, m)
      decreases m, 0
    {
      hide J.Dump, J.Quoted;
      EscapeTo(m.key);
      Put([J.COLON]);
      DumpTo(fl, m.value);
    }

    method DumpMembersTo(fl: J.Floats, ms: seq<J.Member>)
      modifies this
      ensures out == old(out) + J.DumpMembers(fl, ms)
      decreases ms, 0
    {
      hide J.DumpMember, J.DumpMembers;
      ghost var base := out;
      ghost var n := |ms|;
      var first := true;
      assert ms[0..] == ms;
      for k := 0 to |ms|
        invariant first <==> k == 0
        invariant out + Separated(k, n, J.DumpMembers(fl, ms[k..])) == base + J.DumpMembers(fl, ms)
      {
        ghost var rest := Separated(k + 1, n, J.DumpMembers(fl, ms[k + 1..]));
        MembersStep(fl, ms, k);
        Assoc(out, [J.COMMA], J.DumpMembers(fl, ms[k..]));
        if !first { Put([J.COMMA]); }
        first := false;
        Assoc(out, J.DumpMember(fl, ms[k]), rest);
        DumpMemberTo(fl, ms[k]);
      }
      MembersEnd(fl, ms);
      assert out + [] == out;
    }
  }

  /** What is still to be written after `k` of `n` elements: a separator first,
      unless none or all of them have been. */
  ghost function Separated(k: nat, n: nat, rest: Bytes): Bytes {
    if k == 0 || k == n then rest else [J.COMMA] + rest
  }

  lemma EscapeStep(s: Bytes, k: nat)
    requires k < |s|
    ensures J.EscapeAll(s[k..]) == J.EscapeByte(s[k]) + J.EscapeAll(s[k + 1..])
  {
    assert s[k..][1..] == s[k + 1..];
  }

  lemma EscapeEnd(s: Bytes)
    ensures J.EscapeAll(s[|s|..]) == []
  {
  }

  lemma ItemsStep(fl: J.Floats, items: seq<J.Json>, k: nat)
    requires k < |items|
    ensures J.DumpItems(fl, items[k..]) == J.Dump(fl, items[k]) + Separated(k + 1, |items|, J.DumpItems(fl, items[k + 1..]))
  {
    hide J.Dump;
    assert items[k..][1..] == items[k + 1..];
  }

  lemma ItemsEnd(fl: J.Floats, items: seq<J.Json>)
    ensures J.DumpItems(fl, items[|items|..]) == []
  {
  }

  lemma MembersStep(fl: J.Floats, ms: seq<J.Member>, k: nat)
    requires k < |ms|
    ensures J.DumpMembers(fl, ms[k..]) == J.DumpMember(fl, ms[k]) + Separated(k + 1, |ms|, J.DumpMembers(fl, ms[k + 1..]))
  {
    hide J.DumpMember;
    assert ms[k..][1..] == ms[k + 1..];
  }

  lemma MembersEnd(fl: J.Floats, ms: seq<J.Member>)
    ensures J.DumpMembers(fl, ms[|ms|..]) == []
  {
  }
}
