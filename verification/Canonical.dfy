/** The canonical TLV record of src/Canonical.cpp: a count, then every field as
    tag, length and value, in ascending tag order. */
module Canonical {
  import opened Wire

  datatype Entry = Entry(tag: Byte, value: Bytes)

  /** The ordinal of `KeyField::IRContent`, the largest tag. */
  const MAX_TAG := 57
  const MAX_COUNT := 4096

  predicate ValidTag(t: int) { 1 <= t <= MAX_TAG }

  predicate SortedByTag(f: seq<Entry>) {
    forall i, j :: 0 <= i < j < |f| ==> f[i].tag <= f[j].tag
  }

  predicate StrictlySorted(f: seq<Entry>) {
    forall i, j :: 0 <= i < j < |f| ==> f[i].tag < f[j].tag
  }

  predicate UniqueTags(f: seq<Entry>) {
    forall i, j :: 0 <= i < j < |f| ==> f[i].tag != f[j].tag
  }

  predicate AllValid(f: seq<Entry>) {
    forall i :: 0 <= i < |f| ==> ValidTag(f[i].tag)
  }

  /** Every value has a length that fits its 64-bit prefix. */
  predicate Encodable(f: seq<Entry>) {
    forall i :: 0 <= i < |f| ==> |f[i].value| < TWO64
  }

  predicate HasTag(f: seq<Entry>, t: Byte) {
    exists i :: 0 <= i < |f| && f[i].tag == t
  }

  /** The first field with tag `t`, as `findField` looks it up. */
  function Lookup(f: seq<Entry>, t: Byte): Option<Bytes> {
    if f == [] then None
    else if f[0].tag == t then Some(f[0].value)
    else Lookup(f[1..], t)
  }

  function Tags(f: seq<Entry>): set<Byte> {
    set i | 0 <= i < |f| :: f[i].tag
  }

  lemma {:induction false} LookupHasTag(f: seq<Entry>, t: Byte)
    ensures Lookup(f, t).Some? <==> t in Tags(f)
    ensures HasTag(f, t) <==> t in Tags(f)
    ensures Lookup(f, t).Some? ==> Entry(t, Lookup(f, t).value) in f
  {
    if f != [] {
      LookupHasTag(f[1..], t);
      if f[0].tag != t && t in Tags(f) {
        var i :| 0 <= i < |f| && f[i].tag == t;
        assert f[1..][i - 1].tag == t;
      }
    }
  }

  /** What a field list means: a finite map from tag to value. */
  function FieldMap(f: seq<Entry>): (m: map<Byte, Bytes>)
    ensures m.Keys == Tags(f)
  {
    map t | t in Tags(f) :: LookupHasTag(f, t); Lookup(f, t).value
  }

  lemma LookupUnique(f: seq<Entry>, e: Entry)
    requires UniqueTags(f) && e in f
    ensures Lookup(f, e.tag) == Some(e.value)
  {
    var i :| 0 <= i < |f| && f[i] == e;
    LookupHasTag(f, e.tag);
    var e' := Entry(e.tag, Lookup(f, e.tag).value);
    var k :| 0 <= k < |f| && f[k] == e';
  }

  // ------------------------------------------------------------- encoding

  function OnlyValid(f: seq<Entry>): (r: seq<Entry>)
    ensures AllValid(r)
    ensures |r| <= |f|
    ensures forall e :: e in r <==> e in f && ValidTag(e.tag)
  {
    if f == [] then [] else
      assert f == [f[0]] + f[1..];
      if ValidTag(f[0].tag) then [f[0]] + OnlyValid(f[1..]) else OnlyValid(f[1..])
  }

  function EncodeField(e: Entry): Bytes { [e.tag] + PutBlob(e.value) }

  function EncodeFields(f: seq<Entry>): Bytes {
    if f == [] then []
    else if ValidTag(f[0].tag) then EncodeField(f[0]) + EncodeFields(f[1..])
    else EncodeFields(f[1..])
  }

  /** The count covers every field, also those whose invalid tag is not written. */
  function Record(sorted: seq<Entry>): Bytes {
    BE(4, |sorted| % TWO32) + EncodeFields(sorted)
  }

  /** `std::sort` fixes the result only up to the order of equal tags. */
  ghost predicate IsSortOf(s: seq<Entry>, f: seq<Entry>) {
    multiset(s) == multiset(f) && SortedByTag(s)
  }

  ghost predicate Encodes(f: seq<Entry>, b: Bytes) {
    exists s :: IsSortOf(s, f) && b == Record(s)
  }

  method InsertSorted(s: seq<Entry>, e: Entry) returns (r: seq<Entry>)
    requires SortedByTag(s)
    ensures SortedByTag(r)
    ensures multiset(r) == multiset(s) + multiset{e}
  {
    var k := |s|;
    while k > 0 && s[k - 1].tag > e.tag
      invariant 0 <= k <= |s|
      invariant forall j :: k <= j < |s| ==> s[j].tag > e.tag
    {
      k := k - 1;
    }
    InsertAt(s, k, e);
    r := s[..k] + [e] + s[k..];
  }

  lemma InsertAt(s: seq<Entry>, k: nat, e: Entry)
    requires SortedByTag(s) && k <= |s|
    requires k > 0 ==> s[k - 1].tag <= e.tag
    requires k < |s| ==> e.tag <= s[k].tag
    ensures SortedByTag(s[..k] + [e] + s[k..])
    ensures multiset(s[..k] + [e] + s[k..]) == multiset(s) + multiset{e}
  {
    assert s == s[..k] + s[k..];
    InsertAtSorted(s, k, e);
  }

  lemma InsertAtSorted(s: seq<Entry>, k: nat, e: Entry)
    requires SortedByTag(s) && k <= |s|
    requires k > 0 ==> s[k - 1].tag <= e.tag
    requires k < |s| ==> e.tag <= s[k].tag
    ensures SortedByTag(s[..k] + [e] + s[k..])
  {
    var r := s[..k] + [e] + s[k..];
    forall i, j | 0 <= i < j < |r| ensures r[i].tag <= r[j].tag {
      if j < k {
        assert r[i] == s[i] && r[j] == s[j];
      } else if i > k {
        assert r[i] == s[i - 1] && r[j] == s[j - 1];
      } else if i < k < j {
        assert r[i] == s[i] && r[j] == s[j - 1];
      } else if i < k {
        assert r[i] == s[i] && r[j] == e;
      } else {
        assert r[i] == e && r[j] == s[j - 1];
      }
    }
  }

  method Sort(f: seq<Entry>) returns (s: seq<Entry>)
    ensures IsSortOf(s, f)
  {
    s := [];
    for i := 0 to |f|
      invariant multiset(s) == multiset(f[..i])
      invariant SortedByTag(s)
    {
      assert f[..i + 1] == f[..i] + [f[i]];
      s := InsertSorted(s, f[i]);
    }
    assert f[..|f|] == f;
  }

  lemma {:induction false} EncodeFieldsSnoc(f: seq<Entry>, e: Entry)
    ensures EncodeFields(f + [e]) == EncodeFields(f) + (if ValidTag(e.tag) then EncodeField(e) else [])
  {
    if f == [] {
      assert f + [e] == [e];
      assert [e][1..] == [];
    } else {
      EncodeFieldsSnoc(f[1..], e);
      assert (f + [e])[1..] == f[1..] + [e];
    }
  }

  lemma SortEncodable(s: seq<Entry>, f: seq<Entry>)
    requires IsSortOf(s, f) && Encodable(f)
    ensures Encodable(s)
  {
    forall i | 0 <= i < |s| ensures |s[i].value| < TWO64 {
      assert s[i] in multiset(s);
      assert s[i] in multiset(f);
    }
  }

  method WriteField(w: CanonicalWriter, f: Entry)
    requires |f.value| < TWO64
    modifies w
    ensures w.buf == old(w.buf) + EncodeField(f)
  {
    w.U8(f.tag);
    w.U64(|f.value|);
    w.Raw(f.value);
  }

  method WriteFields(w: CanonicalWriter, sorted: seq<Entry>)
    requires Encodable(sorted)
    modifies w
    ensures w.buf == old(w.buf) + EncodeFields(sorted)
  {
    ghost var base := w.buf;
    for i := 0 to |sorted|
      invariant w.buf == base + EncodeFields(sorted[..i])
    {
      hide EncodeField, EncodeFields;
      var f := sorted[i];
      EncodeFieldsSnoc(sorted[..i], f);
      assert sorted[..i + 1] == sorted[..i] + [f];
      if f.tag == 0 || f.tag > MAX_TAG { continue; }
      WriteField(w, f);
      Assoc(base, EncodeFields(sorted[..i]), EncodeField(f));
    }
    assert sorted[..|sorted|] == sorted;
  }

  method MakeCanonicalFields(fields: seq<Entry>) returns (b: Bytes)
    requires Encodable(fields)
    ensures Encodes(fields, b)
  {
    hide BE, EncodeFields, SortedByTag;
    var sorted := Sort(fields);
    SortEncodable(sorted, fields);
    var w := new CanonicalWriter();
    w.U32(|sorted| % TWO32);
    WriteFields(w, sorted);
    b := w.buf;
    assert b == Record(sorted);
  }

  // ------------------------------------------------------------- parsing

  function ParseLoop(n: nat, s: Bytes, acc: seq<Entry>): Option<seq<Entry>> {
    if n == 0 then (if s == [] then Some(acc) else None)
    else if s == [] then None
    else if !ValidTag(s[0]) || HasTag(acc, s[0]) then None
    else
      match GetBlob(s[1..])
      case Short => None
      case Got(v, rest) => ParseLoop(n - 1, rest, acc + [Entry(s[0], v)])
  }

  function ParseFields(b: Bytes): Option<seq<Entry>> {
    match GetUint(4, b)
    case Short => None
    case Got(count, rest) => if count > MAX_COUNT then None else ParseLoop(count, rest, [])
  }

  method Duplicate(out: seq<Entry>, tag: Byte) returns (dup: bool)
    ensures dup <==> HasTag(out, tag)
  {
    for k := 0 to |out|
      invariant forall j :: 0 <= j < k ==> out[j].tag != tag
    {
      if out[k].tag == tag { return true; }
    }
    return false;
  }

  /** One turn of the parse loop; `remaining` counts the fields still expected. */
  method ParseOne(rd: CanonicalReader, out: seq<Entry>, ghost remaining: nat)
    returns (ok: bool, e: Entry)
    requires rd.Valid() && remaining > 0
    modifies rd`pos
    ensures rd.Valid()
    ensures !ok ==> ParseLoop(remaining, old(rd.Rest()), out) == None
    ensures ok ==> ParseLoop(remaining, old(rd.Rest()), out) == ParseLoop(remaining - 1, rd.Rest(), out + [e])
  {
    hide FromBE, HasTag, GetBlob;
    var okT, tag := rd.U8();
    if !okT { return false, Entry(0, []); }
    if tag == 0 || tag > MAX_TAG { return false, Entry(0, []); }
    var dup := Duplicate(out, tag);
    if dup { return false, Entry(0, []); }
    var okV, v := rd.Blob();
    if !okV { return false, Entry(0, []); }
    return true, Entry(tag, v);
  }

  method ParseKeyFields(data: Bytes) returns (r: Option<seq<Entry>>)
    ensures r == ParseFields(data)
  {
    hide FromBE, HasTag, GetBlob;
    var rd := new CanonicalReader(data);
    var okC, count := rd.U32();
    if !okC { return None; }
    if count > MAX_COUNT { return None; }
    var out: seq<Entry> := [];
    ParseFieldsUnfolds(data, count, rd.Rest());
    hide ParseLoop, ParseFields;
    var i := 0;
    while i < count
      invariant rd.Valid()
      invariant 0 <= i <= count
      invariant ParseFields(data) == ParseLoop(count - i, rd.Rest(), out)
    {
      var ok, e := ParseOne(rd, out, count - i);
      if !ok { return None; }
      out := out + [e];
      i := i + 1;
    }
    var more := rd.HasRemaining();
    ParseLoopEnd(rd.Rest(), out);
    if more { return None; }
    return Some(out);
  }

  lemma ParseLoopEnd(s: Bytes, acc: seq<Entry>)
    ensures ParseLoop(0, s, acc) == if s == [] then Some(acc) else None
  {
  }

  // ------------------------------------------------------------- theorems

  /** No tag of `v` repeats, within `v` or in `acc`: the parser's duplicate test. */
  predicate FreshTags(v: seq<Entry>, acc: seq<Entry>) {
    v == [] || (!HasTag(acc, v[0].tag) && FreshTags(v[1..], acc + [v[0]]))
  }

  lemma {:induction false} FreshTagsUnique(v: seq<Entry>, acc: seq<Entry>)
    requires UniqueTags(acc)
    ensures FreshTags(v, acc) <==> UniqueTags(acc + v)
  {
    if v == [] {
      assert acc + v == acc;
    } else {
      var acc' := acc + [v[0]];
      assert acc' + v[1..] == acc + v;
      if HasTag(acc, v[0].tag) {
        var i :| 0 <= i < |acc| && acc[i].tag == v[0].tag;
        assert (acc + v)[i].tag == (acc + v)[|acc|].tag;
      } else {
        FreshTagsUnique(v[1..], acc');
      }
    }
  }

  lemma ParseField(n: nat, e: Entry, rest: Bytes, acc: seq<Entry>)
    requires n > 0 && ValidTag(e.tag) && |e.value| < TWO64
    ensures ParseLoop(n, EncodeField(e) + rest, acc)
         == if HasTag(acc, e.tag) then None else ParseLoop(n - 1, rest, acc + [e])
  {
    var s := EncodeField(e) + rest;
    assert s[0] == e.tag;
    assert s[1..] == PutBlob(e.value) + rest;
    GetBlobPut(e.value, rest);
  }

  lemma {:induction false} ParseLoopExact(n: nat, v: seq<Entry>, acc: seq<Entry>)
    requires AllValid(v) && Encodable(v)
    ensures ParseLoop(n, EncodeFields(v), acc)
         == if n == |v| && FreshTags(v, acc) then Some(acc + v) else None
  {
    if v == [] {
      assert acc + v == acc;
    } else if n > 0 {
      var e, rest := v[0], EncodeFields(v[1..]);
      ParseField(n, e, rest, acc);
      ParseLoopExact(n - 1, v[1..], acc + [e]);
      assert acc + [e] + v[1..] == acc + v;
    }
  }

  lemma {:induction false} ParseLoopInv(n: nat, s: Bytes, acc: seq<Entry>)
    requires ParseLoop(n, s, acc).Some?
    ensures var out := ParseLoop(n, s, acc).value;
            && |out| == |acc| + n && out[..|acc|] == acc
            && AllValid(out[|acc|..]) && Encodable(out[|acc|..])
            && FreshTags(out[|acc|..], acc)
            && s == EncodeFields(out[|acc|..])
  {
    if n > 0 {
      var out := ParseLoop(n, s, acc).value;
      var e, rest := ParseStepInv(n, s, acc);
      ParseLoopInv(n - 1, rest, acc + [e]);
      hide BE, FromBE, HasTag, PutBlob, GetBlob, ParseLoop, EncodeField;
      var tail := out[|acc| + 1..];
      ConsAfter(out, acc, e);
      assert out[|acc|..][1..] == tail;
    }
  }

  lemma ConsAfter(out: seq<Entry>, acc: seq<Entry>, e: Entry)
    requires |out| > |acc| && out[..|acc| + 1] == acc + [e]
    ensures out[..|acc|] == acc && out[|acc|..] == [e] + out[|acc| + 1..]
  {
    assert out[|acc|] == out[..|acc| + 1][|acc|];
    assert out[..|acc|] == out[..|acc| + 1][..|acc|];
  }

  lemma ParseStepInv(n: nat, s: Bytes, acc: seq<Entry>) returns (e: Entry, rest: Bytes)
    requires n > 0 && ParseLoop(n, s, acc).Some?
    ensures ValidTag(e.tag) && !HasTag(acc, e.tag) && |e.value| < TWO64
    ensures s == EncodeField(e) + rest
    ensures ParseLoop(n, s, acc) == ParseLoop(n - 1, rest, acc + [e])
  {
    hide BE, FromBE, PutBlob, HasTag;
    var Got(v, r) := GetBlob(s[1..]);
    e, rest := Entry(s[0], v), r;
    GetBlobInv(s[1..]);
    Split(s, 1);
    Assoc([s[0]], PutBlob(v), r);
  }

  lemma {:induction false} EncodeOnlyValid(f: seq<Entry>)
    ensures EncodeFields(OnlyValid(f)) == EncodeFields(f)
  {
    if f != [] {
      EncodeOnlyValid(f[1..]);
      if ValidTag(f[0].tag) {
        assert OnlyValid(f)[1..] == OnlyValid(f[1..]);
      }
    }
  }

  /** Distinct tags between 1 and 57 number at most 57. */
  lemma UniqueValidBounded(f: seq<Entry>)
    requires UniqueTags(f) && AllValid(f)
    ensures |f| <= MAX_TAG
  {
    TagsCardinality(f);
    SubsetCardinality(Tags(f), TagsUpTo(MAX_TAG));
  }

  function TagsUpTo(n: nat): (r: set<Byte>)
    requires n < 256
    ensures |r| == n
    ensures forall t: Byte :: t in r <==> 1 <= t <= n
  {
    if n == 0 then {} else TagsUpTo(n - 1) + {n}
  }

  lemma {:induction false} SubsetCardinality<T>(a: set<T>, b: set<T>)
    requires a <= b
    ensures |a| <= |b|
    ensures |a| == |b| ==> a == b
  {
    assert b == a + (b - a);
  }

  lemma {:induction false} TagsCardinality(f: seq<Entry>)
    requires UniqueTags(f)
    ensures |Tags(f)| == |f|
  {
    if f != [] {
      TagsCardinality(f[1..]);
      assert Tags(f) == Tags(f[1..]) + {f[0].tag} by {
        forall t | t in Tags(f) ensures t in Tags(f[1..]) + {f[0].tag} {
          var i :| 0 <= i < |f| && f[i].tag == t;
          if i > 0 { assert f[1..][i - 1].tag == t; }
        }
      }
    }
  }

  lemma {:induction false} OnlyValidSorted(f: seq<Entry>)
    requires SortedByTag(f)
    ensures SortedByTag(OnlyValid(f))
  {
    if f != [] {
      OnlyValidSorted(f[1..]);
      var r := OnlyValid(f[1..]);
      forall j | 0 <= j < |r| ensures f[0].tag <= r[j].tag {
        assert r[j] in f[1..];
      }
      hide OnlyValid;
      ConsSorted(f[0], r);
    }
  }

  lemma ConsSorted(e: Entry, r: seq<Entry>)
    requires SortedByTag(r) && forall j :: 0 <= j < |r| ==> e.tag <= r[j].tag
    ensures SortedByTag([e] + r)
  {
  }

  /** Parsing any encoding of `f`, for every list and every tie order: it
      succeeds exactly when the valid tags are distinct and no field was
      skipped, and then returns the fields in tag order.  The count in the
      record includes skipped fields, so a field with an invalid tag spoils it. */
  lemma ParseOfEncoding(f: seq<Entry>, s: seq<Entry>)
    requires IsSortOf(s, f) && Encodable(f)
    ensures ParseFields(Record(s))
         == if UniqueTags(OnlyValid(s)) && |OnlyValid(s)| == |f| % TWO32 then Some(OnlyValid(s)) else None
    ensures SortedByTag(OnlyValid(s))
    ensures forall e :: e in OnlyValid(s) <==> e in f && ValidTag(e.tag)
  {
    hide BE, FromBE, PutBlob, HasTag, EncodeFields, ParseLoop, SortedByTag, UniqueTags, FreshTags;
    assert |s| == |multiset(s)| == |multiset(f)| == |f|;
    var v := OnlyValid(s);
    forall e ensures e in s <==> e in f {
      assert e in s <==> e in multiset(s);
      assert e in f <==> e in multiset(f);
    }
    forall i | 0 <= i < |v| ensures |v[i].value| < TWO64 {
      assert v[i] in s;
      assert v[i] in f;
    }
    RecordCount(s);
    EncodeOnlyValid(s);
    ParseLoopExact(|s| % TWO32, v, []);
    FreshTagsUnique(v, []);
    assert [] + v == v;
    OnlyValidSorted(s);
    if UniqueTags(v) {
      UniqueValidBounded(v);
    }
  }

  lemma {:induction false} OnlyValidIdentity(f: seq<Entry>)
    requires AllValid(f)
    ensures OnlyValid(f) == f
  {
    if f != [] {
      OnlyValidIdentity(f[1..]);
    }
  }

  lemma SortOfUnique(s: seq<Entry>, f: seq<Entry>)
    requires IsSortOf(s, f) && UniqueTags(f)
    ensures StrictlySorted(s) && FieldMap(s) == FieldMap(f)
    ensures |s| == |f| && (AllValid(f) ==> AllValid(s))
  {
    forall e ensures e in s <==> e in f {
      assert e in s <==> e in multiset(s);
      assert e in f <==> e in multiset(f);
    }
    assert |s| == |multiset(s)| == |multiset(f)| == |f|;
    forall i, j | 0 <= i < j < |s| ensures s[i].tag < s[j].tag {
      if s[i].tag == s[j].tag {
        LookupUnique(f, s[i]);
        LookupUnique(f, s[j]);
        assert s[i] == s[j];
        CountAtLeastTwo(s, i, j);
        CountAtMostOne(f, s[i]);
      }
    }
    assert Tags(s) == Tags(f) by {
      forall t | t in Tags(s) ensures t in Tags(f) {
        var i :| 0 <= i < |s| && s[i].tag == t;
        assert s[i] in f;
      }
      forall t | t in Tags(f) ensures t in Tags(s) {
        var i :| 0 <= i < |f| && f[i].tag == t;
        assert f[i] in s;
      }
    }
    forall t | t in Tags(f) ensures FieldMap(s)[t] == FieldMap(f)[t] {
      LookupHasTag(f, t);
      var e := Entry(t, Lookup(f, t).value);
      LookupUnique(f, e);
      LookupUnique(s, e);
    }
    if AllValid(f) {
      forall i | 0 <= i < |s| ensures ValidTag(s[i].tag) {
        assert s[i] in f;
      }
    }
  }

  lemma CountAtLeastTwo(s: seq<Entry>, i: nat, j: nat)
    requires i < j < |s| && s[i] == s[j]
    ensures multiset(s)[s[i]] >= 2
  {
    assert s == s[..j] + s[j..];
    assert s[..j][i] == s[i] && s[j..][0] == s[j];
    assert s[i] in multiset(s[..j]) && s[i] in multiset(s[j..]);
    assert multiset(s) == multiset(s[..j]) + multiset(s[j..]);
  }

  lemma {:induction false} CountAtMostOne(f: seq<Entry>, e: Entry)
    requires UniqueTags(f)
    ensures multiset(f)[e] <= 1
  {
    if f != [] {
      CountAtMostOne(f[1..], e);
      assert f == [f[0]] + f[1..];
      assert multiset(f) == multiset([f[0]]) + multiset(f[1..]);
      forall i | 0 <= i < |f[1..]| ensures f[1..][i] != f[0] {
        assert f[1..][i] == f[i + 1];
      }
      assert f[0] !in multiset(f[1..]);
    }
  }

  /** A field map has exactly one tag-sorted list. */
  lemma {:induction false} SortedDetermined(a: seq<Entry>, b: seq<Entry>)
    requires StrictlySorted(a) && StrictlySorted(b)
    requires FieldMap(a) == FieldMap(b)
    ensures a == b
  {
    assert Tags(a) == FieldMap(a).Keys == FieldMap(b).Keys == Tags(b);
    TagsEmpty(a);
    TagsEmpty(b);
    if a != [] {
      assert a[0].tag in Tags(a) && b[0].tag in Tags(b);
      HeadIsLeast(a, b[0].tag);
      HeadIsLeast(b, a[0].tag);
      var t := a[0].tag;
      assert Some(FieldMap(a)[t]) == Lookup(a, t);
      assert Some(FieldMap(b)[t]) == Lookup(b, t);
      assert a[0] == b[0];
      TailMap(a);
      TailMap(b);
      SortedDetermined(a[1..], b[1..]);
      assert a == [a[0]] + a[1..] && b == [b[0]] + b[1..];
    }
  }

  lemma TagsEmpty(f: seq<Entry>)
    ensures Tags(f) == {} <==> f == []
  {
    if f != [] {
      assert f[0].tag in Tags(f);
    }
  }

  lemma HeadIsLeast(a: seq<Entry>, t: Byte)
    requires StrictlySorted(a) && t in Tags(a)
    ensures a != [] && a[0].tag <= t
  {
    var i :| 0 <= i < |a| && a[i].tag == t;
  }

  lemma TailMap(a: seq<Entry>)
    requires StrictlySorted(a) && a != []
    ensures FieldMap(a[1..]) == FieldMap(a) - {a[0].tag}
  {
    assert Tags(a[1..]) == Tags(a) - {a[0].tag} by {
      forall t | t in Tags(a) - {a[0].tag} ensures t in Tags(a[1..]) {
        var i :| 0 <= i < |a| && a[i].tag == t;
        assert a[1..][i - 1].tag == t;
      }
    }
    forall t | t in Tags(a[1..]) ensures FieldMap(a[1..])[t] == FieldMap(a)[t] {
      LookupHasTag(a[1..], t);
    }
  }

  /** Round trip: distinct in-range tags come back, in tag order, with the same meaning. */
  lemma RoundTrip(f: seq<Entry>, b: Bytes)
    requires Encodes(f, b) && Encodable(f) && UniqueTags(f) && AllValid(f)
    ensures ParseFields(b).Some?
    ensures StrictlySorted(ParseFields(b).value)
    ensures FieldMap(ParseFields(b).value) == FieldMap(f)
  {
    var s :| IsSortOf(s, f) && b == Record(s);
    RoundTripSorted(f, s);
  }

  lemma RoundTripSorted(f: seq<Entry>, s: seq<Entry>)
    requires IsSortOf(s, f) && Encodable(f) && UniqueTags(f) && AllValid(f)
    ensures ParseFields(Record(s)) == Some(s)
    ensures StrictlySorted(s) && FieldMap(s) == FieldMap(f)
  {
    SortOfUnique(s, f);
    SortEncodable(s, f);
    ParseOfRecord(s);
  }

  lemma ParseOfRecord(s: seq<Entry>)
    requires UniqueTags(s) && AllValid(s) && Encodable(s)
    ensures ParseFields(Record(s)) == Some(s)
  {
    hide ParseLoop, BE, FromBE, EncodeFields, UniqueTags, AllValid, Encodable;
    var r := EncodeFields(s);
    assert |s| <= MAX_TAG by { UniqueValidBounded(s); }
    assert GetUint(4, Record(s)) == Got(|s|, r) by {
      RecordCount(s);
      assert |s| % TWO32 == |s|;
    }
    ParseFieldsUnfolds(Record(s), |s|, r);
    ParseLoopOfUnique(s);
  }

  lemma ParseFieldsUnfolds(b: Bytes, count: nat, rest: Bytes)
    requires GetUint(4, b) == Got(count, rest) && count <= MAX_COUNT
    ensures ParseFields(b) == ParseLoop(count, rest, [])
  {
  }

  lemma RecordCount(s: seq<Entry>)
    ensures GetUint(4, Record(s)) == Got(|s| % TWO32, EncodeFields(s))
  {
    Pow256Values();
    GetUintPut(4, |s| % TWO32, EncodeFields(s));
  }

  lemma ParseLoopOfUnique(s: seq<Entry>)
    requires UniqueTags(s) && AllValid(s) && Encodable(s)
    ensures ParseLoop(|s|, EncodeFields(s), []) == Some(s)
  {
    ParseLoopExact(|s|, s, []);
    assert [] + s == s;
    FreshTagsUnique(s, []);
  }

  /** Order independence and injectivity: two lists of distinct in-range tags
      encode to the same bytes if and only if they mean the same map. */
  lemma EncodingIffMap(f: seq<Entry>, g: seq<Entry>, b: Bytes, c: Bytes)
    requires Encodes(f, b) && Encodable(f) && UniqueTags(f) && AllValid(f)
    requires Encodes(g, c) && Encodable(g) && UniqueTags(g) && AllValid(g)
    ensures b == c <==> FieldMap(f) == FieldMap(g)
  {
    RoundTrip(f, b);
    RoundTrip(g, c);
    if FieldMap(f) == FieldMap(g) {
      var s :| IsSortOf(s, f) && b == Record(s);
      var t :| IsSortOf(t, g) && c == Record(t);
      SortOfUnique(s, f);
      SortOfUnique(t, g);
      SortedDetermined(s, t);
    }
  }

  /** A record that parses re-encodes to itself if and only if its fields were
      written in tag order. */
  lemma ReencodeIffSorted(b: Bytes, f: seq<Entry>, c: Bytes)
    requires ParseFields(b) == Some(f) && Encodes(f, c)
    ensures AllValid(f) && UniqueTags(f) && Encodable(f)
    ensures b == c <==> SortedByTag(f)
  {
    ParsedIsRecord(b, f);
    var s :| IsSortOf(s, f) && c == Record(s);
    RoundTripSorted(f, s);
    if b == c {
      assert f == s;
    }
    if SortedByTag(f) {
      SortedDetermined(s, f);
    }
  }

  lemma ParsedIsRecord(b: Bytes, f: seq<Entry>)
    requires ParseFields(b) == Some(f)
    ensures AllValid(f) && UniqueTags(f) && Encodable(f)
    ensures b == Record(f)
  {
    hide ParseLoop, BE, FromBE, EncodeFields, UniqueTags, AllValid, Encodable;
    var Got(count, rest) := GetUint(4, b);
    assert count <= MAX_COUNT;
    ParseFieldsUnfolds(b, count, rest);
    ParsedLoopIsFields(count, rest, f);
    assert b == BE(4, count) + rest by { GetUintInv(4, b); }
    assert count % TWO32 == count;
  }

  lemma ParsedLoopIsFields(count: nat, rest: Bytes, f: seq<Entry>)
    requires ParseLoop(count, rest, []) == Some(f)
    ensures |f| == count && AllValid(f) && UniqueTags(f) && Encodable(f)
    ensures rest == EncodeFields(f)
  {
    ParseLoopInv(count, rest, []);
    assert f[0..] == f;
    FreshTagsUnique(f, []);
    assert [] + f == f;
  }

  /** The limit on the count never decides: tags may not repeat, so a record with
      more than 57 fields is refused anyway. */
  lemma CountLimitIsRedundant(count: nat, rest: Bytes)
    requires count > 57
    ensures ParseLoop(count, rest, []) == None
  {
    hide ParseLoop, EncodeFields;
    if ParseLoop(count, rest, []).Some? {
      var f := ParseLoop(count, rest, []).value;
      ParsedLoopIsFields(count, rest, f);
      UniqueValidBounded(f);
    }
  }
}
