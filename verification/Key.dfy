/** `CompilationKey` of src/Key.cpp: a tag-sorted vector of fields that stands
    for a finite map from tag to encoded value. */
module Key {
  import opened Wire
  import opened Canonical
  import Order

  // ----------------------------------------------------- field encoders

  type Digest = d: Bytes | |d| == 32 witness seq(32, i => 0)
  type I64 = x: int | -0x8000_0000_0000_0000 <= x < 0x8000_0000_0000_0000

  /** `static_cast<uint64_t>` of a signed value. */
  function ToU64(x: I64): U64 { if x < 0 then x + TWO64 else x }

  function EncString(s: Bytes): Bytes { PutBlob(s) }
  function EncU8(v: Byte): Bytes { [v] }
  function EncU64(v: U64): Bytes { BE(8, v) }
  function EncId(v: Id128): Bytes { PutId(v) }
  function EncDigest(d: Digest): Bytes { d }

  function EncList(vs: seq<U64>): (r: Bytes)
    ensures |r| == 8 * |vs|
  {
    if vs == [] then [] else BE(8, vs[0]) + EncList(vs[1..])
  }

  /** `encU64s`; `encShape` is the same list after the signed-to-unsigned cast. */
  function EncU64s(vs: seq<U64>): Bytes { BE(4, |vs| % TWO32) + EncList(vs) }

  function ToU64s(s: seq<I64>): seq<U64> { seq(|s|, i requires 0 <= i < |s| => ToU64(s[i])) }

  function EncShape(s: seq<I64>): Bytes { EncU64s(ToU64s(s)) }

  function EncIdList(ids: seq<Id128>): Bytes {
    if ids == [] then [] else PutId(ids[0]) + EncIdList(ids[1..])
  }

  function EncIds(ids: seq<Id128>): Bytes { BE(4, |ids| % TWO32) + EncIdList(ids) }

  // ----------------------------------------------------- field decoders

  function DecU64(v: Bytes): Option<U64> {
    match GetUint(8, v)
    case Short => None
    case Got(x, rest) => if rest == [] then Pow256Values(); FromBEBound(v[..8]); Some(x) else None
  }

  function DecId(v: Bytes): Option<Id128> {
    match GetId(v)
    case Short => None
    case Got(x, rest) => if rest == [] then Some(x) else None
  }

  lemma DecIdOfEnc(v: Id128)
    ensures DecId(EncId(v)) == Some(v)
  {
    GetIdPut(v, []);
    assert PutId(v) + [] == PutId(v);
  }

  function DecString(v: Bytes): Option<Bytes> {
    match GetBlob(v)
    case Short => None
    case Got(x, rest) => if rest == [] then Some(x) else None
  }

  /** `getDigest`: reads a length-prefixed blob and ignores what follows it. */
  function DecDigest(v: Bytes): Option<Digest> {
    match GetBlob(v)
    case Short => None
    case Got(x, _) => if |x| == 32 then Some(x) else None
  }

  /** Strings and 64-bit values that were set are read back. */
  lemma ScalarsReadBack(s: Bytes, v: U64)
    requires |s| < TWO64
    ensures DecString(EncString(s)) == Some(s) && DecU64(EncU64(v)) == Some(v)
  {
    hide BE, FromBE, PutBlob;
    GetBlobPut(s, []);
    assert PutBlob(s) + [] == PutBlob(s);
    GetU64Put(v, []);
    assert BE(8, v) + [] == BE(8, v);
  }

  lemma {:induction false} EncListInjective(a: seq<U64>, b: seq<U64>)
    requires EncList(a) == EncList(b)
    ensures a == b
  {
    if a != [] {
      assert |a| == |b|;
      var x, y := EncList(a), EncList(b);
      assert x[..8] == BE(8, a[0]) && y[..8] == BE(8, b[0]);
      assert x[8..] == EncList(a[1..]) && y[8..] == EncList(b[1..]);
      Pow256Values();
      FromBEofBE(8, a[0]);
      FromBEofBE(8, b[0]);
      EncListInjective(a[1..], b[1..]);
      assert a == [a[0]] + a[1..] && b == [b[0]] + b[1..];
    }
  }

  /** Lists and shapes are encoded injectively, also beyond the 32-bit count. */
  lemma EncU64sInjective(a: seq<U64>, b: seq<U64>)
    ensures EncU64s(a) == EncU64s(b) <==> a == b
  {
    if EncU64s(a) == EncU64s(b) {
      assert EncU64s(a)[4..] == EncList(a) && EncU64s(b)[4..] == EncList(b);
      EncListInjective(a, b);
    }
  }

  lemma EncShapeInjective(a: seq<I64>, b: seq<I64>)
    ensures EncShape(a) == EncShape(b) <==> a == b
  {
    EncU64sInjective(ToU64s(a), ToU64s(b));
    if ToU64s(a) == ToU64s(b) {
      forall i | 0 <= i < |a| ensures a[i] == b[i] {
        assert ToU64s(a)[i] == ToU64s(b)[i];
      }
    }
  }

  lemma EncStringInjective(a: Bytes, b: Bytes)
    ensures EncString(a) == EncString(b) <==> a == b
  {
    assert EncString(a)[8..] == a && EncString(b)[8..] == b;
  }

  lemma EncU64Injective(a: U64, b: U64)
    ensures EncU64(a) == EncU64(b) <==> a == b
  {
    Pow256Values();
    FromBEofBE(8, a);
    FromBEofBE(8, b);
  }

  lemma EncIdInjective(a: Id128, b: Id128)
    ensures EncId(a) == EncId(b) <==> a == b
  {
    assert EncId(a)[..8] == BE(8, a.hi) && EncId(a)[8..] == BE(8, a.lo);
    assert EncId(b)[..8] == BE(8, b.hi) && EncId(b)[8..] == BE(8, b.lo);
    EncU64Injective(a.hi, b.hi);
    EncU64Injective(a.lo, b.lo);
  }

  lemma {:induction false} EncIdListInjective(a: seq<Id128>, b: seq<Id128>)
    requires EncIdList(a) == EncIdList(b)
    ensures a == b
  {
    EncIdListLength(a);
    EncIdListLength(b);
    if a != [] {
      var x, y := EncIdList(a), EncIdList(b);
      assert x[..16] == PutId(a[0]) && y[..16] == PutId(b[0]);
      assert x[16..] == EncIdList(a[1..]) && y[16..] == EncIdList(b[1..]);
      EncIdInjective(a[0], b[0]);
      EncIdListInjective(a[1..], b[1..]);
      assert a == [a[0]] + a[1..] && b == [b[0]] + b[1..];
    }
  }

  lemma {:induction false} EncIdListLength(a: seq<Id128>)
    ensures |EncIdList(a)| == 16 * |a|
  {
    if a != [] {
      EncIdListLength(a[1..]);
    }
  }

  /** Lists of identities are encoded injectively. */
  lemma EncIdsInjective(a: seq<Id128>, b: seq<Id128>)
    ensures EncIds(a) == EncIds(b) <==> a == b
  {
    if EncIds(a) == EncIds(b) {
      assert EncIds(a)[4..] == EncIdList(a) && EncIds(b)[4..] == EncIdList(b);
      EncIdListInjective(a, b);
    }
  }

  /** A dependency-generation list is never readable as one 64-bit generation:
      its 4-byte count makes the length differ from 8 for every list. */
  lemma ListNeverReadsAsU64(vs: seq<U64>)
    ensures DecU64(EncU64s(vs)) == None
  {
    var v := EncU64s(vs);
    assert |v| == 4 + 8 * |vs|;
    if GetUint(8, v).Got? {
      assert |GetUint(8, v).rest| == |v| - 8;
    }
  }

  /** `getDigest` succeeds exactly on a blob whose length prefix is 32 ... */
  lemma DigestGetterExact(v: Bytes)
    ensures DecDigest(v).Some? <==> |v| >= 40 && v[..8] == BE(8, 32)
  {
    if |v| >= 8 {
      FromBEofBE32(v[..8]);
    }
  }

  lemma FromBEofBE32(b: Bytes)
    requires |b| == 8
    ensures FromBE(b) == 32 <==> b == BE(8, 32)
  {
    Pow256Values();
    FromBEofBE(8, 32);
    BEofFromBE(b);
  }

  /** ... and `encDigest` never writes one, so a digest that was set is never read back. */
  lemma DigestNeverReadsBack(d: Digest)
    ensures DecDigest(EncDigest(d)) == None
  {
    DigestGetterExact(d);
  }

  // ----------------------------------------------------- the key as a map

  function PutField(f: seq<Entry>, t: Byte, v: Bytes): seq<Entry> {
    if f == [] || f[0].tag > t then [Entry(t, v)] + f
    else if f[0].tag == t then [Entry(t, v)] + f[1..]
    else [f[0]] + PutField(f[1..], t, v)
  }

  lemma {:induction false} PutFieldRefinesMap(f: seq<Entry>, t: Byte, v: Bytes)
    requires StrictlySorted(f)
    ensures StrictlySorted(PutField(f, t, v))
    ensures Tags(PutField(f, t, v)) == Tags(f) + {t}
    ensures FieldMap(PutField(f, t, v)) == FieldMap(f)[t := v]
  {
    hide PutField, StrictlySorted, Lookup;
    PutFieldSorted(f, t, v);
    PutFieldTags(f, t, v);
    forall u | u in Tags(f) + {t}
      ensures FieldMap(PutField(f, t, v))[u] == FieldMap(f)[t := v][u]
    {
      PutFieldLookup(f, t, v, u);
      LookupHasTag(f, u);
    }
  }

  lemma {:induction false} PutFieldSorted(f: seq<Entry>, t: Byte, v: Bytes)
    requires StrictlySorted(f)
    ensures StrictlySorted(PutField(f, t, v))
  {
    if f != [] && f[0].tag < t {
      var q := PutField(f[1..], t, v);
      PutFieldSorted(f[1..], t, v);
      PutFieldTags(f[1..], t, v);
      forall j | 0 <= j < |q| ensures f[0].tag < q[j].tag {
        assert q[j].tag in Tags(q);
        TailAbove(f, q[j].tag);
      }
    }
  }

  lemma {:induction false} PutFieldTags(f: seq<Entry>, t: Byte, v: Bytes)
    ensures Tags(PutField(f, t, v)) == Tags(f) + {t}
  {
    if f == [] || f[0].tag > t {
      TagsCons(Entry(t, v), f);
    } else {
      assert f == [f[0]] + f[1..];
      TagsCons(f[0], f[1..]);
      if f[0].tag == t {
        TagsCons(Entry(t, v), f[1..]);
      } else {
        PutFieldTags(f[1..], t, v);
        TagsCons(f[0], PutField(f[1..], t, v));
      }
    }
  }

  lemma TailAbove(f: seq<Entry>, t: Byte)
    requires StrictlySorted(f) && f != []
    ensures t in Tags(f[1..]) ==> f[0].tag < t
  {
    if t in Tags(f[1..]) {
      var k :| 0 <= k < |f[1..]| && f[1..][k].tag == t;
    }
  }

  lemma TagsCons(e: Entry, f: seq<Entry>)
    ensures Tags([e] + f) == {e.tag} + Tags(f)
  {
    var g := [e] + f;
    forall t | t in Tags(g) ensures t in {e.tag} + Tags(f) {
      var i :| 0 <= i < |g| && g[i].tag == t;
      if i > 0 { assert f[i - 1].tag == t; }
    }
    forall t | t in {e.tag} + Tags(f) ensures t in Tags(g) {
      if t == e.tag {
        assert g[0].tag == t;
      } else {
        var i :| 0 <= i < |f| && f[i].tag == t;
        assert g[i + 1].tag == t;
      }
    }
  }

  lemma {:induction false} PutFieldLookup(f: seq<Entry>, t: Byte, v: Bytes, u: Byte)
    ensures Lookup(PutField(f, t, v), u) == if u == t then Some(v) else Lookup(f, u)
  {
    if f != [] && f[0].tag < t {
      PutFieldLookup(f[1..], t, v, u);
    }
  }

  /** Setting two different fields commutes. */
  lemma {:induction false} PutFieldCommutes(f: seq<Entry>, t: Byte, v: Bytes, u: Byte, w: Bytes)
    requires StrictlySorted(f) && t != u
    ensures PutField(PutField(f, t, v), u, w) == PutField(PutField(f, u, w), t, v)
  {
    if f != [] && f[0].tag < t && f[0].tag < u {
      PutFieldCommutes(f[1..], t, v, u, w);
      assert PutField(f, t, v)[1..] == PutField(f[1..], t, v);
      assert PutField(f, u, w)[1..] == PutField(f[1..], u, w);
    } else if t < u {
      PutBelow(f, t, v, u, w);
    } else {
      PutBelow(f, u, w, t, v);
    }
  }

  lemma PutBelow(f: seq<Entry>, t: Byte, v: Bytes, u: Byte, w: Bytes)
    requires StrictlySorted(f) && t < u
    requires f == [] || t <= f[0].tag
    ensures PutField(PutField(f, t, v), u, w) == PutField(PutField(f, u, w), t, v)
  {
    var x := Entry(t, v);
    if f != [] && f[0].tag == t {
      assert PutField(f, t, v) == [x] + f[1..];
      assert ([x] + f[1..])[1..] == f[1..];
      assert PutField(f, u, w)[1..] == PutField(f[1..], u, w);
    } else {
      assert PutField(f, t, v) == [x] + f;
      assert ([x] + f)[1..] == f;
    }
  }

  /** Setting one field twice keeps the last value. */
  lemma {:induction false} LastPutWins(f: seq<Entry>, t: Byte, v: Bytes, w: Bytes)
    ensures PutField(PutField(f, t, v), t, w) == PutField(f, t, w)
  {
    if f != [] && f[0].tag < t {
      LastPutWins(f[1..], t, v, w);
      assert PutField(f, t, v)[1..] == PutField(f[1..], t, v);
    } else {
      var rest := if f != [] && f[0].tag == t then f[1..] else f;
      assert PutField(f, t, v) == [Entry(t, v)] + rest;
      assert PutField(f, t, v)[1..] == rest;
    }
  }

  function PutAll(f: seq<Entry>, sets: seq<Entry>): seq<Entry>
    decreases sets
  {
    if sets == [] then f else PutAll(PutField(f, sets[0].tag, sets[0].value), sets[1..])
  }

  function UpdateAll(m: map<Byte, Bytes>, sets: seq<Entry>): map<Byte, Bytes>
    decreases sets
  {
    if sets == [] then m else UpdateAll(m[sets[0].tag := sets[0].value], sets[1..])
  }

  /** Any sequence of setters on any sorted key is the same sequence of map updates. */
  lemma {:induction false} SettersRefineMap(f: seq<Entry>, sets: seq<Entry>)
    requires StrictlySorted(f)
    ensures StrictlySorted(PutAll(f, sets))
    ensures FieldMap(PutAll(f, sets)) == UpdateAll(FieldMap(f), sets)
    decreases sets
  {
    if sets != [] {
      PutFieldRefinesMap(f, sets[0].tag, sets[0].value);
      SettersRefineMap(PutField(f, sets[0].tag, sets[0].value), sets[1..]);
    }
  }

  // ----------------------------------------------------- equality and order

  predicate KeyEq(a: seq<Entry>, b: seq<Entry>) {
    |a| == |b| && forall i :: 0 <= i < |a| ==> Lookup(b, a[i].tag) == Some(a[i].value)
  }

  predicate ByteLt(x: Byte, y: Byte) { x < y }

  predicate EntryLt(x: Entry, y: Entry) {
    if x.tag != y.tag then x.tag < y.tag else Order.Lex(ByteLt, x.value, y.value)
  }

  predicate KeyLt(a: seq<Entry>, b: seq<Entry>) { Order.Lex(EntryLt, a, b) }

  /** Byte strings are ordered by their first difference, smaller byte or end first. */
  lemma BytesOrdered(a: Bytes, b: Bytes)
    ensures Order.Lex(ByteLt, a, b)
       <==> exists k: nat :: k <= |a| && k < |b| && a[..k] == b[..k] && (k == |a| || a[k] < b[k])
  {
    assert Order.StrictTotal(ByteLt);
    Order.LexIff(ByteLt, a, b);
    if k: nat :| k <= |a| && k < |b| && a[..k] == b[..k] && (k == |a| || a[k] < b[k]) {
      assert Order.DiffersAt(ByteLt, a, b, k);
    }
    hide Order.Lex;
  }

  /** `operator==` compares the maps, in whatever order the fields are held. */
  lemma KeyEqIffMap(a: seq<Entry>, b: seq<Entry>)
    requires UniqueTags(a) && UniqueTags(b)
    ensures KeyEq(a, b) <==> FieldMap(a) == FieldMap(b)
  {
    TagsCardinality(a);
    TagsCardinality(b);
    if KeyEq(a, b) {
      forall t | t in Tags(a) ensures t in Tags(b) && FieldMap(a)[t] == FieldMap(b)[t] {
        var i :| 0 <= i < |a| && a[i].tag == t;
        LookupUnique(a, a[i]);
        LookupHasTag(b, t);
      }
      SubsetCardinality(Tags(a), Tags(b));
    }
    if FieldMap(a) == FieldMap(b) {
      assert Tags(a) == FieldMap(a).Keys == FieldMap(b).Keys == Tags(b);
      forall i | 0 <= i < |a| ensures Lookup(b, a[i].tag) == Some(a[i].value) {
        var t := a[i].tag;
        LookupUnique(a, a[i]);
        assert t in Tags(a);
        assert FieldMap(a)[t] == FieldMap(b)[t];
        LookupHasTag(b, t);
      }
    }
  }

  lemma EntryLtStrictTotal()
    ensures Order.StrictTotal(EntryLt)
  {
    assert Order.StrictTotal(ByteLt);
    forall x: Entry ensures !EntryLt(x, x) {
      Order.LexIrreflexive(ByteLt, x.value);
    }
    forall x: Entry, y: Entry, z: Entry | EntryLt(x, y) && EntryLt(y, z) ensures EntryLt(x, z) {
      if x.tag == y.tag && y.tag == z.tag {
        Order.LexTransitive(ByteLt, x.value, y.value, z.value);
      }
    }
    forall x: Entry, y: Entry ensures x == y || EntryLt(x, y) || EntryLt(y, x) {
      Order.LexTotal(ByteLt, x.value, y.value);
    }
  }

  /** `operator<` is a strict total order on field vectors ... */
  lemma KeyLtStrictTotal(a: seq<Entry>, b: seq<Entry>, c: seq<Entry>)
    ensures !KeyLt(a, a)
    ensures KeyLt(a, b) && KeyLt(b, c) ==> KeyLt(a, c)
    ensures a == b || KeyLt(a, b) || KeyLt(b, a)
    ensures !(KeyLt(a, b) && KeyLt(b, a))
  {
    EntryLtStrictTotal();
    Order.LexIrreflexive(EntryLt, a);
    Order.LexTotal(EntryLt, a, b);
    if KeyLt(a, b) && KeyLt(b, c) {
      Order.LexTransitive(EntryLt, a, b, c);
    }
    if KeyLt(a, b) && KeyLt(b, a) {
      Order.LexTransitive(EntryLt, a, b, a);
    }
  }

  function TagOrder(f: seq<Entry>): seq<Byte> { seq(|f|, i requires 0 <= i < |f| => f[i].tag) }

  /** ... so on keys with distinct tags, neither key being less is finer than
      `operator==` by exactly the order of the fields. */
  lemma EquivalenceExact(a: seq<Entry>, b: seq<Entry>)
    requires UniqueTags(a) && UniqueTags(b)
    ensures !KeyLt(a, b) && !KeyLt(b, a) <==> KeyEq(a, b) && TagOrder(a) == TagOrder(b)
  {
    KeyLtStrictTotal(a, b, b);
    KeyEqIffMap(a, b);
    if KeyEq(a, b) && TagOrder(a) == TagOrder(b) {
      forall i | 0 <= i < |a| ensures a[i] == b[i] {
        assert TagOrder(a)[i] == TagOrder(b)[i];
        LookupUnique(b, b[i]);
      }
      assert a == b;
      KeyLtStrictTotal(a, a, a);
    }
    if !KeyLt(a, b) && !KeyLt(b, a) {
      assert a == b;
    }
  }

  /** On keys built by setters, which are tag-sorted, the two agree, so a
      `std::map` ordered by `<` is keyed by the field map. */
  lemma SortedKeysAgree(a: seq<Entry>, b: seq<Entry>)
    requires StrictlySorted(a) && StrictlySorted(b)
    ensures !KeyLt(a, b) && !KeyLt(b, a) <==> KeyEq(a, b)
    ensures KeyEq(a, b) <==> a == b
  {
    EquivalenceExact(a, b);
    KeyEqIffMap(a, b);
    if KeyEq(a, b) {
      SortedDetermined(a, b);
    }
  }

  /** Parsed keys keep wire order: these two are `==` and yet one is less than the other. */
  lemma WireOrderBreaksAgreement()
    ensures exists b1: Bytes, b2: Bytes ::
              && ParseFields(b1).Some? && ParseFields(b2).Some?
              && KeyEq(ParseFields(b1).value, ParseFields(b2).value)
              && KeyLt(ParseFields(b1).value, ParseFields(b2).value)
  {
    var x, y := Entry(1, []), Entry(2, []);
    var f, g := [x, y], [y, x];
    assert ParseFields(Record(f)) == Some(f) by { ParseOfRecord(f); }
    assert ParseFields(Record(g)) == Some(g) by { ParseOfRecord(g); }
    assert KeyEq(f, g) by {
      assert g[1..] == [x];
      assert Lookup(g, 2) == Some([]);
      assert Lookup([x], 1) == Some([]);
    }
    assert EntryLt(f[0], g[0]);
    assert KeyLt(f, g);
  }

  // ----------------------------------------------------- the class

  /** `std::remove_if` on the tag. */
  method RemoveTag(f: seq<Entry>, t: Byte) returns (kept: seq<Entry>)
    ensures kept == Without(f, t)
  {
    kept := [];
    for i := 0 to |f|
      invariant kept == Without(f[..i], t)
    {
      assert f[..i + 1] == f[..i] + [f[i]];
      WithoutSnoc(f[..i], f[i], t);
      if f[i].tag != t {
        kept := kept + [f[i]];
      }
    }
    assert f[..|f|] == f;
  }

  /** `std::lower_bound` by tag. */
  method LowerBound(f: seq<Entry>, t: Byte) returns (k: nat)
    requires StrictlySorted(f)
    ensures k <= |f|
    ensures forall j :: 0 <= j < k ==> f[j].tag < t
    ensures forall j :: k <= j < |f| ==> f[j].tag >= t
  {
    var lo, hi := 0, |f|;
    while lo < hi
      invariant 0 <= lo <= hi <= |f|
      invariant forall j :: 0 <= j < lo ==> f[j].tag < t
      invariant forall j :: hi <= j < |f| ==> f[j].tag >= t
    {
      var mid := (lo + hi) / 2;
      if f[mid].tag < t {
        lo := mid + 1;
      } else {
        hi := mid;
      }
    }
    k := lo;
  }

  class CompilationKey {
    var fields: seq<Entry>

    ghost predicate Valid()
      reads this
    {
      StrictlySorted(fields)
    }

    ghost function Contents(): map<Byte, Bytes>
      reads this
    {
      FieldMap(fields)
    }

    constructor ()
      ensures Valid() && Contents() == map[] && fields == []
    {
      fields := [];
    }

    /** Erase any field with this tag, then insert at the lower bound. */
    method Put(value: Bytes, t: Byte)
      requires Valid()
      modifies this
      ensures Valid()
      ensures fields == PutField(old(fields), t, value)
      ensures Contents() == old(Contents())[t := value]
    {
      var kept := RemoveTag(fields, t);
      WithoutSorted(fields, t);
      var k := LowerBound(kept, t);
      forall j | k <= j < |kept| ensures kept[j].tag > t {
        WithoutMember(fields, t, j);
      }
      InsertIsPut(kept, k, t, value);
      PutAfterWithout(fields, t, value);
      PutFieldRefinesMap(fields, t, value);
      fields := kept[..k] + [Entry(t, value)] + kept[k..];
    }

    method Find(t: Byte) returns (r: Option<Bytes>)
      ensures r == Lookup(fields, t)
    {
      for i := 0 to |fields|
        invariant Lookup(fields, t) == Lookup(fields[i..], t)
      {
        if fields[i].tag == t { return Some(fields[i].value); }
      }
      return None;
    }

    method Equals(o: CompilationKey) returns (b: bool)
      ensures b <==> KeyEq(fields, o.fields)
    {
      if |fields| != |o.fields| { return false; }
      for i := 0 to |fields|
        invariant forall k :: 0 <= k < i ==> Lookup(o.fields, fields[k].tag) == Some(fields[k].value)
      {
        var oe := o.Find(fields[i].tag);
        if oe.None? || oe.value != fields[i].value { return false; }
      }
      return true;
    }

    method Less(o: CompilationKey) returns (b: bool)
      ensures b <==> KeyLt(fields, o.fields)
    {
      var i := 0;
      while i < |fields| && i < |o.fields|
        invariant 0 <= i <= |fields| && i <= |o.fields|
        invariant KeyLt(fields, o.fields) <==> KeyLt(fields[i..], o.fields[i..])
      {
        if EntryLt(fields[i], o.fields[i]) { return true; }
        if EntryLt(o.fields[i], fields[i]) { return false; }
        assert fields[i..][1..] == fields[i + 1..] && o.fields[i..][1..] == o.fields[i + 1..];
        i := i + 1;
      }
      return i < |o.fields|;
    }
  }

  ghost function Without(f: seq<Entry>, t: Byte): seq<Entry> {
    if f == [] then []
    else if f[0].tag == t then Without(f[1..], t)
    else [f[0]] + Without(f[1..], t)
  }

  lemma {:induction false} WithoutSnoc(f: seq<Entry>, e: Entry, t: Byte)
    ensures Without(f + [e], t) == Without(f, t) + (if e.tag != t then [e] else [])
  {
    if f == [] {
      assert f + [e] == [e] && [e][1..] == [];
    } else {
      var g := f + [e];
      WithoutSnoc(f[1..], e, t);
      assert g[0] == f[0] && g[1..] == f[1..] + [e];
    }
  }

  lemma {:induction false} WithoutMember(f: seq<Entry>, t: Byte, j: nat)
    requires j < |Without(f, t)|
    ensures Without(f, t)[j] in f && Without(f, t)[j].tag != t
  {
    if f[0].tag == t {
      WithoutMember(f[1..], t, j);
    } else if j > 0 {
      WithoutMember(f[1..], t, j - 1);
    }
  }

  lemma {:induction false} WithoutSorted(f: seq<Entry>, t: Byte)
    requires StrictlySorted(f)
    ensures StrictlySorted(Without(f, t))
  {
    if f != [] {
      WithoutSorted(f[1..], t);
      var r := Without(f[1..], t);
      forall j | 0 <= j < |r| ensures f[0].tag < r[j].tag {
        WithoutMember(f[1..], t, j);
      }
    }
  }

  lemma {:induction false} InsertIsPut(f: seq<Entry>, k: nat, t: Byte, v: Bytes)
    requires k <= |f|
    requires forall j :: 0 <= j < k ==> f[j].tag < t
    requires forall j :: k <= j < |f| ==> f[j].tag > t
    ensures f[..k] + [Entry(t, v)] + f[k..] == PutField(f, t, v)
  {
    if k > 0 {
      InsertIsPut(f[1..], k - 1, t, v);
      assert f[1..][..k - 1] == f[1..k] && f[1..][k - 1..] == f[k..];
      assert f[..k] == [f[0]] + f[1..k];
    }
  }

  lemma {:induction false} PutAfterWithout(f: seq<Entry>, t: Byte, v: Bytes)
    requires StrictlySorted(f)
    ensures PutField(Without(f, t), t, v) == PutField(f, t, v)
  {
    if f != [] {
      if f[0].tag >= t {
        WithoutNothing(f[1..], t);
        if f[0].tag > t { WithoutNothing(f, t); }
        assert PutField(f[1..], t, v) == [Entry(t, v)] + f[1..];
      } else {
        PutAfterWithout(f[1..], t, v);
      }
    }
  }

  lemma {:induction false} WithoutNothing(f: seq<Entry>, t: Byte)
    requires forall j :: 0 <= j < |f| ==> f[j].tag > t
    ensures Without(f, t) == f
  {
    if f != [] {
      WithoutNothing(f[1..], t);
    }
  }
}
