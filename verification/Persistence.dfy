/** The two-file artifact store of src/Persistence.cpp: names, metadata codec,
    store, load, list and recover over a flat directory. */
module Persistence {
  import opened Wire
  import opened Canonical
  import opened Key
  import opened Hex
  import J = Json
  import JT = JsonTheorems

  /** The digest and the floating-point library are parameters. */
  datatype Lib = Lib(hash: Bytes -> Digest, floats: J.Floats)

  // ---------------------------------------------------------------- names

  function Text(b: Bytes): (s: string)
    ensures |s| == |b|
  {
    seq(|b|, i requires 0 <= i < |b| => b[i] as char)
  }

  const META: Bytes := [46, 109, 101, 116, 97]
  const BIN: Bytes := [46, 98, 105, 110]
  const TMP: Bytes := [46, 116, 109, 112]
  const UNDERSCORE: Byte := 95

  function Stem(id: Id128, gen: U64): Bytes { Ascii(IdHex(id)) + ([UNDERSCORE] + J.Decimal(gen)) }
  function MetaName(id: Id128, gen: U64): Bytes { Stem(id, gen) + META }
  function BinName(id: Id128, gen: U64): Bytes { Stem(id, gen) + BIN }

  predicate HasSuffix(name: Bytes, suffix: Bytes) {
    |name| >= |suffix| && name[|name| - |suffix|..] == suffix
  }

  /** The first underscore, or the length. */
  function FindUnderscore(name: Bytes): (k: nat)
    ensures k <= |name|
  {
    if name == [] || name[0] == UNDERSCORE then 0 else 1 + FindUnderscore(name[1..])
  }

  /** `strtoull` in base 10: space and sign are accepted, the digits that follow
      are read, and overflow saturates. */
  function ToGeneration(s: Bytes): U64 {
    var t := J.SkipSpace(s);
    var neg := J.Starts(t, J.MINUS);
    var u := if neg || J.Starts(t, J.PLUS) then t[1..] else t;
    var v := J.DecimalValue(u[..J.Run(u, J.IsDigit)]);
    if v < 0 || v >= TWO64 then TWO64 - 1 else if neg then (TWO64 - v) % TWO64 else v
  }

  /** What `list` reads off a file name. */
  function ParseName(name: Bytes): Option<(Id128, U64)> {
    var us := FindUnderscore(name);
    if !HasSuffix(name, META) || us == |name| || us + 1 > |name| - 5 then None else
      match ParseId(Text(name[..us]))
      case None => None
      case Some(id) => Some((id, ToGeneration(name[us + 1..|name| - 5])))
  }

  // ------------------------------------------------------------- documents

  const K_ID: Bytes := [105, 100]
  const K_GENERATION: Bytes := [103, 101, 110, 101, 114, 97, 116, 105, 111, 110]
  const K_DIGEST: Bytes := [99, 111, 110, 116, 101, 110, 116, 95, 100, 105, 103, 101, 115, 116]
  const K_INVALIDATED: Bytes := [105, 110, 118, 97, 108, 105, 100, 97, 116, 101, 100]
  const K_SUPERSEDED: Bytes := [115, 117, 112, 101, 114, 115, 101, 100, 101, 100]

  /** A descriptor is carried as the members of its JSON document. */
  type Doc = seq<J.Member>

  function Find(ms: Doc, k: Bytes): Option<J.Json> {
    if ms == [] then None else if ms[0].key == k then Some(ms[0].value) else Find(ms[1..], k)
  }

  function StringAt(ms: Doc, k: Bytes): Bytes {
    match Find(ms, k)
    case Some(Str(s)) => s
    case _ => []
  }

  function NumberAt(ms: Doc, k: Bytes): real {
    match Find(ms, k)
    case Some(Num(n)) => n
    case _ => 0.0
  }

  function FlagAt(ms: Doc, k: Bytes): bool {
    match Find(ms, k)
    case Some(Bool(b)) => b
    case _ => false
  }

  /** The conversion of a double to 64 bits where C++ defines it. */
  function ToU64Floor(x: real): U64 { if 0 <= x.Floor < TWO64 then x.Floor else 0 }

  function DocId(ms: Doc): Id128 {
    match ParseId(Text(StringAt(ms, K_ID)))
    case Some(id) => id
    case None => Id128(0, 0)
  }

  function DocGeneration(ms: Doc): U64 { ToU64Floor(NumberAt(ms, K_GENERATION)) }

  const ZERO_DIGEST: Digest := [
    0, 0, 0, 0, 0, 0, 0, 0, 0, 0, 0, 0, 0, 0, 0, 0,
    0, 0, 0, 0, 0, 0, 0, 0, 0, 0, 0, 0, 0, 0, 0, 0]

  function DocDigest(ms: Doc): Digest {
    match DigestFromHex(Text(StringAt(ms, K_DIGEST)))
    case Some(d) => d
    case None => ZERO_DIGEST
  }

  /** `ArtifactDescriptor::toJson`, with everything but these three members given. */
  function DocOf(id: Id128, gen: U64, digest: Digest, others: Doc): Doc {
    J.Assign(J.Assign(J.Assign(others, J.Member(K_ID, J.Str(Ascii(IdHex(id))))),
      J.Member(K_GENERATION, J.Num(gen as real))),
      J.Member(K_DIGEST, J.Str(Ascii(BytesHex(digest)))))
  }

  // --------------------------------------------------------------- records

  datatype Record = Record(
    id: Id128, generation: U64, key: seq<Entry>, doc: Doc, content: Bytes, invalidated: bool, superseded: bool)

  /** The document that is written: the descriptor with the two flags set. */
  function MetaDoc(r: Record): Doc {
    J.Assign(J.Assign(r.doc, J.Member(K_INVALIDATED, J.Bool(r.invalidated))), J.Member(K_SUPERSEDED, J.Bool(r.superseded)))
  }

  const MAGIC: Bytes := [67, 70, 77, 68]
  const VERSION: U32 := 1

  function KeyAndJson(lib: Lib, r: Record): Bytes {
    PutBlob(Canonical.Record(r.key)) + PutBlob(J.Dump(lib.floats, J.Obj(MetaDoc(r))))
  }

  /** Everything in front of the checksum. */
  function Payload(lib: Lib, r: Record): Bytes {
    PutBlob(MAGIC) + (BE(4, VERSION) + (KeyAndJson(lib, r) + DocDigest(r.doc)))
  }

  function Meta(lib: Lib, r: Record): Bytes { Payload(lib, r) + lib.hash(Payload(lib, r)) }

  /** The key, the document and 32 bytes that are read and ignored; whatever
      stands between them and the end is not looked at. */
  function DecodeBody(lib: Lib, s: Bytes): Option<Record> {
    match GetBlob(s)
    case Short => None
    case Got(kb, r1) =>
      match ParseFields(kb)
      case None => None
      case Some(key) =>
        match GetBlob(r1)
        case Short => None
        case Got(js, r2) => DecodeDoc(lib, key, js, r2)
  }

  function DecodeDoc(lib: Lib, key: seq<Entry>, js: Bytes, rest: Bytes): Option<Record> {
    match J.ParseText(lib.floats, js)
    case None => None
    case Some(j) =>
      if |rest| < 32 then None else
        var ms := if j.Obj? then j.members else [];
        Some(Record(DocId(ms), DocGeneration(ms), key, ms, [], FlagAt(ms, K_INVALIDATED), FlagAt(ms, K_SUPERSEDED)))
  }

  predicate ChecksumOk(lib: Lib, b: Bytes) {
    |b| >= 32 && lib.hash(b[..|b| - 32]) == b[|b| - 32..]
  }

  function DecodeMeta(lib: Lib, b: Bytes): Option<Record> {
    match GetBlob(b)
    case Short => None
    case Got(magic, r1) =>
      if magic != MAGIC then None else
        match GetU32(r1)
        case Short => None
        case Got(v, r2) =>
          if v != VERSION || |r2| < 32 || !ChecksumOk(lib, b) then None else DecodeBody(lib, r2)
  }

  // ------------------------------------------------------------------ load

  type Disk = map<Bytes, Bytes>

  datatype LoadError = NotFound | MetadataCorrupt | ArtifactTruncated | ArtifactCorrupt
  datatype Loaded = Ok(record: Record) | Err(error: LoadError)

  function LoadFiles(lib: Lib, meta: Option<Bytes>, bin: Option<Bytes>, id: Id128, gen: U64): Loaded {
    if meta.None? then Err(NotFound) else
      match DecodeMeta(lib, meta.value)
      case None => Err(MetadataCorrupt)
      case Some(r) =>
        if bin.None? then Err(ArtifactTruncated)
        else if DocDigest(r.doc) != ZERO_DIGEST && lib.hash(bin.value) != DocDigest(r.doc) then Err(ArtifactCorrupt)
        else if r.id != id || r.generation != gen then Err(MetadataCorrupt)
        else Ok(r.(content := bin.value))
  }

  function Read(d: Disk, name: Bytes): Option<Bytes> { if name in d then Some(d[name]) else None }

  /** `load` looks at these two files and nothing else. */
  function Load(lib: Lib, d: Disk, id: Id128, gen: U64): Loaded {
    LoadFiles(lib, Read(d, MetaName(id, gen)), Read(d, BinName(id, gen)), id, gen)
  }

  /** Exactly which error a failed load reports. */
  lemma LoadErrors(lib: Lib, d: Disk, id: Id128, gen: U64)
    ensures var m, b, l := MetaName(id, gen), BinName(id, gen), Load(lib, d, id, gen);
            && (l == Err(NotFound) <==> m !in d)
            && (m in d && DecodeMeta(lib, d[m]).None? ==> l == Err(MetadataCorrupt))
            && (m in d && DecodeMeta(lib, d[m]).Some? ==>
                  var r := DecodeMeta(lib, d[m]).value;
                  && (l == Err(ArtifactTruncated) <==> b !in d)
                  && (l == Err(ArtifactCorrupt) <==> b in d && DocDigest(r.doc) != ZERO_DIGEST && lib.hash(d[b]) != DocDigest(r.doc))
                  && (l == Err(MetadataCorrupt) <==>
                      && b in d && (DocDigest(r.doc) == ZERO_DIGEST || lib.hash(d[b]) == DocDigest(r.doc))
                      && (r.id != id || r.generation != gen)))
  {
    hide DecodeMeta, DocDigest, MetaName, BinName;
  }

  /** A load succeeds only when the metadata is intact, names this id and
      generation, and the content hashes to its digest unless that is zero. */
  lemma LoadIsChecked(lib: Lib, d: Disk, id: Id128, gen: U64)
    requires Load(lib, d, id, gen).Ok?
    ensures var r := Load(lib, d, id, gen).record;
            && MetaName(id, gen) in d && BinName(id, gen) in d
            && ChecksumOk(lib, d[MetaName(id, gen)])
            && r.id == id == DocId(r.doc) && r.generation == gen == DocGeneration(r.doc)
            && r.content == d[BinName(id, gen)]
            && (DocDigest(r.doc) != ZERO_DIGEST ==> lib.hash(r.content) == DocDigest(r.doc))
            && AllValid(r.key) && UniqueTags(r.key)
  {
    hide MetaName, BinName, GetBlob, ChecksumOk, DocId, DocGeneration, DocDigest, J.ParseText, ParseFields, GetUint;
    var b := d[MetaName(id, gen)];
    var r2 := GetU32(GetBlob(b).rest).rest;
    DecodedKey(lib, r2);
  }

  lemma DecodedKey(lib: Lib, s: Bytes)
    requires DecodeBody(lib, s).Some?
    ensures var r := DecodeBody(lib, s).value;
            AllValid(r.key) && UniqueTags(r.key) && r.id == DocId(r.doc) && r.generation == DocGeneration(r.doc)
  {
    hide GetBlob, DocId, DocGeneration, DocDigest, J.ParseText, ParseFields, AllValid, UniqueTags;
    var kb := GetBlob(s).value;
    ParsedIsRecord(kb, ParseFields(kb).value);
  }

  // ----------------------------------------------------------- round trips

  lemma TextAscii(s: string)
    requires forall i :: 0 <= i < |s| ==> s[i] as int < 256
    ensures Text(Ascii(s)) == s
  {
    forall i | 0 <= i < |s| ensures Text(Ascii(s))[i] == s[i] {
      assert Ascii(s)[i] == s[i] as int;
    }
  }

  lemma HexIsAscii(s: string)
    requires AllHex(s)
    ensures forall i :: 0 <= i < |s| ==> s[i] as int < 256 && s[i] != '_'
  {
  }

  lemma IdText(id: Id128)
    ensures Text(Ascii(IdHex(id))) == IdHex(id)
    ensures forall i :: 0 <= i < 32 ==> Ascii(IdHex(id))[i] != UNDERSCORE
  {
    ParseOfIdHex(id);
    var s := IdHex(id);
    hide IdHex;
    HexIsAscii(s);
    TextAscii(s);
    forall i | 0 <= i < 32 ensures Ascii(s)[i] != UNDERSCORE {
      assert s[i] as int < 256 && s[i] != '_';
    }
  }

  lemma {:induction false} UnderscoreAt(a: Bytes, rest: Bytes)
    requires forall i :: 0 <= i < |a| ==> a[i] != UNDERSCORE
    ensures FindUnderscore(a + ([UNDERSCORE] + rest)) == |a|
  {
    if a == [] {
      assert a + ([UNDERSCORE] + rest) == [UNDERSCORE] + rest;
    } else {
      assert (a + ([UNDERSCORE] + rest))[1..] == a[1..] + ([UNDERSCORE] + rest);
      UnderscoreAt(a[1..], rest);
    }
  }

  lemma GenerationText(gen: U64)
    ensures ToGeneration(J.Decimal(gen)) == gen
  {
    JT.DecimalDigits(gen);
    JT.DecimalValueOf(gen);
    var d := J.Decimal(gen);
    hide J.Decimal, J.DecimalValue;
    JT.RunOver(d, [], J.IsDigit);
    assert d + [] == d && d[..|d|] == d;
    assert J.IsDigit(d[0]);
  }

  /** What stands for the generation in a name that was not written here: a sign
      and digits; beyond 64 bits it saturates, and a minus sign counts down from 2^64. */
  lemma GenerationTexts(d: Bytes)
    requires JT.AllDigits(d)
    ensures ToGeneration([J.PLUS] + d) == ToGeneration(d) && ToGeneration([]) == 0
    ensures var v := J.DecimalValue(d);
            && (0 <= v < TWO64 ==> ToGeneration(d) == v && (ToGeneration([J.MINUS] + d) + v) % TWO64 == 0)
            && (v >= TWO64 ==> ToGeneration(d) == TWO64 - 1 == ToGeneration([J.MINUS] + d))
  {
    hide J.DecimalValue, J.Run, J.SkipSpace, ToGeneration;
    NoSpace(d);
    NoSpace([]);
    JT.RunOver(d, [], J.IsDigit);
    assert d + [] == d && d[..|d|] == d;
    ReadGeneration(d, d);
    ReadGeneration([J.PLUS] + d, d);
    ReadGeneration([J.MINUS] + d, d);
    EmptyGeneration();
  }

  lemma EmptyGeneration()
    ensures ToGeneration([]) == 0
  {
    assert J.DecimalValue([]) == 0;
  }

  lemma NoSpace(d: Bytes)
    requires JT.AllDigits(d)
    ensures J.SkipSpace(d) == d && !J.Starts(d, J.MINUS) && !J.Starts(d, J.PLUS)
    ensures J.SkipSpace([J.PLUS] + d) == [J.PLUS] + d && J.SkipSpace([J.MINUS] + d) == [J.MINUS] + d
    ensures ([J.PLUS] + d)[1..] == d && ([J.MINUS] + d)[1..] == d
  {
    assert d != [] ==> J.IsDigit(d[0]);
  }

  lemma ReadGeneration(t: Bytes, d: Bytes)
    requires J.SkipSpace(t) == t && d[..J.Run(d, J.IsDigit)] == d
    requires d == if J.Starts(t, J.MINUS) || J.Starts(t, J.PLUS) then t[1..] else t
    ensures var v := J.DecimalValue(d);
            && (v < 0 || v >= TWO64 ==> ToGeneration(t) == TWO64 - 1)
            && (0 <= v < TWO64 && !J.Starts(t, J.MINUS) ==> ToGeneration(t) == v)
            && (0 <= v < TWO64 && J.Starts(t, J.MINUS) ==> (ToGeneration(t) + v) % TWO64 == 0)
  {
    hide J.DecimalValue, J.Run, J.SkipSpace;
  }

  /** A name is read by its first underscore, whatever stands behind it. */
  lemma NameOfAny(id: Id128, g: Bytes)
    ensures ParseName((Ascii(IdHex(id)) + ([UNDERSCORE] + g)) + META) == Some((id, ToGeneration(g)))
  {
    IdText(id);
    ParseOfIdHex(id);
    var a := Ascii(IdHex(id));
    hide IdHex, Ascii, Text, ToGeneration, ParseId;
    UnderscoreAt(a, g + META);
    NameSlices(a, g);
  }

  /** `list` recovers exactly the id and the generation a metadata file is named after. */
  lemma ListedName(id: Id128, gen: U64)
    ensures ParseName(MetaName(id, gen)) == Some((id, gen))
  {
    hide ParseName, J.Decimal, ToGeneration;
    NameOfAny(id, J.Decimal(gen));
    GenerationText(gen);
  }

  lemma NameSlices(a: Bytes, g: Bytes)
    ensures var name := (a + ([UNDERSCORE] + g)) + META; var n := |name|;
            && n == |a| + 1 + |g| + 5
            && name == a + ([UNDERSCORE] + (g + META))
            && name[..|a|] == a && name[|a| + 1..n - 5] == g && name[n - 5..] == META
  {
  }

  /** So different records live in different files. */
  lemma NamesDistinct(id: Id128, gen: U64, id': Id128, gen': U64)
    ensures MetaName(id, gen) == MetaName(id', gen') <==> id == id' && gen == gen'
    ensures BinName(id, gen) == BinName(id', gen') <==> id == id' && gen == gen'
    ensures MetaName(id, gen) != BinName(id', gen')
  {
    ListedName(id, gen);
    ListedName(id', gen');
    var a, b := Stem(id, gen), Stem(id', gen');
    hide Stem, ParseName;
    if BinName(id, gen) == BinName(id', gen') {
      assert (a + BIN)[..|a|] == a && (b + BIN)[..|b|] == b;
      assert MetaName(id, gen) == MetaName(id', gen');
    }
    assert (a + META)[|a| + 4] == 97 && (b + BIN)[|b| + 3] == 110;
    assert |a + META| == |a| + 5 && |b + BIN| == |b| + 4;
  }

  lemma SuffixesDiffer(id: Id128, gen: U64, name: Bytes)
    ensures name + TMP != MetaName(id, gen) && name + TMP != BinName(id, gen)
  {
    hide Stem;
    var a := Stem(id, gen);
    assert (name + TMP)[|name| + 3] == 112;
    assert (a + META)[|a| + 4] == 97 && (a + BIN)[|a| + 3] == 110;
    assert |a + META| == |a| + 5 && |a + BIN| == |a| + 4 && |name + TMP| == |name| + 4;
  }

  // ------------------------------------------------------------- documents

  lemma {:induction false} FindAssign(ms: Doc, m: J.Member, k: Bytes)
    requires J.SortedMembers(ms)
    ensures Find(J.Assign(ms, m), k) == if k == m.key then Some(m.value) else Find(ms, k)
  {
    hide J.KeyLess;
    if ms != [] && !J.KeyLess(m.key, ms[0].key) && ms[0].key != m.key {
      FindAssign(ms[1..], m, k);
    }
  }

  /** The three members are read back from a descriptor's document. */
  lemma DocRoundTrip(id: Id128, gen: U64, digest: Digest, others: Doc)
    requires J.SortedMembers(others)
    ensures J.SortedMembers(DocOf(id, gen, digest, others))
    ensures DocId(DocOf(id, gen, digest, others)) == id
    ensures DocGeneration(DocOf(id, gen, digest, others)) == gen
    ensures DocDigest(DocOf(id, gen, digest, others)) == digest
  {
    var a := J.Member(K_ID, J.Str(Ascii(IdHex(id))));
    var b := J.Member(K_GENERATION, J.Num(gen as real));
    var c := J.Member(K_DIGEST, J.Str(Ascii(BytesHex(digest))));
    IdText(id);
    ParseOfIdHex(id);
    DigestText(digest);
    DigestRoundTrip(digest);
    hide IdHex, BytesHex, Ascii, Text, ParseId, DigestFromHex, J.Assign, J.SortedMembers, Find;
    var m1 := J.Assign(others, a);
    var m2 := J.Assign(m1, b);
    JT.AssignSorted(others, a);
    JT.AssignSorted(m1, b);
    JT.AssignSorted(m2, c);
    FindAssign(others, a, K_ID);
    FindAssign(m1, b, K_ID);
    FindAssign(m1, b, K_GENERATION);
    FindAssign(m2, c, K_ID);
    FindAssign(m2, c, K_GENERATION);
    FindAssign(m2, c, K_DIGEST);
  }

  lemma DigestText(d: Digest)
    ensures Text(Ascii(BytesHex(d))) == BytesHex(d)
  {
    UnHexOfBytesHex(32, d);
    hide BytesHex;
    HexIsAscii(BytesHex(d));
    TextAscii(BytesHex(d));
  }

  /** Setting the flags leaves every other member alone. */
  lemma FlagsOnly(r: Record, k: Bytes)
    requires J.SortedMembers(r.doc)
    ensures J.SortedMembers(MetaDoc(r))
    ensures FlagAt(MetaDoc(r), K_INVALIDATED) == r.invalidated && FlagAt(MetaDoc(r), K_SUPERSEDED) == r.superseded
    ensures k != K_INVALIDATED && k != K_SUPERSEDED ==> Find(MetaDoc(r), k) == Find(r.doc, k)
  {
    var a := J.Member(K_INVALIDATED, J.Bool(r.invalidated));
    var b := J.Member(K_SUPERSEDED, J.Bool(r.superseded));
    hide J.Assign, J.SortedMembers, Find;
    var m1 := J.Assign(r.doc, a);
    JT.AssignSorted(r.doc, a);
    JT.AssignSorted(m1, b);
    FindAssign(r.doc, a, K_INVALIDATED);
    FindAssign(m1, b, K_INVALIDATED);
    FindAssign(m1, b, K_SUPERSEDED);
    FindAssign(r.doc, a, k);
    FindAssign(m1, b, k);
  }
}
