/** Stores that may be interrupted at any point, and recovery.  A write goes to
    a temporary file that is renamed when complete; the file system is assumed
    to apply operations in order and to rename atomically. */
module CrashSafety {
  import opened Wire
  import opened Canonical
  import opened Persistence
  import J = Json
  import JT = JsonTheorems

  /** What `store` is given in the fabric: a key built by setters and a document
      that is a map; strings have 64-bit sizes. */
  ghost predicate Storable(lib: Lib, r: Record) {
    && J.ShowOk(lib.floats)
    && StrictlySorted(r.key) && AllValid(r.key) && Encodable(r.key) && |Canonical.Record(r.key)| < TWO64
    && J.WellFormed(J.Obj(r.doc)) && |J.Dump(lib.floats, J.Obj(MetaDoc(r)))| < TWO64
  }

  /** The document as it is read back: numbers may have lost digits. */
  function Found(lib: Lib, r: Record): Doc { J.RereadMembers(lib.floats, MetaDoc(r)) }

  /** What a decoder makes of a stored record's metadata. */
  function Decoded(lib: Lib, r: Record): Record {
    Record(DocId(r.doc), DocGeneration(Found(lib, r)), r.key, Found(lib, r), [], r.invalidated, r.superseded)
  }

  // ------------------------------------------------------- metadata round trip

  lemma FlaggedDocument(lib: Lib, r: Record)
    requires Storable(lib, r)
    ensures J.ParseText(lib.floats, J.Dump(lib.floats, J.Obj(MetaDoc(r)))) == Some(J.Obj(Found(lib, r)))
  {
    var a := J.Member(K_INVALIDATED, J.Bool(r.invalidated));
    var b := J.Member(K_SUPERSEDED, J.Bool(r.superseded));
    SetMember(r.doc, a);
    SetMember(J.Assign(r.doc, a), b);
    hide J.Dump, J.ParseText, J.Assign, J.WellFormed, J.Exact;
    JT.RoundTrip(lib.floats, J.Obj(MetaDoc(r)));
  }

  lemma SetMember(ms: Doc, m: J.Member)
    requires J.WellFormed(J.Obj(ms)) && m.value.Bool?
    ensures J.WellFormed(J.Obj(J.Assign(ms, m)))
  {
    JT.AssignSorted(ms, m);
    hide J.Assign, J.SortedMembers;
    var q := J.Assign(ms, m);
    forall i | 0 <= i < |q| ensures J.WellFormed(q[i].value) {
      assert q[i] in q;
      if q[i] != m {
        assert q[i] in ms;
      }
    }
  }

  lemma {:induction false} FindReread(fl: J.Floats, ms: Doc, k: Bytes)
    ensures Find(J.RereadMembers(fl, ms), k)
         == match Find(ms, k) case None => None case Some(v) => Some(J.Reread(fl, v))
  {
    hide J.Reread;
    if ms != [] {
      FindReread(fl, ms[1..], k);
      assert J.RereadMembers(fl, ms)[1..] == J.RereadMembers(fl, ms[1..]);
    }
  }

  /** Strings and flags come back as they were, whatever happens to numbers. */
  lemma DocFields(lib: Lib, r: Record)
    requires J.SortedMembers(r.doc)
    ensures DocId(Found(lib, r)) == DocId(r.doc) && DocDigest(Found(lib, r)) == DocDigest(r.doc)
    ensures FlagAt(Found(lib, r), K_INVALIDATED) == r.invalidated && FlagAt(Found(lib, r), K_SUPERSEDED) == r.superseded
  {
    FlagsOnly(r, K_ID);
    FlagsOnly(r, K_DIGEST);
    hide MetaDoc, Find, J.SortedMembers;
    var ms := MetaDoc(r);
    FindReread(lib.floats, ms, K_ID);
    FindReread(lib.floats, ms, K_DIGEST);
    FindReread(lib.floats, ms, K_INVALIDATED);
    FindReread(lib.floats, ms, K_SUPERSEDED);
  }

  lemma ExactDocument(lib: Lib, r: Record)
    ensures J.Exact(lib.floats, J.Obj(MetaDoc(r))) ==> Found(lib, r) == MetaDoc(r)
  {
    hide MetaDoc, J.Exact;
    JT.RereadIff(lib.floats, J.Obj(MetaDoc(r)));
  }

  lemma FoundIs(lib: Lib, r: Record)
    ensures Found(lib, r) == J.RereadMembers(lib.floats, MetaDoc(r))
  {
  }

  /** The generation comes back if its number does, in particular up to 2^53;
      and a document whose numbers are exact comes back whole. */
  lemma GenerationSurvives(lib: Lib, r: Record)
    requires J.SortedMembers(r.doc)
    ensures var n := NumberAt(r.doc, K_GENERATION);
            && (lib.floats.round(J.Printed(lib.floats, n)) == n ==> DocGeneration(Found(lib, r)) == DocGeneration(r.doc))
            && (J.FloatsOk(lib.floats) && J.IsInt(n) && 0 <= n.Floor <= J.EXACT ==> DocGeneration(Found(lib, r)) == n.Floor)
    ensures J.Exact(lib.floats, J.Obj(MetaDoc(r))) ==> Found(lib, r) == MetaDoc(r)
  {
    ExactDocument(lib, r);
    hide MetaDoc, Find, Found, J.SortedMembers, J.Printed, J.Exact;
    FlagsOnly(r, K_GENERATION);
    FoundIs(lib, r);
    var n := NumberAt(r.doc, K_GENERATION);
    FindReread(lib.floats, MetaDoc(r), K_GENERATION);
    if J.FloatsOk(lib.floats) && J.IsInt(n) && 0 <= n.Floor <= J.EXACT {
      JT.IntegersAreExact(lib.floats, n);
    }
  }

  lemma BodyDecodes(lib: Lib, r: Record, rest: Bytes)
    requires Storable(lib, r) && |rest| >= 32
    ensures DecodeBody(lib, KeyAndJson(lib, r) + rest) == Some(Decoded(lib, r))
  {
    var kb, js := Canonical.Record(r.key), J.Dump(lib.floats, J.Obj(MetaDoc(r)));
    assert ParseFields(kb) == Some(r.key) by { KeyDecodes(r.key); }
    assert DecodeDoc(lib, r.key, js, rest) == Some(Decoded(lib, r)) by { DocDecodes(lib, r, rest); }
    hide Canonical.Record, J.Dump, ParseFields, DecodeDoc, Decoded, MetaDoc, DecodeBody, PutBlob;
    BodyShape(lib, r.key, kb, js, rest);
  }

  lemma KeyDecodes(key: seq<Entry>)
    requires StrictlySorted(key) && AllValid(key) && Encodable(key)
    ensures ParseFields(Canonical.Record(key)) == Some(key)
  {
    hide ParseFields, Canonical.Record;
    ParseOfRecord(key);
  }

  lemma DocDecodes(lib: Lib, r: Record, rest: Bytes)
    requires Storable(lib, r) && |rest| >= 32
    ensures DecodeDoc(lib, r.key, J.Dump(lib.floats, J.Obj(MetaDoc(r))), rest) == Some(Decoded(lib, r))
  {
    FlaggedDocument(lib, r);
    DocFields(lib, r);
    hide J.Dump, J.ParseText, MetaDoc, Found, DocId, DocGeneration, FlagAt, Storable;
  }

  lemma BodyShape(lib: Lib, key: seq<Entry>, kb: Bytes, js: Bytes, rest: Bytes)
    requires |kb| < TWO64 && |js| < TWO64 && ParseFields(kb) == Some(key)
    ensures DecodeBody(lib, (PutBlob(kb) + PutBlob(js)) + rest) == DecodeDoc(lib, key, js, rest)
  {
    hide ParseFields, PutBlob, GetBlob, DecodeDoc;
    Assoc(PutBlob(kb), PutBlob(js), rest);
    GetBlobPut(kb, PutBlob(js) + rest);
    GetBlobPut(js, rest);
  }

  lemma ChecksumFits(lib: Lib, p: Bytes)
    ensures ChecksumOk(lib, p + lib.hash(p))
  {
    var h := lib.hash(p);
    assert (p + h)[..|p|] == p && (p + h)[|p|..] == h;
  }

  /** The metadata of a record decodes to it, also with bytes slipped in between
      the digest and the checksum, as long as the checksum covers them. */
  lemma MetaDecodes(lib: Lib, r: Record, garbage: Bytes)
    requires Storable(lib, r)
    ensures var p := Payload(lib, r) + garbage; DecodeMeta(lib, p + lib.hash(p)) == Some(Decoded(lib, r))
  {
    hide PutBlob, GetBlob, BE, GetUint, KeyAndJson, DecodeBody, Decoded, Payload, Storable;
    var p := Payload(lib, r) + garbage;
    var h := lib.hash(p);
    var tail := DocDigest(r.doc) + (garbage + h);
    var r2 := KeyAndJson(lib, r) + tail;
    PayloadSplits(lib, r, garbage, h);
    BodyDecodes(lib, r, tail);
    GetBlobPut(MAGIC, BE(4, VERSION) + r2);
    GetU32Put(VERSION, r2);
    ChecksumFits(lib, p);
  }

  lemma PayloadSplits(lib: Lib, r: Record, g: Bytes, h: Bytes)
    ensures Payload(lib, r) + g + h == PutBlob(MAGIC) + (BE(4, VERSION) + (KeyAndJson(lib, r) + (DocDigest(r.doc) + (g + h))))
  {
    hide PutBlob, BE, KeyAndJson;
    var a, b, c, d := PutBlob(MAGIC), BE(4, VERSION), KeyAndJson(lib, r), DocDigest(r.doc);
    Assoc(Payload(lib, r), g, h);
    Assoc(a, b + (c + d), g + h);
    Assoc(b, c + d, g + h);
    Assoc(c, d, g + h);
  }

  lemma MetaRoundTrip(lib: Lib, r: Record)
    requires Storable(lib, r)
    ensures DecodeMeta(lib, Meta(lib, r)) == Some(Decoded(lib, r))
  {
    hide DecodeMeta, Payload, Decoded;
    MetaDecodes(lib, r, []);
    assert Payload(lib, r) + [] == Payload(lib, r);
  }

  // ------------------------------------------------ what the decoder accepts

  /** The parts of a metadata file: key bytes, document text and whatever follows. */
  function Assembled(kb: Bytes, js: Bytes, tail: Bytes): Bytes {
    PutBlob(MAGIC) + (BE(4, VERSION) + (PutBlob(kb) + (PutBlob(js) + tail)))
  }

  predicate Parts(lib: Lib, b: Bytes, kb: Bytes, js: Bytes, tail: Bytes) {
    && |kb| < TWO64 && |js| < TWO64 && b == Assembled(kb, js, tail)
    && |tail| >= 32 && ParseFields(kb).Some? && J.ParseText(lib.floats, js).Some?
  }

  lemma AssembledReads(lib: Lib, kb: Bytes, js: Bytes, tail: Bytes)
    requires |kb| < TWO64 && |js| < TWO64
    ensures var b := Assembled(kb, js, tail); var rest := PutBlob(kb) + (PutBlob(js) + tail);
            && GetBlob(b) == Got(MAGIC, BE(4, VERSION) + rest) && GetU32(BE(4, VERSION) + rest) == Got(VERSION, rest)
            && GetBlob(rest) == Got(kb, PutBlob(js) + tail) && GetBlob(PutBlob(js) + tail) == Got(js, tail)
  {
    hide PutBlob, GetBlob, BE, GetUint;
    var rest := PutBlob(kb) + (PutBlob(js) + tail);
    GetBlobPut(MAGIC, BE(4, VERSION) + rest);
    GetU32Put(VERSION, rest);
    GetBlobPut(kb, PutBlob(js) + tail);
    GetBlobPut(js, tail);
  }

  /** Assembled parts with an intact checksum are accepted, for what they say. */
  lemma PartsAccepted(lib: Lib, b: Bytes, kb: Bytes, js: Bytes, tail: Bytes)
    requires ChecksumOk(lib, b) && Parts(lib, b, kb, js, tail)
    ensures DecodeMeta(lib, b) == DecodeDoc(lib, ParseFields(kb).value, js, tail) && DecodeMeta(lib, b).Some?
  {
    AssembledReads(lib, kb, js, tail);
    hide PutBlob, GetBlob, BE, GetUint, ChecksumOk, ParseFields, J.ParseText, DocId, DocGeneration, FlagAt;
    assert |PutBlob(kb) + (PutBlob(js) + tail)| >= 32;
  }

  /** Whatever is accepted has such parts. */
  lemma AcceptedHasParts(lib: Lib, b: Bytes) returns (kb: Bytes, js: Bytes, tail: Bytes)
    requires DecodeMeta(lib, b).Some?
    ensures ChecksumOk(lib, b) && Parts(lib, b, kb, js, tail)
  {
    hide PutBlob, GetBlob, BE, GetUint, ChecksumOk, ParseFields, J.ParseText, DocId, DocGeneration, FlagAt;
    var r1 := GetBlob(b).rest;
    var r2 := GetU32(r1).rest;
    kb := GetBlob(r2).value;
    var r3 := GetBlob(r2).rest;
    js, tail := GetBlob(r3).value, GetBlob(r3).rest;
    GetBlobInv(b);
    assert r1 == BE(4, VERSION) + r2 by { GetUintInv(4, r1); }
    GetBlobInv(r2);
    GetBlobInv(r3);
  }

  /** Exactly which bytes are accepted as metadata: an intact checksum over the
      magic, the version, a key that parses, a document that parses, and at least
      32 further bytes.  Neither what those bytes are nor how many there are is
      looked at, so the content digest may be any, be followed by anything, or be
      missing, the checksum standing in for it; trailing garbage is documented as
      rejected. */
  lemma AcceptedIff(lib: Lib, b: Bytes)
    ensures DecodeMeta(lib, b).Some? <==> ChecksumOk(lib, b) && exists kb, js, tail :: Parts(lib, b, kb, js, tail)
  {
    hide Parts, ChecksumOk, DecodeMeta;
    if DecodeMeta(lib, b).Some? {
      var kb, js, tail := AcceptedHasParts(lib, b);
    }
    if ChecksumOk(lib, b) && exists kb, js, tail :: Parts(lib, b, kb, js, tail) {
      var kb, js, tail :| Parts(lib, b, kb, js, tail);
      PartsAccepted(lib, b, kb, js, tail);
    }
  }

  /** What `encodeMeta` writes for a record: its key sorted by tag. */
  ghost predicate Rewrites(lib: Lib, r: Record, m: Bytes) {
    exists s :: IsSortOf(s, r.key) && SizesFit(lib, r.(key := s)) && m == Meta(lib, r.(key := s))
  }

  predicate SizesFit(lib: Lib, r: Record) {
    |Canonical.Record(r.key)| < TWO64 && |J.Dump(lib.floats, J.Obj(MetaDoc(r)))| < TWO64
  }

  /** The parts are those that writing the decoded record would produce: a key in
      tag order, the printed form of the document, its digest, and the checksum. */
  predicate CanonicalParts(lib: Lib, r: Record, js: Bytes, tail: Bytes) {
    && SortedByTag(r.key) && js == J.Dump(lib.floats, J.Obj(MetaDoc(r)))
    && |tail| == 64 && tail[..32] == DocDigest(r.doc)
  }

  lemma MetaAssembled(lib: Lib, r: Record)
    ensures Meta(lib, r) == Assembled(Canonical.Record(r.key), J.Dump(lib.floats, J.Obj(MetaDoc(r))),
                                      DocDigest(r.doc) + lib.hash(Payload(lib, r)))
  {
    PayloadSplits(lib, r, [], lib.hash(Payload(lib, r)));
    hide PutBlob, BE, Payload, DocDigest, MetaDoc;
    var h := lib.hash(Payload(lib, r));
    assert Payload(lib, r) + [] == Payload(lib, r) && [] + h == h;
    Assoc(PutBlob(Canonical.Record(r.key)), PutBlob(J.Dump(lib.floats, J.Obj(MetaDoc(r)))), DocDigest(r.doc) + h);
  }

  lemma AssembledInjective(kb: Bytes, js: Bytes, tail: Bytes, kb': Bytes, js': Bytes, tail': Bytes)
    requires |kb| < TWO64 && |js| < TWO64 && |kb'| < TWO64 && |js'| < TWO64
    requires Assembled(kb, js, tail) == Assembled(kb', js', tail')
    ensures kb == kb' && js == js' && tail == tail'
  {
    hide PutBlob, GetBlob, BE, GetUint;
    var x, y := PutBlob(kb) + (PutBlob(js) + tail), PutBlob(kb') + (PutBlob(js') + tail');
    GetBlobPut(MAGIC, BE(4, VERSION) + x);
    GetBlobPut(MAGIC, BE(4, VERSION) + y);
    GetU32Put(VERSION, x);
    GetU32Put(VERSION, y);
    GetBlobPut(kb, PutBlob(js) + tail);
    GetBlobPut(kb', PutBlob(js') + tail');
    GetBlobPut(js, tail);
    GetBlobPut(js', tail');
  }

  lemma DecodedFromParts(lib: Lib, b: Bytes, kb: Bytes, js: Bytes, tail: Bytes)
    requires ChecksumOk(lib, b) && Parts(lib, b, kb, js, tail)
    ensures DecodeMeta(lib, b).Some? && DecodeMeta(lib, b).value.key == ParseFields(kb).value
    ensures var key := DecodeMeta(lib, b).value.key;
            kb == Canonical.Record(key) && UniqueTags(key) && AllValid(key) && Encodable(key)
  {
    PartsAccepted(lib, b, kb, js, tail);
    hide ChecksumOk, ParseFields, DecodeMeta, DocId, DocGeneration, FlagAt, J.ParseText, Assembled;
    ParsedIsRecord(kb, ParseFields(kb).value);
  }

  /** Exactly when accepted metadata is what the store would write for the record
      it decodes to. */
  lemma CanonicalIff(lib: Lib, b: Bytes, kb: Bytes, js: Bytes, tail: Bytes, m: Bytes)
    requires ChecksumOk(lib, b) && Parts(lib, b, kb, js, tail)
    requires DecodeMeta(lib, b).Some? && Rewrites(lib, DecodeMeta(lib, b).value, m)
    ensures m == b <==> CanonicalParts(lib, DecodeMeta(lib, b).value, js, tail)
  {
    var r := DecodeMeta(lib, b).value;
    DecodedFromParts(lib, b, kb, js, tail);
    hide DecodeMeta, ChecksumOk, ParseFields, J.ParseText, Assembled, Canonical.Record, IsSortOf, SizesFit, Meta, CanonicalParts;
    hide UniqueTags, AllValid, Encodable;
    var s :| IsSortOf(s, r.key) && SizesFit(lib, r.(key := s)) && m == Meta(lib, r.(key := s));
    RewrittenIff(lib, r, s, b, js, tail);
  }

  lemma RewrittenIff(lib: Lib, r: Record, s: seq<Entry>, b: Bytes, js: Bytes, tail: Bytes)
    requires ChecksumOk(lib, b) && |tail| >= 32 && UniqueTags(r.key) && IsSortOf(s, r.key) && SizesFit(lib, r.(key := s))
    requires |Canonical.Record(r.key)| < TWO64 && |js| < TWO64 && b == Assembled(Canonical.Record(r.key), js, tail)
    requires AllValid(r.key) && Encodable(r.key)
    ensures Meta(lib, r.(key := s)) == b <==> CanonicalParts(lib, r, js, tail)
  {
    var r' := r.(key := s);
    var kb, kb' := Canonical.Record(r.key), Canonical.Record(s);
    var js' := J.Dump(lib.floats, J.Obj(MetaDoc(r)));
    var dg := DocDigest(r.doc);
    MetaAssembled(lib, r');
    RoundTripSorted(r.key, s);
    SortOfUnique(s, r.key);
    ParseOfRecord(r.key);
    hide Canonical.Record, J.Dump, MetaDoc, DocDigest, ParseFields, PutBlob, BE, Assembled, UniqueTags, AllValid, Encodable;
    if Meta(lib, r') == b {
      AssembledInjective(kb', js', dg + lib.hash(Payload(lib, r')), kb, js, tail);
      assert tail[..32] == dg;
    }
    if CanonicalParts(lib, r, js, tail) {
      SortedDetermined(s, r.key);
      ChecksumEnds(lib, kb, js, tail, r);
    }
  }

  /** With the right first half, the second half of a 64-byte tail is the checksum. */
  lemma ChecksumEnds(lib: Lib, kb: Bytes, js: Bytes, tail: Bytes, r: Record)
    requires ChecksumOk(lib, Assembled(kb, js, tail)) && |tail| == 64 && tail[..32] == DocDigest(r.doc)
    requires kb == Canonical.Record(r.key) && js == J.Dump(lib.floats, J.Obj(MetaDoc(r)))
    ensures tail == DocDigest(r.doc) + lib.hash(Payload(lib, r))
  {
    var dg, h := DocDigest(r.doc), tail[32..];
    PayloadSplits(lib, r, [], h);
    hide PutBlob, BE, DocDigest, MetaDoc, J.Dump, Canonical.Record;
    var p := Payload(lib, r);
    assert tail == dg + h;
    assert p + [] == p && [] + h == h;
    Assoc(PutBlob(kb), PutBlob(js), dg + h);
    assert Assembled(kb, js, tail) == p + h;
    hide Payload;
    assert (p + h)[..|p|] == p && (p + h)[|p|..] == h;
  }

  // ------------------------------------------------------------ interrupted stores

  function WithTmp(d: Disk, name: Bytes, part: Bytes): Disk { d[name + TMP := part] }

  /** The temporary file has been renamed. */
  function Renamed(d: Disk, name: Bytes, bytes: Bytes): Disk { (d - {name + TMP})[name := bytes] }

  function MetaDone(lib: Lib, d: Disk, r: Record): Disk { Renamed(d, MetaName(r.id, r.generation), Meta(lib, r)) }

  /** The disk after an uninterrupted store. */
  function Stored(lib: Lib, d: Disk, r: Record): Disk {
    Renamed(MetaDone(lib, d, r), BinName(r.id, r.generation), r.content)
  }

  predicate IsPrefix(p: Bytes, s: Bytes) { |p| <= |s| && s[..|p|] == p }

  /** A disk that can be found while writing one file, or after it failed. */
  ghost predicate Writing(d: Disk, name: Bytes, bytes: Bytes, d': Disk) {
    d' == d || exists p :: IsPrefix(p, bytes) && d' == WithTmp(d, name, p)
  }

  /** A disk that can be found if `store` stops anywhere, or completes. */
  ghost predicate Attempt(lib: Lib, d: Disk, r: Record, d': Disk) {
    || Writing(d, MetaName(r.id, r.generation), Meta(lib, r), d')
    || Writing(MetaDone(lib, d, r), BinName(r.id, r.generation), r.content, d')
    || d' == Stored(lib, d, r)
  }

  /** The file of this name is the same on both disks. */
  predicate SameFile(d: Disk, d': Disk, name: Bytes) { Read(d, name) == Read(d', name) }

  lemma WritingTouchesTmp(d: Disk, name: Bytes, bytes: Bytes, d': Disk, other: Bytes)
    requires Writing(d, name, bytes, d') && other != name + TMP
    ensures SameFile(d, d', other)
  {
  }

  lemma RenameTouches(d: Disk, name: Bytes, bytes: Bytes, other: Bytes)
    requires other != name + TMP && other != name
    ensures SameFile(d, Renamed(d, name, bytes), other)
  {
  }

  /** A store, interrupted anywhere or not, leaves every other record's load unchanged. */
  lemma OthersUntouched(lib: Lib, d: Disk, r: Record, d': Disk, id: Id128, gen: U64)
    requires Attempt(lib, d, r, d') && (id != r.id || gen != r.generation)
    ensures Load(lib, d', id, gen) == Load(lib, d, id, gen)
  {
    NamesDistinct(id, gen, r.id, r.generation);
    NamesDistinct(r.id, r.generation, id, gen);
    FileUntouched(lib, d, r, d', id, gen, MetaName(id, gen));
    FileUntouched(lib, d, r, d', id, gen, BinName(id, gen));
    hide LoadFiles, MetaName, BinName;
  }

  lemma FileUntouched(lib: Lib, d: Disk, r: Record, d': Disk, id: Id128, gen: U64, name: Bytes)
    requires Attempt(lib, d, r, d') && (name == MetaName(id, gen) || name == BinName(id, gen))
    requires name != MetaName(r.id, r.generation) && name != BinName(r.id, r.generation)
    ensures SameFile(d, d', name)
  {
    var m, b := MetaName(r.id, r.generation), BinName(r.id, r.generation);
    SuffixesDiffer(id, gen, m);
    SuffixesDiffer(id, gen, b);
    hide MetaName, BinName, Meta;
    var done := MetaDone(lib, d, r);
    RenameTouches(d, m, Meta(lib, r), name);
    RenameTouches(done, b, r.content, name);
    if Writing(d, m, Meta(lib, r), d') {
      WritingTouchesTmp(d, m, Meta(lib, r), d', name);
    } else if Writing(done, b, r.content, d') {
      WritingTouchesTmp(done, b, r.content, d', name);
    }
  }

  /** A history of stores, each of which may have been cut short by a crash. */
  ghost predicate History(lib: Lib, rs: seq<Record>, ds: seq<Disk>) {
    |ds| == |rs| + 1 && forall i :: 0 <= i < |rs| ==> Attempt(lib, ds[i], rs[i], ds[i + 1])
  }

  /** Over any history, a record that is not rewritten loads as before. */
  lemma {:induction false} UntouchedOverHistory(lib: Lib, rs: seq<Record>, ds: seq<Disk>, i: nat, j: nat, id: Id128, gen: U64)
    requires History(lib, rs, ds) && i <= j < |ds|
    requires forall k :: i <= k < j ==> rs[k].id != id || rs[k].generation != gen
    ensures Load(lib, ds[j], id, gen) == Load(lib, ds[i], id, gen)
  {
    hide Attempt, Load;
    if i < j {
      UntouchedOverHistory(lib, rs, ds, i, j - 1, id, gen);
      OthersUntouched(lib, ds[j - 1], rs[j - 1], ds[j], id, gen);
    }
  }

  /** Which of its two files a record's own load sees. */
  lemma OwnFiles(lib: Lib, d: Disk, r: Record)
    ensures var m, b := MetaName(r.id, r.generation), BinName(r.id, r.generation);
            && Read(MetaDone(lib, d, r), m) == Some(Meta(lib, r)) && SameFile(d, MetaDone(lib, d, r), b)
            && Read(Stored(lib, d, r), m) == Some(Meta(lib, r)) && Read(Stored(lib, d, r), b) == Some(r.content)
  {
    var m, b := MetaName(r.id, r.generation), BinName(r.id, r.generation);
    NamesDistinct(r.id, r.generation, r.id, r.generation);
    SuffixesDiffer(r.id, r.generation, m);
    SuffixesDiffer(r.id, r.generation, b);
    hide MetaName, BinName, Meta;
  }

  /** What loading a stored record gives, exactly: it fails if the content does
      not hash to a non-zero digest or the document, as read back, names another
      record, and otherwise returns the same id, generation, key, content and
      flags, and the document as read back. */
  lemma StoreThenLoad(lib: Lib, d: Disk, r: Record)
    requires Storable(lib, r)
    ensures Load(lib, Stored(lib, d, r), r.id, r.generation)
         == if DocDigest(r.doc) != ZERO_DIGEST && lib.hash(r.content) != DocDigest(r.doc) then Err(ArtifactCorrupt)
            else if DocId(r.doc) != r.id || DocGeneration(Found(lib, r)) != r.generation then Err(MetadataCorrupt)
            else Ok(r.(doc := Found(lib, r)))
  {
    OwnFiles(lib, d, r);
    MetaRoundTrip(lib, r);
    DocFields(lib, r);
    hide Meta, MetaName, BinName, DecodeMeta, Stored, MetaDone, Found, DocId, DocGeneration, DocDigest, Storable;
  }

  /** A record whose document names it, also as read back. */
  ghost predicate Titled(lib: Lib, r: Record) {
    DocId(r.doc) == r.id && DocGeneration(Found(lib, r)) == r.generation
  }

  /** A record as the fabric builds it. */
  ghost predicate Consistent(lib: Lib, r: Record) {
    Titled(lib, r) && DocDigest(r.doc) == lib.hash(r.content) && DocDigest(r.doc) != ZERO_DIGEST
  }

  /** Between the two renames the new metadata stands beside the old content.
      What loads then, exactly: nothing without old content, an error if the
      digest is not zero and the old content does not hash to it, and otherwise
      the mixture of the two. */
  lemma BetweenTheRenames(lib: Lib, d: Disk, r: Record)
    requires Storable(lib, r) && Titled(lib, r)
    ensures Attempt(lib, d, r, MetaDone(lib, d, r))
    ensures var was := Read(d, BinName(r.id, r.generation));
            Load(lib, MetaDone(lib, d, r), r.id, r.generation)
            == if was.None? then Err(ArtifactTruncated)
               else if DocDigest(r.doc) != ZERO_DIGEST && lib.hash(was.value) != DocDigest(r.doc) then Err(ArtifactCorrupt)
               else Ok(r.(doc := Found(lib, r), content := was.value))
  {
    OwnFiles(lib, d, r);
    MetaRoundTrip(lib, r);
    DocFields(lib, r);
    hide Meta, MetaName, BinName, DecodeMeta, Stored, MetaDone, Found, DocId, DocGeneration, DocDigest, Storable;
  }

  /** So a store that stops anywhere leaves one of three results: what loaded
      before, what loads after a complete store, or what loads between the renames. */
  lemma InterruptedStoreIsExact(lib: Lib, d: Disk, r: Record, d': Disk)
    requires Attempt(lib, d, r, d')
    ensures var now := Load(lib, d', r.id, r.generation);
            || now == Load(lib, d, r.id, r.generation)
            || now == Load(lib, MetaDone(lib, d, r), r.id, r.generation)
            || now == Load(lib, Stored(lib, d, r), r.id, r.generation)
  {
    var m, b := MetaName(r.id, r.generation), BinName(r.id, r.generation);
    var done := MetaDone(lib, d, r);
    SuffixesDiffer(r.id, r.generation, m);
    SuffixesDiffer(r.id, r.generation, b);
    hide Meta, MetaName, BinName, LoadFiles, Stored, MetaDone;
    if Writing(d, m, Meta(lib, r), d') {
      WritingTouchesTmp(d, m, Meta(lib, r), d', m);
      WritingTouchesTmp(d, m, Meta(lib, r), d', b);
    } else if Writing(done, b, r.content, d') {
      WritingTouchesTmp(done, b, r.content, d', m);
      WritingTouchesTmp(done, b, r.content, d', b);
    }
  }

  /** Stopping somewhere leaves the record's metadata with content not its own. */
  ghost predicate Mixes(lib: Lib, d: Disk, r: Record) {
    exists d', c :: Attempt(lib, d, r, d') && Mixed(lib, r, d', c)
  }

  ghost predicate Mixed(lib: Lib, r: Record, d: Disk, c: Bytes) {
    c != r.content && Load(lib, d, r.id, r.generation) == Ok(r.(doc := Found(lib, r), content := c))
  }

  /** Exactly when that can happen: there is old content, different from the new,
      and the digest is zero or is the hash of the old content. */
  lemma MixtureIff(lib: Lib, d: Disk, r: Record)
    requires Storable(lib, r) && Titled(lib, r)
    ensures var was := Read(d, BinName(r.id, r.generation));
            Mixes(lib, d, r)
            <==> was.Some? && was.value != r.content && (DocDigest(r.doc) == ZERO_DIGEST || lib.hash(was.value) == DocDigest(r.doc))
  {
    BetweenTheRenames(lib, d, r);
    StoreThenLoad(lib, d, r);
    DocFields(lib, r);
    hide Load, Attempt, Stored, MetaDone, Found, DocDigest, Storable, Titled, BinName;
    var done := MetaDone(lib, d, r);
    var was := Read(d, BinName(r.id, r.generation));
    if Mixes(lib, d, r) {
      var d', c :| Attempt(lib, d, r, d') && Mixed(lib, r, d', c);
      InterruptedStoreIsExact(lib, d, r, d');
      if Load(lib, d', r.id, r.generation) == Load(lib, d, r.id, r.generation) {
        LoadIsChecked(lib, d, r.id, r.generation);
      }
    }
    if was.Some? && was.value != r.content && (DocDigest(r.doc) == ZERO_DIGEST || lib.hash(was.value) == DocDigest(r.doc)) {
      assert Mixed(lib, r, done, was.value);
    }
  }

  /** Atomicity: if a store of a consistent record stops anywhere, loading that
      record gives what it gave before, or an error, or the complete new record,
      never a mixture.  The digest is only trusted against the content that was
      there before. */
  lemma InterruptedStoreIsAtomic(lib: Lib, d: Disk, r: Record, d': Disk)
    requires Storable(lib, r) && Consistent(lib, r) && Attempt(lib, d, r, d')
    requires var was := Read(d, BinName(r.id, r.generation));
             was.Some? && lib.hash(was.value) == lib.hash(r.content) ==> was.value == r.content
    ensures var now := Load(lib, d', r.id, r.generation);
            || now == Load(lib, d, r.id, r.generation) || now.Err? || now == Ok(r.(doc := Found(lib, r)))
  {
    InterruptedStoreIsExact(lib, d, r, d');
    BetweenTheRenames(lib, d, r);
    StoreThenLoad(lib, d, r);
    hide Load, Attempt, Stored, MetaDone, Found, DocDigest, Storable, BinName;
  }
}
