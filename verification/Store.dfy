/** `PersistenceStore` as a class over a directory: writes byte by byte through
    temporary files, loads, lists and recovers. */
module Store {
  import opened Wire
  import opened Canonical
  import opened Key
  import opened Persistence
  import opened CrashSafety

  type Ref = (Id128, U64)

  /** A duplicate-free listing of a directory, in any order. */
  ghost predicate Enumerates(names: seq<Bytes>, d: Disk) {
    && (forall n :: n in names <==> n in d)
    && (forall i, j :: 0 <= i < j < |names| ==> names[i] != names[j])
  }

  /** What `list` returns for a directory read in this order. */
  function Listing(names: seq<Bytes>): seq<Ref> {
    if names == [] then [] else
      Listing(names[..|names| - 1]) + match ParseName(names[|names| - 1]) case None => [] case Some(x) => [x]
  }

  /** What `list` may return, in whatever order the directory is read. */
  ghost predicate Lists(d: Disk, refs: seq<Ref>) {
    exists names :: Enumerates(names, d) && refs == Listing(names)
  }

  function Cleaned(d: Disk): Disk { map n | n in d && !HasSuffix(n, TMP) :: d[n] }

  function Valids(lib: Lib, d: Disk, refs: seq<Ref>): seq<Record> {
    if refs == [] then [] else
      var (id, gen) := refs[|refs| - 1];
      Valids(lib, d, refs[..|refs| - 1]) + match Load(lib, d, id, gen)
        case Ok(r) => if r.invalidated then [] else [r]
        case Err(_) => []
  }

  function Invalids(lib: Lib, d: Disk, refs: seq<Ref>): seq<Record> {
    if refs == [] then [] else
      var (id, gen) := refs[|refs| - 1];
      Invalids(lib, d, refs[..|refs| - 1]) + match Load(lib, d, id, gen)
        case Ok(r) => if r.invalidated then [r] else []
        case Err(_) => []
  }

  function Corrupts(lib: Lib, d: Disk, refs: seq<Ref>): seq<Ref> {
    if refs == [] then [] else
      var (id, gen) := refs[|refs| - 1];
      Corrupts(lib, d, refs[..|refs| - 1]) + match Load(lib, d, id, gen)
        case Ok(_) => []
        case Err(_) => [refs[|refs| - 1]]
  }

  /** Recovery puts every listed record into exactly one of its three classes:
      the counts add up, and each record is where its load says. */
  lemma {:induction false} RecoverPartitions(lib: Lib, d: Disk, refs: seq<Ref>)
    ensures |Valids(lib, d, refs)| + |Invalids(lib, d, refs)| + |Corrupts(lib, d, refs)| == |refs|
    ensures forall x: Ref :: x in Corrupts(lib, d, refs) <==> x in refs && Load(lib, d, x.0, x.1).Err?
    ensures forall r :: r in Valids(lib, d, refs) <==> !r.invalidated && (r.id, r.generation) in refs && Load(lib, d, r.id, r.generation) == Ok(r)
    ensures forall r :: r in Invalids(lib, d, refs) <==> r.invalidated && (r.id, r.generation) in refs && Load(lib, d, r.id, r.generation) == Ok(r)
  {
    hide Load;
    if refs != [] {
      var init, x := refs[..|refs| - 1], refs[|refs| - 1];
      assert refs == init + [x];
      RecoverPartitions(lib, d, init);
      LoadedRef(lib, d, x);
    }
  }

  lemma LoadedRef(lib: Lib, d: Disk, x: Ref)
    ensures Load(lib, d, x.0, x.1).Ok? ==> (Load(lib, d, x.0, x.1).record.id, Load(lib, d, x.0, x.1).record.generation) == x
  {
    hide DecodeMeta, MetaName, BinName, DocDigest;
  }

  lemma {:induction false} ListingExact(names: seq<Bytes>)
    ensures forall x :: x in Listing(names) <==> exists n :: n in names && ParseName(n) == Some(x)
  {
    hide ParseName;
    if names != [] {
      var init, n := names[..|names| - 1], names[|names| - 1];
      assert names == init + [n];
      ListingExact(init);
      assert n in names;
    }
  }

  /** A record whose metadata file exists is listed, however the directory is read. */
  lemma StoredIsListed(d: Disk, refs: seq<Ref>, id: Id128, gen: U64)
    requires Lists(d, refs) && MetaName(id, gen) in d
    ensures (id, gen) in refs
  {
    var names :| Enumerates(names, d) && refs == Listing(names);
    ListedName(id, gen);
    hide ParseName, MetaName, Listing;
    ListingExact(names);
    assert MetaName(id, gen) in names;
  }

  /** Removing orphaned temporary files changes no load. */
  lemma CleaningKeepsLoads(lib: Lib, d: Disk, id: Id128, gen: U64)
    ensures Load(lib, Cleaned(d), id, gen) == Load(lib, d, id, gen)
  {
    var s := Stem(id, gen);
    hide Stem, LoadFiles;
    assert (s + META)[|s + META| - 4..][0] == 109;
    assert (s + BIN)[|s + BIN| - 4..][1] == 98;
  }

  lemma SurvivorLoads(lib: Lib, rs: seq<Record>, ds: seq<Disk>, i: nat, j: nat)
    requires History(lib, rs, ds) && i < j < |ds| && ds[i + 1] == Stored(lib, ds[i], rs[i])
    requires Storable(lib, rs[i]) && Consistent(lib, rs[i])
    requires forall k :: i < k < j ==> rs[k].id != rs[i].id || rs[k].generation != rs[i].generation
    ensures Load(lib, Cleaned(ds[j]), rs[i].id, rs[i].generation) == Ok(rs[i].(doc := Found(lib, rs[i])))
  {
    hide Load, Cleaned, Stored, Storable, Found;
    var r := rs[i];
    StoreThenLoad(lib, ds[i], r);
    UntouchedOverHistory(lib, rs, ds, i + 1, j, r.id, r.generation);
    CleaningKeepsLoads(lib, ds[j], r.id, r.generation);
  }

  /** Crash recovery end to end: a record whose store completed, and that was not
      rewritten since, is returned intact by recovery after any number of further
      stores, each possibly cut short by a crash. */
  lemma CompletedStoreSurvives(lib: Lib, rs: seq<Record>, ds: seq<Disk>, i: nat, j: nat, refs: seq<Ref>)
    requires History(lib, rs, ds) && i < j < |ds| && ds[i + 1] == Stored(lib, ds[i], rs[i])
    requires Storable(lib, rs[i]) && Consistent(lib, rs[i])
    requires forall k :: i < k < j ==> rs[k].id != rs[i].id || rs[k].generation != rs[i].generation
    requires Lists(Cleaned(ds[j]), refs)
    ensures var found := rs[i].(doc := Found(lib, rs[i])); var d := Cleaned(ds[j]);
            found in if rs[i].invalidated then Invalids(lib, d, refs) else Valids(lib, d, refs)
  {
    var r, d := rs[i], Cleaned(ds[j]);
    hide Load, Lists, Valids, Invalids, Cleaned, Stored, History, Storable, Consistent, Found, MetaName, BinName, DocId, DocGeneration, DocDigest;
    SurvivorLoads(lib, rs, ds, i, j);
    LoadIsChecked(lib, d, r.id, r.generation);
    StoredIsListed(d, refs, r.id, r.generation);
    RecoverPartitions(lib, d, refs);
  }

  class Store {
    var disk: Disk
    /** Every state the directory has been in: where a crash could have left it. */
    ghost var trail: seq<Disk>

    constructor (disk: Disk)
      ensures this.disk == disk && trail == [disk]
    {
      this.disk, trail := disk, [disk];
    }

    /** `atomicWriteBytes`: the temporary file grows until it is complete, then
        takes the place of the destination. */
    method AtomicWrite(name: Bytes, bytes: Bytes)
      modifies this
      ensures disk == Renamed(old(disk), name, bytes)
      ensures |trail| > |old(trail)| && trail[..|old(trail)|] == old(trail) && trail[|trail| - 1] == disk
      ensures forall k :: |old(trail)| <= k < |trail| ==>
        trail[k] == Renamed(old(disk), name, bytes) || Writing(old(disk), name, bytes, trail[k])
    {
      var tmp := name + TMP;
      ghost var start := disk;
      disk := disk[tmp := []];
      trail := trail + [disk];
      assert IsPrefix([], bytes) && disk == WithTmp(start, name, []);
      for i := 0 to |bytes|
        invariant disk == WithTmp(start, name, bytes[..i])
        invariant |trail| > |old(trail)| && trail[..|old(trail)|] == old(trail)
        invariant forall k :: |old(trail)| <= k < |trail| ==> Writing(start, name, bytes, trail[k])
      {
        assert bytes[..i] + [bytes[i]] == bytes[..i + 1];
        disk := disk[tmp := bytes[..i] + [bytes[i]]];
        assert IsPrefix(bytes[..i + 1], bytes) && disk == WithTmp(start, name, bytes[..i + 1]);
        trail := trail + [disk];
      }
      assert bytes[..|bytes|] == bytes;
      var whole := disk[tmp];
      disk := (disk - {tmp})[name := whole];
      assert disk == Renamed(start, name, bytes);
      trail := trail + [disk];
    }

    /** `store`: whatever instant is picked, the directory is in a state that an
        interrupted store of this record can leave. */
    method StoreRecord(lib: Lib, r: Record)
      modifies this
      ensures disk == Stored(lib, old(disk), r)
      ensures forall k :: |old(trail)| <= k < |trail| ==> Attempt(lib, old(disk), r, trail[k])
    {
      hide Meta, MetaName, BinName;
      ghost var start := disk;
      ghost var n := |trail|;
      AtomicWrite(MetaName(r.id, r.generation), Meta(lib, r));
      assert disk == MetaDone(lib, start, r);
      ghost var mid := trail;
      assert forall k :: n <= k < |mid| ==> Attempt(lib, start, r, mid[k]) by {
        hide Renamed;
        forall k | n <= k < |mid| ensures Attempt(lib, start, r, mid[k]) {
          if mid[k] == Renamed(start, MetaName(r.id, r.generation), Meta(lib, r)) {
            assert Writing(MetaDone(lib, start, r), BinName(r.id, r.generation), r.content, mid[k]);
          }
        }
      }
      AtomicWrite(BinName(r.id, r.generation), r.content);
      hide Renamed, Writing, MetaDone;
      forall k | n <= k < |trail| ensures Attempt(lib, start, r, trail[k]) {
        if k < |mid| {
          assert trail[k] == trail[..|mid|][k];
        }
      }
    }

    method LoadRecord(lib: Lib, id: Id128, gen: U64) returns (r: Loaded)
      ensures r == Load(lib, disk, id, gen)
    {
      hide MetaName, BinName, DecodeMeta, DocDigest;
      var meta := MetaName(id, gen);
      if meta !in disk { return Err(NotFound); }
      var parsed := DecodeMeta(lib, disk[meta]);
      if parsed.None? { return Err(MetadataCorrupt); }
      var bin := BinName(id, gen);
      if bin !in disk { return Err(ArtifactTruncated); }
      var actual := lib.hash(disk[bin]);
      if DocDigest(parsed.value.doc) != ZERO_DIGEST && actual != DocDigest(parsed.value.doc) { return Err(ArtifactCorrupt); }
      if parsed.value.id != id || parsed.value.generation != gen { return Err(MetadataCorrupt); }
      return Ok(parsed.value.(content := disk[bin]));
    }

    /** Reads the directory, in an order of the file system's choosing. */
    method Directory() returns (names: seq<Bytes>)
      ensures Enumerates(names, disk)
    {
      names := [];
      var todo := disk.Keys;
      while todo != {}
        invariant todo <= disk.Keys
        invariant forall n :: n in names <==> n in disk && n !in todo
        invariant forall i, j :: 0 <= i < j < |names| ==> names[i] != names[j]
      {
        var n :| n in todo;
        assert n !in names;
        names := names + [n];
        todo := todo - {n};
      }
    }

    method List() returns (out: seq<Ref>)
      ensures Lists(disk, out)
    {
      hide ParseName;
      var dir := Directory();
      out := [];
      for i := 0 to |dir|
        invariant out == Listing(dir[..i])
      {
        assert dir[..i + 1][..i] == dir[..i];
        var x := ParseName(dir[i]);
        if x.Some? { out := out + [x.value]; }
      }
      assert dir[..|dir|] == dir;
    }

    method RemoveTemps()
      modifies this`disk
      ensures disk == Cleaned(old(disk))
    {
      hide HasSuffix;
      var dir := Directory();
      ghost var start := disk;
      for i := 0 to |dir|
        invariant disk.Keys == set n | n in start && !(n in dir[..i] && HasSuffix(n, TMP))
        invariant forall n :: n in disk ==> disk[n] == start[n]
      {
        assert dir[..i + 1] == dir[..i] + [dir[i]];
        if HasSuffix(dir[i], TMP) { disk := disk - {dir[i]}; }
      }
      assert dir[..|dir|] == dir;
      assert disk == Cleaned(start);
    }

    /** `recover`: cleans up, then loads and classifies every listed record. */
    method Recover(lib: Lib)
      returns (valid: seq<Record>, corrupted: seq<Ref>, invalidated: seq<Record>, ghost refs: seq<Ref>)
      modifies this`disk
      ensures disk == Cleaned(old(disk)) && Lists(disk, refs)
      ensures valid == Valids(lib, disk, refs)
      ensures invalidated == Invalids(lib, disk, refs)
      ensures corrupted == Corrupts(lib, disk, refs)
    {
      RemoveTemps();
      var listed := List();
      refs := listed;
      valid, corrupted, invalidated := Classify(lib, listed);
    }

    method Classify(lib: Lib, refs: seq<Ref>) returns (valid: seq<Record>, corrupted: seq<Ref>, invalidated: seq<Record>)
      ensures valid == Valids(lib, disk, refs)
      ensures invalidated == Invalids(lib, disk, refs)
      ensures corrupted == Corrupts(lib, disk, refs)
    {
      valid, corrupted, invalidated := [], [], [];
      for i := 0 to |refs|
        invariant valid == Valids(lib, disk, refs[..i])
        invariant invalidated == Invalids(lib, disk, refs[..i])
        invariant corrupted == Corrupts(lib, disk, refs[..i])
      {
        hide Load, Valids, Invalids, Corrupts;
        ClassifyStep(lib, disk, refs, i);
        var r := LoadRecord(lib, refs[i].0, refs[i].1);
        if r.Err? { corrupted := corrupted + [refs[i]]; continue; }
        if r.record.invalidated { invalidated := invalidated + [r.record]; } else { valid := valid + [r.record]; }
      }
      assert refs[..|refs|] == refs;
    }
  }

  lemma ClassifyStep(lib: Lib, d: Disk, refs: seq<Ref>, i: nat)
    requires i < |refs|
    ensures var l := Load(lib, d, refs[i].0, refs[i].1);
            && Valids(lib, d, refs[..i + 1]) == Valids(lib, d, refs[..i]) + (if l.Ok? && !l.record.invalidated then [l.record] else [])
            && Invalids(lib, d, refs[..i + 1]) == Invalids(lib, d, refs[..i]) + (if l.Ok? && l.record.invalidated then [l.record] else [])
            && Corrupts(lib, d, refs[..i + 1]) == Corrupts(lib, d, refs[..i]) + (if l.Err? then [refs[i]] else [])
  {
    hide Load;
    assert refs[..i + 1][..i] == refs[..i];
  }
}
