/** What `ingest_object`, `put_manifest` and `ingest` do to the published files of a store, on any disk
    and against any rival writer. */
module Ingestion {
  import opened Wrappers
  import opened Texts
  import opened FileSystem
  import opened Manifest
  import opened ManifestFacts
  import opened Trees
  import opened StoreChecks
  import Digests

  /** What the disk keeps of a chunk written at an offset. */
  type Disk = (nat, Bytes) -> Bytes

  /** How one write goes: the disk, and the file a rival links at the address just before this writer does. */
  datatype Way = Way(disk: Disk, rival: Option<Bytes>)

  ghost predicate Faithful(disk: Disk) {
    forall at, chunk :: disk(at, chunk) == chunk
  }

  const CHUNK_SIZE: nat := 65536

  function ChunkEnd(data: Bytes, from: nat): (to: nat)
    requires from < |data|
    ensures from < to <= |data|
  {
    if from + CHUNK_SIZE <= |data| then from + CHUNK_SIZE else |data|
  }

  /** What the disk holds after `data[from..]` has been written chunk by chunk. */
  function Spool(disk: Disk, data: Bytes, from: nat): Bytes
    decreases |data| - from
  {
    if from >= |data| then []
    else
      var to := ChunkEnd(data, from);
      disk(from, data[from..to]) + Spool(disk, data, to)
  }

  lemma {:induction false} SpoolFaithful(disk: Disk, data: Bytes, from: nat)
    requires Faithful(disk) && from <= |data|
    ensures Spool(disk, data, from) == data[from..]
    decreases |data| - from
  {
    if from < |data| {
      var to := ChunkEnd(data, from);
      SpoolFaithful(disk, data, to);
      assert data[from..] == data[from..to] + data[to..];
    }
  }

  // ---- one object ----

  datatype Outcome = Ingested | AlreadyPresent

  predicate IsObject(sha: Bytes -> Text, data: Bytes, h: Text, size: int) {
    sha(data) == h && |data| == size
  }

  function IngestObject(sha: Bytes -> Text, store: Contents, source: Option<Bytes>, h: Text, size: int, way: Way)
    : (Option<Outcome>, Contents)
  {
    var n := ObjectName(h);
    if n in store then
      (if IsObject(sha, store[n], h, size) then Some(AlreadyPresent) else None, store)
    else if source.None? || !IsObject(sha, source.value, h, size) then (None, store)
    else if way.rival.Some? then
      (if IsObject(sha, way.rival.value, h, size) then Some(AlreadyPresent) else None, store[n := way.rival.value])
    else
      var kept := Spool(way.disk, source.value, 0);
      if IsObject(sha, kept, h, size) then (Some(Ingested), store[n := kept]) else (None, store)
  }

  // ---- one manifest ----

  function PutManifest(sha: Bytes -> Text, store: Contents, data: Bytes, way: Way): (Option<Text>, Contents) {
    if CheckBytes(data).None? then (None, store)
    else
      var h := sha(data);
      var n := ManifestName(h);
      if n in store then (if store[n] == data then Some(h) else None, store)
      else if way.rival.Some? then
        (if way.rival.value == data then Some(h) else None, store[n := way.rival.value])
      else
        var kept := way.disk(0, data);
        (if kept == data then Some(h) else None, store[n := kept])
  }

  // ---- a whole artifact ----

  /** The plain file an entry is ingested from. */
  function SourceOf(roots: map<Text, Node>, e: FileEntry): Option<Bytes> {
    if e.role in roots && IsRelativePath(e.relativePath) && IsFileAt(roots[e.role], SplitPath(e.relativePath)) then
      Some(NodeAt(roots[e.role], SplitPath(e.relativePath)).value.content)
    else None
  }

  datatype Counts = Counts(ingested: nat, alreadyPresent: nat)

  function Count(c: Counts, o: Outcome): Counts {
    if o.Ingested? then c.(ingested := c.ingested + 1) else c.(alreadyPresent := c.alreadyPresent + 1)
  }

  function IngestFiles(sha: Bytes -> Text, store: Contents, files: seq<FileEntry>, roots: map<Text, Node>,
                       ways: nat -> Way): (Option<Counts>, Contents)
  {
    if files == [] then (Some(Counts(0, 0)), store)
    else
      var n := |files| - 1;
      var before := IngestFiles(sha, store, files[..n], roots, ways);
      if before.0.None? then before
      else
        var e := files[n];
        var r := IngestObject(sha, before.1, SourceOf(roots, e), e.sha256, e.sizeBytes, ways(n));
        (if r.0.None? then None else Some(Count(before.0.value, r.0.value)), r.1)
  }

  datatype IngestReport = IngestReport(alreadyPresent: nat, ingested: nat, manifestSha256: Text, objectCount: nat)

  function RolesOf(files: seq<FileEntry>): set<Text> {
    set e | e in files :: e.role
  }

  function Ingest(sha: Bytes -> Text, store: Contents, data: Bytes, roots: map<Text, Node>, ways: nat -> Way)
    : (Option<IngestReport>, Contents)
  {
    var checked := CheckBytes(data);
    if checked.None? || roots.Keys != RolesOf(checked.value.files) then (None, store)
    else
      var files := checked.value.files;
      var objects := IngestFiles(sha, store, files, roots, ways);
      if objects.0.None? then (None, objects.1)
      else
        var put := PutManifest(sha, objects.1, data, ways(|files|));
        var c := objects.0.value;
        (if put.0.None? then None else Some(IngestReport(c.alreadyPresent, c.ingested, put.0.value, |files|)), put.1)
  }

  /** Everything published stays as it is. */
  predicate Extends(store: Contents, store': Contents) {
    forall n :: n in store ==> n in store' && store'[n] == store[n]
  }

  /** The state before the last entry of a call. */
  function BeforeLast(sha: Bytes -> Text, store: Contents, files: seq<FileEntry>, roots: map<Text, Node>,
                      ways: nat -> Way): (Option<Counts>, Contents)
    requires files != []
  {
    IngestFiles(sha, store, files[..|files| - 1], roots, ways)
  }

  /** What one accepted object does: its address is there and right, and counts as new when it was free. */
  lemma LastStep(sha: Bytes -> Text, store: Contents, files: seq<FileEntry>, roots: map<Text, Node>, ways: nat -> Way)
    requires files != [] && IngestFiles(sha, store, files, roots, ways).0.Some?
    ensures var before := BeforeLast(sha, store, files, roots, ways);
            var after := IngestFiles(sha, store, files, roots, ways);
            var n := |files| - 1;
            var name := ObjectName(files[n].sha256);
            && before.0.Some? && Extends(before.1, after.1)
            && Stored(sha, after.1, files[n]) && after.1.Keys == before.1.Keys + {name}
            && var (b, a) := (before.0.value, after.0.value);
               || (a == Count(b, Ingested) && name !in before.1)
               || (a == Count(b, AlreadyPresent) && (name in before.1 || ways(n).rival.Some?))
  {
    hide SourceOf, Spool;
  }

  // ---- nothing is overwritten ----

  lemma {:induction false} IngestFilesExtends(sha: Bytes -> Text, store: Contents, files: seq<FileEntry>,
                                              roots: map<Text, Node>, ways: nat -> Way)
    ensures Extends(store, IngestFiles(sha, store, files, roots, ways).1)
    ensures forall n :: n in IngestFiles(sha, store, files, roots, ways).1 && n !in store ==> n.ObjectName?
  {
    hide IsObject, SourceOf, Spool;
    if files != [] {
      IngestFilesExtends(sha, store, files[..|files| - 1], roots, ways);
    }
  }

  /** Whatever the disk keeps and whatever rivals link: no call changes or removes a published file. */
  lemma IngestExtends(sha: Bytes -> Text, store: Contents, data: Bytes, roots: map<Text, Node>, ways: nat -> Way)
    ensures Extends(store, Ingest(sha, store, data, roots, ways).1)
  {
    hide CheckBytes, IngestFiles;
    if CheckBytes(data).Some? {
      IngestFilesExtends(sha, store, CheckBytes(data).value.files, roots, ways);
    }
  }

  /** A call files nothing but what it was given: an object whose source, or the file a rival links, stands for the
      address, and a manifest that is valid. What it refuses it leaves alone. */
  lemma FilesOnlyMatching(sha: Bytes -> Text, store: Contents, source: Option<Bytes>, h: Text, size: int, data: Bytes,
                          way: Way)
    ensures var r := IngestObject(sha, store, source, h, size, way);
            && (r.1 != store ==> ObjectName(h) !in store && source.Some? && sha(source.value) == h && |source.value| == size)
            && (ObjectName(h) !in store && (source.None? || sha(source.value) != h || |source.value| != size) ==>
                  r == (None, store))
            && (ObjectName(h) in store ==>
                  (r.0 == Some(AlreadyPresent) <==> sha(store[ObjectName(h)]) == h && |store[ObjectName(h)]| == size)
                  && r.0 != Some(Ingested))
    ensures CheckBytes(data).None? ==> PutManifest(sha, store, data, way) == (None, store)
  {
    hide CheckBytes, Spool;
  }

  /** The role roots must be those of the manifest, no more and no fewer, and the manifest must be valid. */
  lemma RolesMustMatch(sha: Bytes -> Text, store: Contents, data: Bytes, roots: map<Text, Node>, ways: nat -> Way)
    requires CheckBytes(data).None?
             || exists role :: (role in roots) != exists e :: e in CheckBytes(data).value.files && e.role == role
    ensures Ingest(sha, store, data, roots, ways) == (None, store)
  {
    hide CheckBytes, IngestFiles;
    if CheckBytes(data).Some? {
      var files := CheckBytes(data).value.files;
      var role :| (role in roots) != exists e :: e in files && e.role == role;
      assert role in RolesOf(files) <==> exists e :: e in files && e.role == role;
    }
  }

  // ---- success means stored ----

  lemma {:induction false} IngestFilesStores(sha: Bytes -> Text, store: Contents, files: seq<FileEntry>,
                                             roots: map<Text, Node>, ways: nat -> Way)
    requires IngestFiles(sha, store, files, roots, ways).0.Some?
    ensures var r := IngestFiles(sha, store, files, roots, ways);
            && AllStored(sha, r.1, files)
            && r.0.value.ingested + r.0.value.alreadyPresent == |files|
  {
    if files != [] {
      LastStep(sha, store, files, roots, ways);
      hide IngestFiles;
      var n := |files| - 1;
      IngestFilesStores(sha, store, files[..n], roots, ways);
      assert files == files[..n] + [files[n]];
      var before := BeforeLast(sha, store, files, roots, ways).1;
      forall e | e in files
        ensures Stored(sha, IngestFiles(sha, store, files, roots, ways).1, e)
      {
        if e != files[n] {
          assert e in files[..n] && Stored(sha, before, e);
        }
      }
    }
  }

  /** An ingest that reports success can be verified in full, even on a disk that loses or alters what is written. */
  lemma IngestedVerifies(sha: Bytes -> Text, store: Contents, data: Bytes, roots: map<Text, Node>, ways: nat -> Way)
    requires Ingest(sha, store, data, roots, ways).0.Some?
    ensures CheckBytes(data).Some?
    ensures var r := Ingest(sha, store, data, roots, ways);
            var m := CheckBytes(data).value;
            && r.0.value.manifestSha256 == sha(data) && r.0.value.objectCount == |m.files|
            && r.0.value.ingested + r.0.value.alreadyPresent == |m.files|
            && ManifestName(sha(data)) in r.1 && r.1[ManifestName(sha(data))] == data
            && AllStored(sha, r.1, m.files)
            && VerifyCopy(sha, r.1, sha(data)) == Some(CopyReport(m.artifactId, sha(data), m.fileCount))
  {
    hide CheckBytes, IngestFiles;
    var files := CheckBytes(data).value.files;
    var objects := IngestFiles(sha, store, files, roots, ways);
    IngestFilesStores(sha, store, files, roots, ways);
    var store' := Ingest(sha, store, data, roots, ways).1;
    forall e | e in files
      ensures Stored(sha, store', e)
    {
      assert Stored(sha, objects.1, e);
    }
  }

  // ---- counting ----

  predicate NoRivals(ways: nat -> Way, n: nat) {
    forall i: nat :: i < n ==> ways(i).rival.None?
  }

  lemma OneMore<T>(base: set<T>, before: set<T>, after: set<T>, x: T)
    requires base <= before && after == before + {x}
    ensures |after - base| == |before - base| + if x in before then 0 else 1
  {
    if x in before {
      assert after - base == before - base;
    } else {
      assert after - base == (before - base) + {x};
    }
  }

  /** `ingested` is the number of addresses that were free before, unless rivals filled some of them. */
  lemma {:induction false} IngestFilesCounts(sha: Bytes -> Text, store: Contents, files: seq<FileEntry>,
                                             roots: map<Text, Node>, ways: nat -> Way)
    requires IngestFiles(sha, store, files, roots, ways).0.Some?
    ensures var r := IngestFiles(sha, store, files, roots, ways);
            && r.0.value.ingested <= |r.1.Keys - store.Keys|
            && (NoRivals(ways, |files|) ==> r.0.value.ingested == |r.1.Keys - store.Keys|)
  {
    if files != [] {
      LastStep(sha, store, files, roots, ways);
      hide IngestFiles;
      var n := |files| - 1;
      var before := BeforeLast(sha, store, files, roots, ways);
      var after := IngestFiles(sha, store, files, roots, ways);
      IngestFilesCounts(sha, store, files[..n], roots, ways);
      IngestFilesExtends(sha, store, files[..n], roots, ways);
      OneMore(store.Keys, before.1.Keys, after.1.Keys, ObjectName(files[n].sha256));
    } else {
      assert store.Keys - store.Keys == {};
    }
  }

  function ObjectNames(files: seq<FileEntry>): set<Name> {
    set e | e in files :: ObjectName(e.sha256)
  }

  function Hashes(files: seq<FileEntry>): set<Text> {
    set e | e in files :: e.sha256
  }

  lemma NamesStep(files: seq<FileEntry>)
    requires files != []
    ensures ObjectNames(files) == ObjectNames(files[..|files| - 1]) + {ObjectName(files[|files| - 1].sha256)}
  {
    assert files == files[..|files| - 1] + [files[|files| - 1]];
  }

  lemma {:induction false} IngestFilesAddresses(sha: Bytes -> Text, store: Contents, files: seq<FileEntry>,
                                                roots: map<Text, Node>, ways: nat -> Way)
    requires IngestFiles(sha, store, files, roots, ways).0.Some?
    ensures IngestFiles(sha, store, files, roots, ways).1.Keys
            == store.Keys + ObjectNames(files)
  {
    if files != [] {
      LastStep(sha, store, files, roots, ways);
      NamesStep(files);
      hide IngestFiles, ObjectNames, Stored, Extends;
      IngestFilesAddresses(sha, store, files[..|files| - 1], roots, ways);
    }
  }

  function Addresses(hs: set<Text>): set<Name> {
    set h | h in hs :: ObjectName(h)
  }

  lemma {:induction false} AddressesCount(hs: set<Text>)
    ensures |Addresses(hs)| == |hs|
  {
    if hs != {} {
      var h :| h in hs;
      AddressesCount(hs - {h});
      assert Addresses(hs) == Addresses(hs - {h}) + {ObjectName(h)};
    }
  }

  /** On a store without objects, `ingested` is the number of different hashes in the manifest. */
  lemma FirstIngestCounts(sha: Bytes -> Text, store: Contents, data: Bytes, roots: map<Text, Node>, ways: nat -> Way)
    requires Ingest(sha, store, data, roots, ways).0.Some?
    requires forall n :: n in store ==> !n.ObjectName?
    requires NoRivals(ways, |CheckBytes(data).value.files|)
    ensures Ingest(sha, store, data, roots, ways).0.value.ingested == |Hashes(CheckBytes(data).value.files)|
  {
    hide CheckBytes, IngestFiles;
    var files := CheckBytes(data).value.files;
    IngestFilesCounts(sha, store, files, roots, ways);
    IngestFilesAddresses(sha, store, files, roots, ways);
    AddressesCount(Hashes(files));
    assert ObjectNames(files) == Addresses(Hashes(files));
    assert IngestFiles(sha, store, files, roots, ways).1.Keys - store.Keys == ObjectNames(files);
  }

  // ---- soundness of the store ----

  /** Objects hash to their addresses, and every manifest verifies in full. */
  ghost predicate Sound(sha: Bytes -> Text, store: Contents) {
    && (forall h :: ObjectName(h) in store ==> sha(store[ObjectName(h)]) == h)
    && (forall h :: ManifestName(h) in store ==> VerifyCopy(sha, store, h).Some?)
  }

  /** Rivals are ingesters too: what they link hashes to the address. */
  predicate HonestRivals(sha: Bytes -> Text, files: seq<FileEntry>, ways: nat -> Way) {
    forall i: nat :: i < |files| && ways(i).rival.Some? ==> sha(ways(i).rival.value) == files[i].sha256
  }

  lemma VerifyStays(sha: Bytes -> Text, store: Contents, store': Contents, h: Text)
    requires Extends(store, store') && VerifyCopy(sha, store, h).Some?
    ensures VerifyCopy(sha, store', h) == VerifyCopy(sha, store, h)
  {
    hide CheckBytes;
    var m := LoadManifest(sha, store, h).value;
    forall e | e in m.files
      ensures Stored(sha, store', e)
    {
      assert Stored(sha, store, e);
    }
  }

  lemma {:induction false} IngestFilesSound(sha: Bytes -> Text, store: Contents, files: seq<FileEntry>,
                                            roots: map<Text, Node>, ways: nat -> Way)
    requires Sound(sha, store) && HonestRivals(sha, files, ways)
    ensures Sound(sha, IngestFiles(sha, store, files, roots, ways).1)
  {
    hide SourceOf, Spool, VerifyCopy;
    if files != [] {
      var n := |files| - 1;
      IngestFilesSound(sha, store, files[..n], roots, ways);
      var before := IngestFiles(sha, store, files[..n], roots, ways).1;
      var after := IngestFiles(sha, store, files, roots, ways).1;
      assert Extends(before, after);
      forall h | ManifestName(h) in after
        ensures VerifyCopy(sha, after, h).Some?
      {
        VerifyStays(sha, before, after, h);
      }
    }
  }

  /** A call keeps the store sound, on any disk for the objects; only a manifest that is altered while being
      written breaks it. */
  lemma IngestSound(sha: Bytes -> Text, store: Contents, data: Bytes, roots: map<Text, Node>, ways: nat -> Way)
    requires Sound(sha, store) && CheckBytes(data).Some?
    requires var files := CheckBytes(data).value.files;
             && HonestRivals(sha, files, ways)
             && (ways(|files|).rival.Some? ==> ways(|files|).rival.value == data)
             && ways(|files|).disk(0, data) == data
    ensures Sound(sha, Ingest(sha, store, data, roots, ways).1)
  {
    hide CheckBytes, IngestFiles, VerifyCopy;
    var files := CheckBytes(data).value.files;
    IngestFilesSound(sha, store, files, roots, ways);
    var objects := IngestFiles(sha, store, files, roots, ways);
    var r := Ingest(sha, store, data, roots, ways);
    IngestExtends(sha, store, data, roots, ways);
    if objects.0.Some? && roots.Keys == RolesOf(files) {
      assert Extends(objects.1, r.1);
      forall h | ManifestName(h) in r.1
        ensures VerifyCopy(sha, r.1, h).Some?
      {
        if ManifestName(h) in objects.1 {
          VerifyStays(sha, objects.1, r.1, h);
        } else {
          IngestedVerifies(sha, store, data, roots, ways);
        }
      }
    }
  }

  /** After its objects, a manifest's own write succeeds, and leaves the store sound, exactly when it was there
      already or what gets to the address, a rival's file or what the disk kept, is the manifest. */
  lemma PutManifestSoundIff(sha: Bytes -> Text, store: Contents, data: Bytes, way: Way)
    requires Sound(sha, store)
    requires CheckBytes(data).Some? && AllStored(sha, store, CheckBytes(data).value.files)
    requires Digests.CollisionFree(sha, Digests.Strings(PutManifest(sha, store, data, way).1.Values + {data}))
    ensures var r := PutManifest(sha, store, data, way);
            var kept := ManifestName(sha(data)) in store
                        || (if way.rival.Some? then way.rival.value else way.disk(0, data)) == data;
            (r.0.Some? <==> kept) && (Sound(sha, r.1) <==> kept)
  {
    hide CheckBytes, AllStored;
    var n := ManifestName(sha(data));
    var store' := PutManifest(sha, store, data, way).1;
    if n in store {
      assert VerifyCopy(sha, store, sha(data)).Some?;
    } else if (if way.rival.Some? then way.rival.value else way.disk(0, data)) == data {
      var m := CheckBytes(data).value;
      StillStored(sha, store, store', m.files);
      forall h | ManifestName(h) in store'
        ensures VerifyCopy(sha, store', h).Some?
      {
        if h != sha(data) {
          VerifyStays(sha, store, store', h);
        }
      }
    } else {
      assert n in store' && VerifyCopy(sha, store', sha(data)).None?;
    }
  }

  lemma StillStored(sha: Bytes -> Text, store: Contents, store': Contents, files: seq<FileEntry>)
    requires Extends(store, store') && AllStored(sha, store, files)
    ensures AllStored(sha, store', files)
  {
    forall e | e in files
      ensures Stored(sha, store', e)
    {
      assert Stored(sha, store, e);
    }
  }

  /** `put_manifest` does not take back a manifest that fails its read-back: the bad bytes stay at the address,
      and from then on no write of that manifest succeeds, on any disk. */
  lemma BadManifestStays(sha: Bytes -> Text, store: Contents, data: Bytes, bad: Way, later: Way)
    requires CheckBytes(data).Some? && ManifestName(sha(data)) !in store
    requires bad.rival.None? && bad.disk(0, data) != data
    ensures var r := PutManifest(sha, store, data, bad);
            && r.0.None? && ManifestName(sha(data)) in r.1
            && PutManifest(sha, r.1, data, later) == (None, r.1)
  {
    hide CheckBytes;
  }
}
