/** Building a manifest, ingesting it and restoring it gives back the same (role, path) to bytes map. */
module RoundTrip {
  import opened Wrappers
  import opened Texts
  import opened FileSystem
  import opened Manifest
  import opened ManifestFacts
  import opened Trees
  import opened Scan
  import opened Digests
  import opened Build
  import opened StoreChecks
  import opened Ingestion
  import opened Workspace
  import opened Restoration

  /** Undisturbed: the disk keeps every byte and nobody else writes. */
  ghost predicate Undisturbed(ways: nat -> Way) {
    forall i: nat :: ways(i).rival.None? && Faithful(ways(i).disk)
  }

  /** An entry found in the scanned trees names one of their files. */
  lemma ScannedFile(sha: Bytes -> Text, m: Manifest, roots: map<Text, Node>, e: ValidFile)
    requires Describes(sha, m, FilesOf(roots)) && e in m.files
    ensures var p := Target(e)[1..];
            && (e.role, p) in FilesOf(roots) && p != []
            && Target(e) == [e.role] + p
            && SourceOf(roots, e) == Some(FilesOf(roots)[(e.role, p)])
            && IsObject(sha, FilesOf(roots)[(e.role, p)], e.sha256, e.sizeBytes)
  {
    hide IsRelativePath, ValidManifest, Join, Split;
    var k :| k in FilesOf(roots) && k.1 != [] && e == EntryOf(sha, k.0, k.1, FilesOf(roots)[k]);
    SplitJoin(k.1);
    assert Target(e)[1..] == SplitPath(e.relativePath);
  }

  /** All byte strings that a store, these trees and this manifest bring along. */
  ghost function Involved(store: Contents, m: Manifest, roots: map<Text, Node>): iset<Bytes> {
    Strings(store.Values + {ManifestBytes(m)}) + FilesOf(roots).Values
  }

  lemma SoundObject(sha: Bytes -> Text, store: Contents, known: iset<Bytes>, h: Text, content: Bytes)
    requires CollisionFree(sha, known) && Strings(store.Values) <= known && content in known
    requires Sound(sha, store) && sha(content) == h
    ensures ObjectName(h) in store ==> store[ObjectName(h)] == content
    ensures ManifestName(h) in store ==> store[ManifestName(h)] == content
  {
    hide CheckBytes;
    assert forall n :: n in store ==> store[n] in store.Values;
  }

  /** One scanned file: it is stored, or found with the same content. */
  lemma UndisturbedObject(sha: Bytes -> Text, store: Contents, content: Bytes, e: FileEntry, way: Way,
                          known: iset<Bytes>)
    requires CollisionFree(sha, known) && Strings(store.Values) <= known && content in known && Sound(sha, store)
    requires way.rival.None? && Faithful(way.disk) && IsObject(sha, content, e.sha256, e.sizeBytes)
    ensures var r := IngestObject(sha, store, Some(content), e.sha256, e.sizeBytes, way);
            r.0.Some? && Strings(r.1.Values) <= known
  {
    SoundObject(sha, store, known, e.sha256, content);
    SpoolFaithful(way.disk, content, 0);
    assert content[0..] == content;
    hide Spool, Sound, CollisionFree, Faithful;
  }

  /** An undisturbed ingest of scanned files succeeds, and adds nothing but their contents. */
  lemma {:induction false} UndisturbedIngest(sha: Bytes -> Text, store: Contents, files: seq<ValidFile>, m: Manifest,
                                             roots: map<Text, Node>, ways: nat -> Way, known: iset<Bytes>)
    requires CollisionFree(sha, known) && Strings(store.Values) <= known && FilesOf(roots).Values <= known
    requires Sound(sha, store) && Undisturbed(ways)
    requires Describes(sha, m, FilesOf(roots)) && forall e :: e in files ==> e in m.files
    ensures IngestFiles(sha, store, files, roots, ways).0.Some?
    ensures Strings(IngestFiles(sha, store, files, roots, ways).1.Values) <= known
  {
    if files != [] {
      hide Describes, FilesOf, SourceOf, Sound, Spool, Target, CollisionFree, IngestObject, IsObject, Strings, Faithful;
      var n := |files| - 1;
      UndisturbedIngest(sha, store, files[..n], m, roots, ways, known);
      IngestFilesSound(sha, store, files[..n], roots, ways);
      var e := files[n];
      ScannedFile(sha, m, roots, e);
      var content := FilesOf(roots)[(e.role, Target(e)[1..])];
      assert content in FilesOf(roots).Values;
      UndisturbedObject(sha, IngestFiles(sha, store, files[..n], roots, ways).1, content, e, ways(n), known);
    }
  }

  lemma RolesScanned(sha: Bytes -> Text, m: Manifest, roots: map<Text, Node>)
    requires Buildable(m.artifactId, roots) && Describes(sha, m, FilesOf(roots))
    ensures roots.Keys == RolesOf(m.files)
  {
    hide ValidManifest;
    forall role | role in roots
      ensures role in RolesOf(m.files)
    {
      assert Scannable(role, roots[role]);
      var p: Path :| IsFileAt(roots[role], p);
      assert (role, p) in FilesOf(roots);
    }
  }

  lemma TargetsDiffer(files: seq<ValidFile>, i: nat, j: nat)
    requires Ordered(files) && i < |files| && j < |files| && i != j
    ensures Target(files[i]) != Target(files[j])
  {
    TargetParts(files[i]);
    TargetParts(files[j]);
    if SameKey(files[i], files[j]) {
      OrderedDistinct(files, i, j);
    }
  }

  /** Files of one directory tree never get in each other's way. */
  lemma TreeHasNoFileInTheWay(sha: Bytes -> Text, m: Manifest, roots: map<Text, Node>)
    requires Describes(sha, m, FilesOf(roots))
    ensures ValidManifest(m) && NoFileInTheWay(m.files)
  {
    hide ValidEntry, Target, SourceOf, NodeAt;
    var files: seq<ValidFile> := m.files;
    forall i, j | 0 <= i < |files| && 0 <= j < |files| && i != j
      ensures !(Target(files[i]) <= Target(files[j]))
    {
      var p, q := Target(files[i]), Target(files[j]);
      TargetsDiffer(files, i, j);
      if p <= q {
        ScannedFile(sha, m, roots, files[i]);
        ScannedFile(sha, m, roots, files[j]);
        assert p[1..] <= q[1..] && p[0] == q[0];
        FileBlocks(roots[files[i].role], p[1..], q[1..]);
      }
    }
  }

  lemma UndisturbedPut(sha: Bytes -> Text, store: Contents, m: Manifest, roots: map<Text, Node>, ways: nat -> Way)
    requires CollisionFree(sha, Involved(store, m, roots)) && Sound(sha, store) && Undisturbed(ways)
    requires Buildable(m.artifactId, roots) && Describes(sha, m, FilesOf(roots))
    ensures Ingest(sha, store, ManifestBytes(m), roots, ways).0.Some?
    ensures Strings(Ingest(sha, store, ManifestBytes(m), roots, ways).1.Values) <= Involved(store, m, roots)
  {
    hide Buildable, Sound, ManifestBytes, CheckBytes, IngestFiles, ValidEntry, FilesOf;
    var known := Involved(store, m, roots);
    assert ManifestBytes(m) in known && Strings(store.Values) <= known;
    var data := ManifestBytes(m);
    CheckBytesIff(data, m);
    RolesScanned(sha, m, roots);
    UndisturbedIngest(sha, store, m.files, m, roots, ways, known);
    IngestFilesExtends(sha, store, m.files, roots, ways);
    IngestFilesSound(sha, store, m.files, roots, ways);
    SoundObject(sha, IngestFiles(sha, store, m.files, roots, ways).1, known, sha(data), data);
  }

  /** The whole way round, from any sound store. */
  lemma BuildIngestRestore(sha: Bytes -> Text, store: Contents, m: Manifest, roots: map<Text, Node>,
                           ways: nat -> Way, disks: nat -> Disk)
    requires CollisionFree(sha, Involved(store, m, roots)) && Sound(sha, store)
    requires Undisturbed(ways) && forall i: nat :: Faithful(disks(i))
    requires Buildable(m.artifactId, roots) && Describes(sha, m, FilesOf(roots))
    ensures ValidManifest(m)
    ensures var h := sha(ManifestBytes(m));
            var r := Ingest(sha, store, ManifestBytes(m), roots, ways);
            && r.0.Some?
            && r.0.value.ingested + r.0.value.alreadyPresent == |m.files|
            && LoadManifest(sha, r.1, h) == Some(m)
            && Restorable(sha, r.1, h, disks)
            && FilesOf(RestoreFiles(sha, r.1, m.files, disks).value.children) == FilesOf(roots)
  {
    hide Buildable, Sound, ManifestBytes, CheckBytes, Ingest, RestoreFiles, ValidEntry, FilesOf, Describes, NoFileInTheWay;
    var data := ManifestBytes(m);
    UndisturbedPut(sha, store, m, roots, ways);
    TreeHasNoFileInTheWay(sha, m, roots);
    CheckBytesIff(data, m);
    IngestedVerifies(sha, store, data, roots, ways);
    var store' := Ingest(sha, store, data, roots, ways).1;
    RestorableIff(sha, store', sha(data), disks);
    RestoredFromStore(sha, store', m.files, disks);
    assert FilesOf(roots).Values <= Involved(store, m, roots);
    MapDetermined(sha, m, FilesOf(RestoreFiles(sha, store', m.files, disks).value.children), FilesOf(roots));
  }
}
