/** Concrete inputs behind two findings about the store: a manifest that verifies and cannot be restored, and a
    manifest whose failed write stays. */
module Counterexamples {
  import opened Wrappers
  import opened Texts
  import opened FileSystem
  import opened Manifest
  import opened ManifestFacts
  import opened Trees
  import opened Digests
  import opened StoreChecks
  import opened Ingestion
  import opened Workspace
  import opened Restoration

  const A: Text := [97]
  const A_B: Text := [97, SLASH, 98]
  const ROLE_R: Text := [114]

  /** An empty file of role `r`. */
  function EmptyFile(sha: Bytes -> Text, path: Text): FileEntry {
    FileEntry(path, ROLE_R, sha([]), 0)
  }

  lemma PathsSplit()
    ensures Split(A) == [[97]] && Split(A_B) == [[97], [98]]
    ensures IsRelativePath(A) && IsRelativePath(A_B) && Less(A, A_B) && CaseFold(A) != CaseFold(A_B)
  {
    SplitHead([97], [98]);
    SplitHead([98], []);
    assert A_B == [97] + [SLASH] + [98];
    assert [[97]] + Split([98]) == [[97], [98]];
    LessAt(A, A_B, 1);
  }

  // ---- verified and not restorable ----

  /** The files `a` and `a/b` of one role. */
  function FileAndBelow(sha: Bytes -> Text): Manifest {
    Manifest(A, 2, [EmptyFile(sha, A), EmptyFile(sha, A_B)], 0)
  }

  lemma FileAndBelowValid(sha: Bytes -> Text)
    requires IsDigest(sha([]))
    ensures ValidManifest(FileAndBelow(sha))
  {
    PathsSplit();
    var files := FileAndBelow(sha).files;
    assert files[..1] == [files[0]] && files[..1][..0] == [];
    assert TotalSize(files[..1]) == 0;
    hide Split, CaseFold, Less, IsDigest, IsRelativePath;
  }

  /** A store that holds that manifest and the empty object. */
  function StoreOf(sha: Bytes -> Text, m: Manifest): Contents {
    map[ObjectName(sha([])) := [], ManifestName(sha(ManifestBytes(m))) := ManifestBytes(m)]
  }

  lemma StoredManifestLoads(sha: Bytes -> Text, m: Manifest)
    requires ValidManifest(m) && forall e :: e in m.files ==> e.sha256 == sha([]) && e.sizeBytes == 0
    ensures LoadManifest(sha, StoreOf(sha, m), sha(ManifestBytes(m))) == Some(m)
    ensures VerifyCopy(sha, StoreOf(sha, m), sha(ManifestBytes(m))).Some?
  {
    hide ManifestBytes, ValidManifest, CheckBytes;
    CheckBytesIff(ManifestBytes(m), m);
  }

  lemma FileInTheWay(sha: Bytes -> Text)
    requires IsDigest(sha([])) && ValidManifest(FileAndBelow(sha))
    ensures !NoFileInTheWay(FileAndBelow(sha).files)
  {
    PathsSplit();
    var files: seq<ValidFile> := FileAndBelow(sha).files;
    assert Target(files[0]) == [ROLE_R, [97]] && Target(files[1]) == [ROLE_R, [97], [98]];
    assert Target(files[0]) <= Target(files[1]);
  }

  /** On this store the copy verifies in full, and no restore of it succeeds, on any disk. */
  lemma VerifiesWithoutRestoring(sha: Bytes -> Text, disks: nat -> Disk)
    requires IsDigest(sha([]))
    ensures var m := FileAndBelow(sha);
            var h := sha(ManifestBytes(m));
            && ValidManifest(m) && VerifyCopy(sha, StoreOf(sha, m), h).Some?
            && !NoFileInTheWay(m.files) && !Restorable(sha, StoreOf(sha, m), h, disks)
  {
    var m := FileAndBelow(sha);
    FileAndBelowValid(sha);
    StoredManifestLoads(sha, m);
    FileInTheWay(sha);
    hide LoadManifest, ManifestBytes, Target, RightTree, ValidManifest, RestoreFiles, CreateAll, FileAndBelow, Spool;
    var files: seq<ValidFile> := m.files;
    RestoreIsCreate(sha, StoreOf(sha, m), files, disks);
    if AllStored(sha, StoreOf(sha, m), files) {
      CreateAllIff(Writes(StoreOf(sha, m), files, disks));
    }
  }

  // ---- a failed write that stays ----

  function OneFile(sha: Bytes -> Text): Manifest {
    Manifest(A, 1, [EmptyFile(sha, A)], 0)
  }

  lemma OneFileValid(sha: Bytes -> Text)
    requires IsDigest(sha([]))
    ensures ValidManifest(OneFile(sha))
  {
    PathsSplit();
    var files := OneFile(sha).files;
    assert files[..|files| - 1] == [];
    assert TotalSize(files) == 0;
    assert forall e :: e in files ==> e == files[0];
    assert ValidEntry(files[0]);
    hide Split, IsDigest, IsRelativePath, CaseFold, Less;
  }

  /** A disk that loses the last byte of each chunk. */
  const DropsAByte: Disk := (at, chunk) => if chunk == [] then [] else chunk[..|chunk| - 1]
  const KeepsAll: Disk := (at, chunk) => chunk

  /** The objects are there, the manifest's write loses a byte: the write fails, the store is no longer sound, and
      the next write, on a disk that keeps everything, fails again. */
  lemma FailedWriteStays(sha: Bytes -> Text)
    requires HexDigests(sha)
    requires var data := ManifestBytes(OneFile(sha)); CollisionFree(sha, iset{data, DropsAByte(0, data)})
    ensures var data := ManifestBytes(OneFile(sha));
            var store: Contents := map[ObjectName(sha([])) := []];
            var failed := PutManifest(sha, store, data, Way(DropsAByte, None));
            && Sound(sha, store) && failed.0.None? && !Sound(sha, failed.1)
            && Faithful(KeepsAll) && PutManifest(sha, failed.1, data, Way(KeepsAll, None)).0.None?
  {
    var m := OneFile(sha);
    var data := ManifestBytes(m);
    var store: Contents := map[ObjectName(sha([])) := []];
    assert IsDigest(sha([]));
    OneFileValid(sha);
    CheckBytesIff(data, m);
    hide ManifestBytes, CheckBytes, ValidManifest, HexDigests;
    var bad, good := Way(DropsAByte, None), Way(KeepsAll, None);
    assert |DropsAByte(0, data)| == |data| - 1;
    BadManifestStays(sha, store, data, bad, good);
    var failed := PutManifest(sha, store, data, bad).1;
    assert ManifestName(sha(data)) in failed && failed[ManifestName(sha(data))] == DropsAByte(0, data);
    assert VerifyCopy(sha, failed, sha(data)).None?;
  }

  /** The same with a digest written out. */
  lemma FailedWriteStaysByParity()
    ensures var sha := PARITY_DIGEST;
            var data := ManifestBytes(OneFile(sha));
            var store: Contents := map[ObjectName(sha([])) := []];
            var failed := PutManifest(sha, store, data, Way(DropsAByte, None));
            && Sound(sha, store) && failed.0.None? && !Sound(sha, failed.1)
            && PutManifest(sha, failed.1, data, Way(KeepsAll, None)).0.None?
  {
    var data := ManifestBytes(OneFile(PARITY_DIGEST));
    ParityTellsApart(data, DropsAByte(0, data));
    hide ManifestBytes, PutManifest, Sound, CollisionFree, HexDigests;
    FailedWriteStays(PARITY_DIGEST);
  }
}
