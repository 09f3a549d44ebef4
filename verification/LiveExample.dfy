/** A registry that passes the live check: one file, kept by two stores on two devices. */
module LiveExample {
  import opened Wrappers
  import opened Texts
  import opened Manifest
  import opened ManifestFacts
  import opened StoreChecks
  import opened Digests
  import opened Registry
  import opened Availability
  import opened Counterexamples

  const LEFT: Text := Lit("left")
  const RIGHT: Text := Lit("right")

  /** The record of the file's manifest, with a copy in each store. */
  function TwoCopies(sha: Bytes -> Text): Record {
    var h := sha(ManifestBytes(OneFile(sha)));
    Record(A, VerifiedAvailable, [CopyOf(LEFT, LEFT, h, 1), CopyOf(RIGHT, RIGHT, h, 1)], Some(h))
  }

  function EntryOf(name: Text): StoreEntry {
    StoreEntry(name, FILESYSTEM, name, true, name)
  }

  const STORES := [EntryOf(LEFT), EntryOf(RIGHT)]

  /** Both stores hold the same files, on devices 1 and 2. */
  function Machine(sha: Bytes -> Text): World {
    var contents := StoreOf(sha, OneFile(sha));
    World(map[LEFT := Lit("/left"), RIGHT := Lit("/right")],
          map[Lit("/left") := Root(1, 1, contents), Lit("/right") := Root(2, 1, contents)])
  }

  lemma Names()
    ensures LEFT != RIGHT && IsStoreId(LEFT) && IsStoreId(RIGHT) && IsArtifactId(LEFT) && IsArtifactId(RIGHT)
    ensures Lit("/left") != Lit("/right") && AllowedRoot(Lit("/left")) && AllowedRoot(Lit("/right"))
  {
    assert Lit("/left")[1] == 108 && Lit("/right")[1] == 114 && Lit("/tmp")[1] == 116 && Lit("/srv/qnty")[1] == 115;
  }

  lemma StoresFound()
    ensures StoresOk(STORES) && LEFT in StoresById(STORES) && RIGHT in StoresById(STORES)
    ensures StoresById(STORES)[LEFT] == EntryOf(LEFT) && StoresById(STORES)[RIGHT] == EntryOf(RIGHT)
  {
    Names();
    hide LEFT, RIGHT;
    StoresByIdIff(STORES, LEFT, EntryOf(LEFT));
    StoresByIdIff(STORES, RIGHT, EntryOf(RIGHT));
    assert STORES[0] in STORES && STORES[1] in STORES;
  }

  lemma RecordPasses(sha: Bytes -> Text)
    requires HexDigests(sha)
    ensures RecordOk(TwoCopies(sha)) && CrossChecked(TwoCopies(sha), StoresById(STORES))
  {
    Names();
    StoresFound();
    assert IsArtifactId(A);
    hide LEFT, RIGHT, STORES, ManifestBytes, IsStoreId, IsArtifactId, RecordOk, IsDigest;
    TwoCopiesIff(A, LEFT, RIGHT, LEFT, RIGHT, sha(ManifestBytes(OneFile(sha))), 1, 1);
  }

  lemma StoreVerifies(sha: Bytes -> Text)
    requires HexDigests(sha)
    ensures var m := OneFile(sha);
            var h := sha(ManifestBytes(m));
            VerifyCopy(sha, StoreOf(sha, m), h) == Some(CopyReport(A, h, 1))
  {
    assert IsDigest(sha([]));
    OneFileValid(sha);
    hide ManifestBytes, ValidManifest, HexDigests;
    StoredManifestLoads(sha, OneFile(sha));
  }

  lemma RootsOpen(sha: Bytes -> Text)
    ensures var contents := StoreOf(sha, OneFile(sha));
            && Usable(Machine(sha), EntryOf(LEFT)) && OpenRoot(Machine(sha), EntryOf(LEFT)) == Some(Root(1, 1, contents))
            && Usable(Machine(sha), EntryOf(RIGHT)) && OpenRoot(Machine(sha), EntryOf(RIGHT)) == Some(Root(2, 1, contents))
  {
    Names();
    hide LEFT, RIGHT, AllowedRoot, StoreOf, OneFile, Lit, FILESYSTEM;
    assert |Lit("/left")| == 5 && |Lit("/right")| == 6;
  }

  /** The record is accepted and the live check passes. */
  lemma LiveRegistryPasses(sha: Bytes -> Text)
    requires HexDigests(sha)
    ensures TreeOk([TwoCopies(sha)], StoresById(STORES))
    ensures Operational(sha, [TwoCopies(sha)], StoresById(STORES), Machine(sha))
  {
    Names();
    StoresFound();
    RecordPasses(sha);
    StoreVerifies(sha);
    RootsOpen(sha);
    hide LEFT, RIGHT, STORES, ManifestBytes, IsStoreId, IsArtifactId, RecordOk, IsDigest, StoresById, VerifyCopy, OneFile,
      StoreOf, Operational, HexDigests, CanonicalLocation, CrossChecked, Lit, OpenRoot, Machine, Usable;
    var r := TwoCopies(sha);
    TwoCopiesPassIff(sha, r, r.copies[0], r.copies[1], StoresById(STORES), Machine(sha));
  }
}
