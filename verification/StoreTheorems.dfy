/** The promises of the artifact store, for every run of any number of ingest calls. */
module StoreTheorems {
  import opened Wrappers
  import opened Texts
  import opened FileSystem
  import opened Manifest
  import opened ManifestFacts
  import opened StoreChecks
  import opened StoreProtocol
  import opened StoreSafety
  import Ingestion

  /** No call under way yet. */
  function Boot(fs: Fs): System {
    System(fs, map[], map[], {})
  }

  lemma BootInv(sha: Bytes -> Text, fs: Fs)
    requires StoreOk(sha, fs)
    ensures Inv(sha, Boot(fs))
  {
    hide AddressOk;
  }

  lemma EmptyStoreOk(sha: Bytes -> Text)
    ensures StoreOk(sha, EmptyFs)
  {
  }

  lemma {:induction false} AfterSplit(sha: Bytes -> Text, s: System, early: seq<Action>, late: seq<Action>)
    ensures After(sha, s, early + late) == After(sha, After(sha, s, early), late)
    decreases |early|
  {
    hide Step;
    if early == [] {
      assert early + late == late;
    } else {
      assert (early + late)[1..] == early[1..] + late;
      AfterSplit(sha, Step(sha, s, early[0]), early[1..], late);
    }
  }

  /** A file at an address always holds exactly bytes that hash to it. */
  lemma AddressesHoldTheirBytes(sha: Bytes -> Text, fs: Fs, schedule: seq<Action>, n: Name)
    requires StoreOk(sha, fs)
    ensures var now := After(sha, Boot(fs), schedule).fs;
            now.Valid() && (n in now.names && Published(n) ==> sha(now.Content(n)) == n.sha256)
  {
    hide Step, After, CallOk;
    BootInv(sha, fs);
    RunKeepsInv(sha, Boot(fs), schedule);
  }

  /** What is published at some moment of a run is there, unchanged, at every later moment. */
  lemma PublishedNeverChanges(sha: Bytes -> Text, fs: Fs, early: seq<Action>, late: seq<Action>, n: Name)
    requires StoreOk(sha, fs) && Published(n)
    ensures var was := After(sha, Boot(fs), early).fs;
            var now := After(sha, Boot(fs), early + late).fs;
            && was.Valid() && now.Valid()
            && (n in was.names ==> n in now.names && now.Content(n) == was.Content(n))
  {
    hide Step, After, CallOk, AddressOk;
    BootInv(sha, fs);
    RunKeepsInv(sha, Boot(fs), early);
    AfterSplit(sha, Boot(fs), early, late);
    RunKeepsInv(sha, After(sha, Boot(fs), early), late);
  }

  /** The branch that removes a file after a failed read-back is never entered. */
  lemma ReadBackNeverRemoves(sha: Bytes -> Text, fs: Fs, schedule: seq<Action>, pid: nat)
    requires StoreOk(sha, fs)
    ensures var s := After(sha, Boot(fs), schedule); pid in s.calls ==> !s.calls[pid].pc.RemoveBad?
  {
    hide Step, After, AddressOk;
    BootInv(sha, fs);
    RunKeepsInv(sha, Boot(fs), schedule);
  }

  /** At most one call, at one of its entries, reports 'ingested' for an address. */
  lemma OneIngestPerAddress(sha: Bytes -> Text, fs: Fs, schedule: seq<Action>, h: Text, r1: Report, r2: Report)
    requires StoreOk(sha, fs)
    requires (h, r1) in After(sha, Boot(fs), schedule).reports && (h, r2) in After(sha, Boot(fs), schedule).reports
    ensures r1 == r2
  {
    hide Step, After, CallOk, AddressOk;
    BootInv(sha, fs);
    RunKeepsInv(sha, Boot(fs), schedule);
  }

  lemma AddressVerifies(sha: Bytes -> Text, fs: Fs, h: Text)
    requires fs.Valid() && ManifestName(h) in fs.names && AddressOk(sha, fs, ManifestName(h))
    ensures LoadManifest(sha, fs.Public(), h).Some?
    ensures var m := LoadManifest(sha, fs.Public(), h).value;
            VerifyCopy(sha, fs.Public(), h) == Some(CopyReport(m.artifactId, h, |m.files|))
  {
    hide ManifestBytes, CheckBytes;
    var n := ManifestName(h);
    var m :| ValidManifest(m) && ManifestBytes(m) == fs.Content(n) && AllStored(sha, fs.Public(), m.files);
    CheckBytesIff(fs.Content(n), m);
  }

  /** Manifest last: once a manifest is at its address, that copy verifies in full from then on. */
  lemma ManifestImpliesObjects(sha: Bytes -> Text, fs: Fs, early: seq<Action>, late: seq<Action>, h: Text)
    requires StoreOk(sha, fs) && ManifestName(h) in After(sha, Boot(fs), early).fs.names
    ensures After(sha, Boot(fs), early).fs.Valid() && After(sha, Boot(fs), early + late).fs.Valid()
    ensures LoadManifest(sha, After(sha, Boot(fs), early).fs.Public(), h).Some?
    ensures var m := LoadManifest(sha, After(sha, Boot(fs), early).fs.Public(), h).value;
            var now := After(sha, Boot(fs), early + late).fs;
            && LoadManifest(sha, now.Public(), h) == Some(m)
            && AllStored(sha, now.Public(), m.files)
            && VerifyCopy(sha, now.Public(), h) == Some(CopyReport(m.artifactId, h, |m.files|))
  {
    hide Step, After, CallOk, AddressOk, CheckBytes, ManifestBytes;
    BootInv(sha, fs);
    RunKeepsInv(sha, Boot(fs), early);
    AfterSplit(sha, Boot(fs), early, late);
    RunKeepsInv(sha, After(sha, Boot(fs), early), late);
    assert Published(ManifestName(h));
    AddressVerifies(sha, After(sha, Boot(fs), early).fs, h);
    AddressVerifies(sha, After(sha, Boot(fs), early + late).fs, h);
  }

  /** A call that finished has stored its manifest and all it names, and has counted every entry once. */
  lemma FinishedCallStoredAll(sha: Bytes -> Text, fs: Fs, schedule: seq<Action>, pid: nat)
    requires StoreOk(sha, fs)
    requires var s := After(sha, Boot(fs), schedule); pid in s.calls && s.calls[pid].pc.Finished?
    ensures var s := After(sha, Boot(fs), schedule);
            var c := s.calls[pid];
            && s.fs.Valid() && AllStored(sha, s.fs.Public(), c.manifest.files)
            && ManifestName(sha(ManifestBytes(c.manifest))) in s.fs.names
            && c.ingested + c.alreadyPresent == |c.manifest.files|
  {
    hide Step, After, AddressOk, ManifestBytes;
    BootInv(sha, fs);
    RunKeepsInv(sha, Boot(fs), schedule);
    var s := After(sha, Boot(fs), schedule);
    assert CallOk(sha, s.fs, s.installs, pid, s.calls[pid]);
  }

  /** The protocol and the single calls speak of the same soundness. */
  lemma StoreOkIffSound(sha: Bytes -> Text, fs: Fs)
    requires fs.Valid()
    ensures (forall n :: n in fs.names ==> AddressOk(sha, fs, n)) <==> Ingestion.Sound(sha, fs.Public())
  {
    hide CheckBytes, ManifestBytes, ValidManifest;
    if Ingestion.Sound(sha, fs.Public()) {
      forall n | n in fs.names
        ensures AddressOk(sha, fs, n)
      {
        if n.ManifestName? {
          assert VerifyCopy(sha, fs.Public(), n.sha256).Some?;
          CheckBytesIff(fs.Content(n), LoadManifest(sha, fs.Public(), n.sha256).value);
        } else if n.ObjectName? {
          assert ObjectName(n.sha256) in fs.Public();
        }
      }
    }
    if forall n :: n in fs.names ==> AddressOk(sha, fs, n) {
      forall h | ManifestName(h) in fs.Public()
        ensures VerifyCopy(sha, fs.Public(), h).Some?
      {
        AddressVerifies(sha, fs, h);
      }
      forall h | ObjectName(h) in fs.Public()
        ensures sha(fs.Public()[ObjectName(h)]) == h
      {
        assert AddressOk(sha, fs, ObjectName(h));
      }
    }
  }
}
