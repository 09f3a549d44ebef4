/** Readers among the ingest calls: `verify_copy` and the reading half of `restore`, file-system call by
    file-system call, while any number of ingest calls go on. */
module StoreReaders {
  import opened Wrappers
  import opened Texts
  import opened FileSystem
  import opened Manifest
  import opened ManifestFacts
  import opened StoreChecks
  import opened StoreProtocol
  import opened StoreSafety
  import opened StoreTheorems

  /** Where a reader stands. `again` counts the readings of the manifest that still follow: `verify_copy` reads it
      once, `restore` hashes it and then reads it again. `got` holds the objects read so far. */
  datatype Reader =
    | OpenManifest(again: nat)
    | ReadManifest(again: nat, inode: nat, seen: Bytes)
    | OpenObject(manifest: Manifest, got: seq<Bytes>)
    | ReadObject(manifest: Manifest, got: seq<Bytes>, inode: nat, seen: Bytes)
    | Done(manifest: Manifest, got: seq<Bytes>)
    | Rejected

  datatype World = World(system: System, reader: Reader)

  /** One step of an ingest call, or one file-system call of the reader (reading at most `size` bytes). */
  datatype Event = Ingesting(action: Action) | Reading(size: nat)

  predicate Unread(fs: Fs, inode: nat, seen: Bytes) {
    inode in fs.inodes && |seen| < |fs.inodes[inode]|
  }

  /** The manifest has been read to its end. */
  function AfterManifest(sha: Bytes -> Text, h: Text, again: nat, seen: Bytes): Reader {
    if sha(seen) != h then Rejected
    else if again > 0 then OpenManifest(again - 1)
    else
      match CheckBytes(seen)
      case None => Rejected
      case Some(m) => OpenObject(m, [])
  }

  function StepReader(sha: Bytes -> Text, fs: Fs, h: Text, r: Reader, size: nat): Reader {
    match r
    case OpenManifest(again) =>
      if ManifestName(h) in fs.names then ReadManifest(again, fs.names[ManifestName(h)], []) else Rejected
    case ReadManifest(again, inode, seen) =>
      if Unread(fs, inode, seen) then ReadManifest(again, inode, ReadMore(fs.inodes[inode], seen, size))
      else AfterManifest(sha, h, again, seen)
    case OpenObject(m, got) =>
      if |got| >= |m.files| then Done(m, got)
      else if ObjectName(m.files[|got|].sha256) in fs.names then
        ReadObject(m, got, fs.names[ObjectName(m.files[|got|].sha256)], [])
      else Rejected
    case ReadObject(m, got, inode, seen) =>
      if Unread(fs, inode, seen) then ReadObject(m, got, inode, ReadMore(fs.inodes[inode], seen, size))
      else if |got| < |m.files| && |seen| == m.files[|got|].sizeBytes && sha(seen) == m.files[|got|].sha256 then
        OpenObject(m, got + [seen])
      else Rejected
    case _ => r
  }

  function Next(sha: Bytes -> Text, h: Text, w: World, e: Event): World {
    match e
    case Ingesting(a) => w.(system := Step(sha, w.system, a))
    case Reading(size) => w.(reader := StepReader(sha, w.system.fs, h, w.reader, size))
  }

  function Play(sha: Bytes -> Text, h: Text, w: World, events: seq<Event>): World
    decreases |events|
  {
    if events == [] then w else Play(sha, h, Next(sha, h, w, events[0]), events[1..])
  }

  function Readings(events: seq<Event>): nat {
    if events == [] then 0 else (if events[0].Reading? then 1 else 0) + Readings(events[1..])
  }

  // ---- the reader's invariant ----

  /** The objects read so far are the published ones. */
  ghost predicate GotOk(fs: Fs, m: Manifest, got: seq<Bytes>)
    requires fs.Valid()
  {
    && |got| <= |m.files|
    && forall i :: 0 <= i < |got| ==>
         ObjectName(m.files[i].sha256) in fs.names && fs.Content(ObjectName(m.files[i].sha256)) == got[i]
  }

  /** The reader has a published file open and has read a part of it. */
  ghost predicate Open(fs: Fs, n: Name, inode: nat, seen: Bytes)
    requires fs.Valid()
  {
    n in fs.names && fs.names[n] == inode && seen <= fs.Content(n)
  }

  ghost predicate ReaderOk(sha: Bytes -> Text, fs: Fs, h: Text, r: Reader)
    requires fs.Valid()
  {
    match r
    case OpenManifest(_) => true
    case ReadManifest(_, inode, seen) => Open(fs, ManifestName(h), inode, seen)
    case OpenObject(m, got) => LoadManifest(sha, fs.Public(), h) == Some(m) && GotOk(fs, m, got)
    case ReadObject(m, got, inode, seen) =>
      && LoadManifest(sha, fs.Public(), h) == Some(m) && GotOk(fs, m, got) && |got| < |m.files|
      && Open(fs, ObjectName(m.files[|got|].sha256), inode, seen)
    case Done(m, got) => LoadManifest(sha, fs.Public(), h) == Some(m) && GotOk(fs, m, got) && |got| == |m.files|
    case Rejected => true
  }

  lemma LoadStays(sha: Bytes -> Text, fs: Fs, fs': Fs, h: Text)
    requires fs.Valid() && fs'.Valid() && Keeps(fs, fs') && LoadManifest(sha, fs.Public(), h).Some?
    ensures LoadManifest(sha, fs'.Public(), h) == LoadManifest(sha, fs.Public(), h)
  {
    hide CheckBytes;
    assert Published(ManifestName(h));
  }

  /** What the ingest calls do leaves the reader's situation as it is. */
  lemma IngestersKeepReader(sha: Bytes -> Text, fs: Fs, fs': Fs, h: Text, r: Reader)
    requires fs.Valid() && fs'.Valid() && Keeps(fs, fs') && ReaderOk(sha, fs, h, r)
    ensures ReaderOk(sha, fs', h, r)
  {
    hide CheckBytes, LoadManifest;
    assert Published(ManifestName(h));
    if r.OpenObject? || r.ReadObject? || r.Done? {
      LoadStays(sha, fs, fs', h);
      forall i | 0 <= i < |r.manifest.files|
        ensures Published(ObjectName(r.manifest.files[i].sha256))
      {
      }
    }
  }

  /** What a manifest's presence means in a sound store, as far as a reader sees it. */
  ghost predicate Readable(sha: Bytes -> Text, fs: Fs, h: Text)
    requires fs.Valid()
  {
    var n := ManifestName(h);
    && n in fs.names && sha(fs.Content(n)) == h && CheckBytes(fs.Content(n)).Some?
    && LoadManifest(sha, fs.Public(), h) == CheckBytes(fs.Content(n))
    && AllStored(sha, fs.Public(), CheckBytes(fs.Content(n)).value.files)
  }

  lemma PresentIsReadable(sha: Bytes -> Text, fs: Fs, h: Text)
    requires StoreOk(sha, fs) && ManifestName(h) in fs.names
    ensures Readable(sha, fs, h)
    ensures var m := LoadManifest(sha, fs.Public(), h).value;
            VerifyCopy(sha, fs.Public(), h) == Some(CopyReport(m.artifactId, h, m.fileCount))
  {
    hide CheckBytes, ManifestBytes, ValidManifest;
    assert AddressOk(sha, fs, ManifestName(h));
    AddressVerifies(sha, fs, h);
  }

  /** An object that was read to its end passes the comparison and joins the ones read before. */
  lemma ObjectRead(sha: Bytes -> Text, fs: Fs, h: Text, r: Reader, size: nat)
    requires fs.Valid() && Readable(sha, fs, h) && ReaderOk(sha, fs, h, r)
    requires r.ReadObject? && !Unread(fs, r.inode, r.seen)
    ensures StepReader(sha, fs, h, r, size) == OpenObject(r.manifest, r.got + [r.seen])
    ensures GotOk(fs, r.manifest, r.got + [r.seen])
  {
    hide CheckBytes, LoadManifest;
    assert r.seen == fs.Content(ObjectName(r.manifest.files[|r.got|].sha256));
    assert Stored(sha, fs.Public(), r.manifest.files[|r.got|]);
  }

  /** In a sound store a reader that found its manifest is never rejected. */
  lemma ReaderStep(sha: Bytes -> Text, fs: Fs, h: Text, r: Reader, size: nat)
    requires fs.Valid() && Readable(sha, fs, h) && ReaderOk(sha, fs, h, r)
    ensures ReaderOk(sha, fs, h, StepReader(sha, fs, h, r, size))
    ensures !r.Rejected? ==> !StepReader(sha, fs, h, r, size).Rejected?
  {
    hide CheckBytes, LoadManifest;
    match r
    case ReadManifest(again, inode, seen) =>
      if !Unread(fs, inode, seen) {
        assert seen == fs.Content(ManifestName(h));
      }
    case OpenObject(m, got) =>
      if |got| < |m.files| {
        assert Stored(sha, fs.Public(), m.files[|got|]);
      }
    case ReadObject(m, got, inode, seen) =>
      if !Unread(fs, inode, seen) {
        ObjectRead(sha, fs, h, r, size);
      }
    case _ =>
  }

  lemma MissingStep(sha: Bytes -> Text, fs: Fs, h: Text, r: Reader, size: nat)
    requires fs.Valid() && ManifestName(h) !in fs.names && ReaderOk(sha, fs, h, r)
    ensures ReaderOk(sha, fs, h, StepReader(sha, fs, h, r, size))
  {
    hide CheckBytes;
  }

  // ---- alone, on any store ----

  /** What a reader has accepted so far is stored as the manifest says; what it has rejected does not verify. */
  ghost predicate AloneOk(sha: Bytes -> Text, fs: Fs, h: Text, r: Reader)
    requires fs.Valid()
  {
    && ReaderOk(sha, fs, h, r)
    && (r.OpenObject? || r.ReadObject? || r.Done? ==>
          forall i :: 0 <= i < |r.got| ==> Stored(sha, fs.Public(), r.manifest.files[i]))
    && (r.Rejected? ==> VerifyCopy(sha, fs.Public(), h).None?)
  }

  lemma AloneManifest(sha: Bytes -> Text, fs: Fs, h: Text, r: Reader, size: nat)
    requires fs.Valid() && AloneOk(sha, fs, h, r) && (r.OpenManifest? || r.ReadManifest?)
    ensures AloneOk(sha, fs, h, StepReader(sha, fs, h, r, size))
  {
    hide CheckBytes;
    if r.ReadManifest? && !Unread(fs, r.inode, r.seen) {
      assert r.seen == fs.Content(ManifestName(h));
    }
  }

  lemma AloneObject(sha: Bytes -> Text, fs: Fs, h: Text, r: Reader, size: nat)
    requires fs.Valid() && AloneOk(sha, fs, h, r) && (r.OpenObject? || r.ReadObject?)
    ensures AloneOk(sha, fs, h, StepReader(sha, fs, h, r, size))
  {
    hide CheckBytes, LoadManifest;
    var next := |r.got|;
    if next < |r.manifest.files| {
      assert r.manifest.files[next] in r.manifest.files;
    }
    if r.ReadObject? && !Unread(fs, r.inode, r.seen) {
      assert r.seen == fs.Content(ObjectName(r.manifest.files[next].sha256));
    }
  }

  /** File-system calls of a reader that nobody disturbs. */
  function Alone(sha: Bytes -> Text, fs: Fs, h: Text, r: Reader, sizes: seq<nat>): Reader
    decreases |sizes|
  {
    if sizes == [] then r else Alone(sha, fs, h, StepReader(sha, fs, h, r, sizes[0]), sizes[1..])
  }

  lemma {:induction false} AloneKeeps(sha: Bytes -> Text, fs: Fs, h: Text, r: Reader, sizes: seq<nat>)
    requires fs.Valid() && AloneOk(sha, fs, h, r)
    ensures AloneOk(sha, fs, h, Alone(sha, fs, h, r, sizes))
    decreases |sizes|
  {
    if sizes != [] {
      if r.OpenManifest? || r.ReadManifest? {
        AloneManifest(sha, fs, h, r, sizes[0]);
      } else if r.OpenObject? || r.ReadObject? {
        AloneObject(sha, fs, h, r, sizes[0]);
      }
      var next := StepReader(sha, fs, h, r, sizes[0]);
      assert r.Done? || r.Rejected? ==> next == r;
      hide AloneOk, StepReader;
      AloneKeeps(sha, fs, h, next, sizes[1..]);
    }
  }

  /** On any store, sound or not, a reader that is alone succeeds only when the copy verifies, with the same report, and
      is rejected only when it does not. */
  lemma AloneIsVerify(sha: Bytes -> Text, fs: Fs, h: Text, again: nat, sizes: seq<nat>)
    requires fs.Valid()
    ensures var r := Alone(sha, fs, h, OpenManifest(again), sizes);
            && (r.Rejected? ==> VerifyCopy(sha, fs.Public(), h).None?)
            && (r.Done? ==> VerifyCopy(sha, fs.Public(), h)
                            == Some(CopyReport(r.manifest.artifactId, h, r.manifest.fileCount)))
  {
    AloneKeeps(sha, fs, h, OpenManifest(again), sizes);
    hide Alone, LoadManifest;
    var r := Alone(sha, fs, h, OpenManifest(again), sizes);
    if r.Done? {
      assert AllStored(sha, fs.Public(), r.manifest.files);
    }
  }

  // ---- how much there is still to read ----

  /** File-system calls at most for the objects from `next` on, and for the end. */
  function ObjectsLeft(m: Manifest, next: nat): int
    requires next <= |m.files|
  {
    TotalSize(m.files) - TotalSize(m.files[..next]) + 2 * (|m.files| - next) + 1
  }

  /** File-system calls at most for so many readings of the manifest. */
  function ReadingsLeft(m: Manifest, readings: nat): int {
    readings * (|ManifestBytes(m)| + 2)
  }

  function Left(m: Manifest, r: Reader): int {
    match r
    case OpenManifest(again) => ReadingsLeft(m, again + 1) + ObjectsLeft(m, 0)
    case ReadManifest(again, _, seen) =>
      |ManifestBytes(m)| - |seen| + 1 + ReadingsLeft(m, again) + ObjectsLeft(m, 0)
    case OpenObject(_, got) => if |got| <= |m.files| then ObjectsLeft(m, |got|) else 0
    case ReadObject(_, got, _, seen) =>
      if |got| < |m.files| then m.files[|got|].sizeBytes - |seen| + 1 + ObjectsLeft(m, |got| + 1) else 0
    case _ => 0
  }

  lemma {:induction false} SizesGrow(files: seq<FileEntry>, next: nat)
    requires next <= |files| && forall e :: e in files ==> e.sizeBytes >= 0
    ensures TotalSize(files[..next]) <= TotalSize(files)
    decreases |files|
  {
    var n := |files| - 1;
    if next == |files| {
      assert files[..next] == files;
    } else {
      SizesGrow(files[..n], next);
      assert files[..n][..next] == files[..next];
    }
  }

  lemma ObjectsLeftStep(m: Manifest, next: nat)
    requires next < |m.files| && forall e :: e in m.files ==> e.sizeBytes >= 0
    ensures ObjectsLeft(m, next) == ObjectsLeft(m, next + 1) + m.files[next].sizeBytes + 2
    ensures ObjectsLeft(m, next + 1) >= 1
  {
    var more := m.files[..next + 1];
    assert more[..|more| - 1] == m.files[..next];
    SizesGrow(m.files, next + 1);
  }

  lemma ObjectsLeftPositive(m: Manifest, next: nat)
    requires next <= |m.files| && forall e :: e in m.files ==> e.sizeBytes >= 0
    ensures ObjectsLeft(m, next) >= 1
  {
    SizesGrow(m.files, next);
  }

  /** The reader works on this manifest, as the store holds it. */
  ghost predicate Working(sha: Bytes -> Text, fs: Fs, h: Text, m: Manifest, r: Reader)
    requires fs.Valid()
  {
    && Readable(sha, fs, h) && ReaderOk(sha, fs, h, r) && !r.Rejected?
    && LoadManifest(sha, fs.Public(), h) == Some(m)
    && ManifestBytes(m) == fs.Content(ManifestName(h)) && forall e :: e in m.files ==> e.sizeBytes >= 0
  }

  lemma Positive(sha: Bytes -> Text, fs: Fs, h: Text, m: Manifest, r: Reader)
    requires fs.Valid() && Working(sha, fs, h, m, r)
    ensures Left(m, r) >= 0 && (Left(m, r) == 0 ==> r.Done?)
  {
    hide CheckBytes, LoadManifest, ManifestBytes, TotalSize, ObjectsLeft;
    if !r.Done? {
      match r
      case OpenManifest(again) => ObjectsLeftPositive(m, 0);
      case ReadManifest(again, inode, seen) => ObjectsLeftPositive(m, 0);
      case OpenObject(_, got) => ObjectsLeftPositive(m, |got|);
      case ReadObject(_, got, inode, seen) =>
        ObjectsLeftPositive(m, |got| + 1);
        assert Stored(sha, fs.Public(), m.files[|got|]);
      case _ =>
    }
  }

  lemma ReadingsLeftStep(m: Manifest, readings: nat)
    ensures ReadingsLeft(m, readings + 1) == ReadingsLeft(m, readings) + |ManifestBytes(m)| + 2
    ensures ReadingsLeft(m, 0) == 0
  {
    hide ManifestBytes;
  }

  lemma ManifestProgress(sha: Bytes -> Text, fs: Fs, h: Text, m: Manifest, r: Reader, size: nat)
    requires fs.Valid() && Working(sha, fs, h, m, r) && (r.OpenManifest? || r.ReadManifest?)
    requires Working(sha, fs, h, m, StepReader(sha, fs, h, r, size))
    ensures Left(m, StepReader(sha, fs, h, r, size)) < Left(m, r)
  {
    hide CheckBytes, LoadManifest, ManifestBytes, ObjectsLeft, ReadingsLeft, AllStored;
    ReadingsLeftStep(m, r.again);
    if r.ReadManifest? && !Unread(fs, r.inode, r.seen) {
      assert r.seen == fs.Content(ManifestName(h));
    }
  }

  lemma OpenProgress(sha: Bytes -> Text, fs: Fs, h: Text, m: Manifest, r: Reader, size: nat)
    requires r.OpenObject? && r.manifest == m && |r.got| <= |m.files| && forall e :: e in m.files ==> e.sizeBytes >= 0
    requires !StepReader(sha, fs, h, r, size).Rejected?
    ensures Left(m, StepReader(sha, fs, h, r, size)) < Left(m, r)
  {
    hide ObjectsLeft, ReadingsLeft, AfterManifest, Unread;
    var next := |r.got|;
    if next < |m.files| {
      ObjectsLeftStep(m, next);
    } else {
      ObjectsLeftPositive(m, next);
    }
  }

  lemma WorksOn(sha: Bytes -> Text, fs: Fs, h: Text, m: Manifest, r: Reader)
    requires fs.Valid() && Working(sha, fs, h, m, r) && (r.OpenObject? || r.ReadObject?)
    ensures r.manifest == m && |r.got| <= |m.files| && forall e :: e in m.files ==> e.sizeBytes >= 0
  {
    hide CheckBytes, LoadManifest, ManifestBytes, Readable;
  }

  lemma ObjectProgress(sha: Bytes -> Text, fs: Fs, h: Text, m: Manifest, r: Reader, size: nat)
    requires fs.Valid() && Working(sha, fs, h, m, r) && r.ReadObject?
    ensures Left(m, StepReader(sha, fs, h, r, size)) < Left(m, r)
  {
    hide CheckBytes, LoadManifest, ManifestBytes, ObjectsLeft, ReadingsLeft;
    if !Unread(fs, r.inode, r.seen) {
      ObjectRead(sha, fs, h, r, size);
      assert |r.seen| == m.files[|r.got|].sizeBytes;
    }
  }

  /** Each reading of an unfinished reader leaves less to read. */
  lemma Progress(sha: Bytes -> Text, fs: Fs, h: Text, m: Manifest, r: Reader, size: nat)
    requires fs.Valid() && Working(sha, fs, h, m, r) && !r.Done?
    ensures Working(sha, fs, h, m, StepReader(sha, fs, h, r, size))
    ensures Left(m, StepReader(sha, fs, h, r, size)) < Left(m, r)
  {
    ReaderStep(sha, fs, h, r, size);
    hide CheckBytes, LoadManifest, ManifestBytes, ObjectsLeft, ReadingsLeft, Readable, StepReader, ReaderOk;
    if r.OpenManifest? || r.ReadManifest? {
      ManifestProgress(sha, fs, h, m, r, size);
    } else if r.OpenObject? {
      WorksOn(sha, fs, h, m, r);
      OpenProgress(sha, fs, h, m, r, size);
    } else {
      ObjectProgress(sha, fs, h, m, r, size);
    }
  }

  // ---- whole runs ----

  lemma WorkingStays(sha: Bytes -> Text, fs: Fs, fs': Fs, h: Text, m: Manifest, r: Reader)
    requires StoreOk(sha, fs') && fs.Valid() && Keeps(fs, fs') && Working(sha, fs, h, m, r)
    ensures Working(sha, fs', h, m, r)
  {
    IngestersKeepReader(sha, fs, fs', h, r);
    LoadStays(sha, fs, fs', h);
    assert Published(ManifestName(h));
    PresentIsReadable(sha, fs', h);
    hide CheckBytes, LoadManifest, ManifestBytes, Readable, ReaderOk, StoreOk;
  }

  /** The whole system is sound and its reader works on this manifest. */
  ghost predicate WorldOk(sha: Bytes -> Text, h: Text, m: Manifest, w: World) {
    Inv(sha, w.system) && w.system.fs.Valid() && Working(sha, w.system.fs, h, m, w.reader)
  }

  ghost predicate Later(fs: Fs, fs': Fs) {
    fs.Valid() && fs'.Valid() && Keeps(fs, fs')
  }

  lemma NextWorking(sha: Bytes -> Text, h: Text, w: World, m: Manifest, e: Event)
    requires WorldOk(sha, h, m, w)
    ensures var w' := Next(sha, h, w, e);
            && WorldOk(sha, h, m, w') && Later(w.system.fs, w'.system.fs)
            && (w'.reader.Done? || Left(m, w'.reader) <= Left(m, w.reader) - if e.Reading? then 1 else 0)
            && (w.reader.Done? ==> w'.reader.Done?)
  {
    match e
    case Ingesting(a) =>
      StepKeepsInv(sha, w.system, a);
      hide Step, Working, ManifestBytes, CallOk, AddressOk;
      WorkingStays(sha, w.system.fs, Step(sha, w.system, a).fs, h, m, w.reader);
      hide Left;
    case Reading(size) =>
      hide Working, ManifestBytes, CallOk, AddressOk;
      if !w.reader.Done? {
        Progress(sha, w.system.fs, h, m, w.reader, size);
      }
      hide Left;
  }

  lemma {:induction false} PlayWorking(sha: Bytes -> Text, h: Text, w: World, m: Manifest, events: seq<Event>)
    requires WorldOk(sha, h, m, w)
    ensures var w' := Play(sha, h, w, events);
            && WorldOk(sha, h, m, w') && Later(w.system.fs, w'.system.fs)
            && (w'.reader.Done? || Left(m, w'.reader) <= Left(m, w.reader) - Readings(events))
            && (w.reader.Done? ==> w'.reader.Done?)
    decreases |events|
  {
    InvValid(sha, w.system);
    hide Inv, Next, Working, Left, Keeps, WorldOk;
    if events != [] {
      var w1 := Next(sha, h, w, events[0]);
      NextWorking(sha, h, w, m, events[0]);
      PlayWorking(sha, h, w1, m, events[1..]);
      KeepsTransitive(w.system.fs, w1.system.fs, Play(sha, h, w, events).system.fs);
    }
  }

  lemma InvValid(sha: Bytes -> Text, s: System)
    requires Inv(sha, s)
    ensures s.fs.Valid() && StoreOk(sha, s.fs) && Keeps(s.fs, s.fs)
  {
  }

  lemma NextOk(sha: Bytes -> Text, h: Text, w: World, e: Event)
    requires Inv(sha, w.system) && ReaderOk(sha, w.system.fs, h, w.reader)
    ensures var w' := Next(sha, h, w, e); Inv(sha, w'.system) && ReaderOk(sha, w'.system.fs, h, w'.reader)
  {
    var fs := w.system.fs;
    match e
    case Ingesting(a) =>
      StepKeepsInv(sha, w.system, a);
      hide Step, ReaderOk, ManifestBytes, CallOk, AddressOk;
      IngestersKeepReader(sha, fs, Step(sha, w.system, a).fs, h, w.reader);
    case Reading(size) =>
      hide ReaderOk, StepReader, ManifestBytes, CallOk, AddressOk;
      if ManifestName(h) in fs.names {
        PresentIsReadable(sha, fs, h);
        ReaderStep(sha, fs, h, w.reader, size);
      } else {
        MissingStep(sha, fs, h, w.reader, size);
      }
  }

  lemma {:induction false} PlayOk(sha: Bytes -> Text, h: Text, w: World, events: seq<Event>)
    requires Inv(sha, w.system) && ReaderOk(sha, w.system.fs, h, w.reader)
    ensures var w' := Play(sha, h, w, events); Inv(sha, w'.system) && ReaderOk(sha, w'.system.fs, h, w'.reader)
    decreases |events|
  {
    InvValid(sha, w.system);
    hide Inv, Next, ReaderOk;
    if events != [] {
      NextOk(sha, h, w, events[0]);
      InvValid(sha, Next(sha, h, w, events[0]).system);
      PlayOk(sha, h, Next(sha, h, w, events[0]), events[1..]);
    }
  }

  /** The contents of a manifest's objects, in order. */
  predicate GotFrom(store: Contents, m: Manifest, got: seq<Bytes>) {
    && |got| == |m.files|
    && forall i :: 0 <= i < |got| ==>
         ObjectName(m.files[i].sha256) in store && store[ObjectName(m.files[i].sha256)] == got[i]
  }

  /** A call of either reader starts. */
  function Arrive(sha: Bytes -> Text, fs: Fs, early: seq<Action>, again: nat): World {
    World(After(sha, Boot(fs), early), OpenManifest(again))
  }

  /** Whenever a reader succeeds, its report is that of `verify_copy` on the store as it is then. */
  lemma ReportsAreTrue(sha: Bytes -> Text, fs: Fs, early: seq<Action>, again: nat, events: seq<Event>, h: Text)
    requires StoreOk(sha, fs)
    ensures var w := Play(sha, h, Arrive(sha, fs, early, again), events);
            && w.system.fs.Valid()
            && (w.reader.Done? ==>
                  && GotFrom(w.system.fs.Public(), w.reader.manifest, w.reader.got)
                  && VerifyCopy(sha, w.system.fs.Public(), h)
                     == Some(CopyReport(w.reader.manifest.artifactId, h, w.reader.manifest.fileCount)))
  {
    BootInv(sha, fs);
    RunKeepsInv(sha, Boot(fs), early);
    var w := Play(sha, h, Arrive(sha, fs, early, again), events);
    InvValid(sha, After(sha, Boot(fs), early));
    PlayOk(sha, h, Arrive(sha, fs, early, again), events);
    InvValid(sha, w.system);
    hide Inv, Step, After, Play, CallOk, AddressOk, CheckBytes, StoreOk;
    if w.reader.Done? {
      PresentIsReadable(sha, w.system.fs, h);
    }
  }

  /** At most so many file-system calls make up one reading of a whole copy. */
  function CallsAtMost(m: Manifest, again: nat): int {
    (again + 1) * (|ManifestBytes(m)| + 2) + TotalSize(m.files) + 2 * |m.files| + 1
  }

  lemma LeftAtStart(m: Manifest, again: nat)
    ensures Left(m, OpenManifest(again)) == CallsAtMost(m, again)
  {
    hide ManifestBytes;
    assert m.files[..0] == [];
  }

  lemma StartWorks(sha: Bytes -> Text, fs: Fs, h: Text, again: nat)
    requires StoreOk(sha, fs) && ManifestName(h) in fs.names
    ensures LoadManifest(sha, fs.Public(), h).Some?
    ensures var m := LoadManifest(sha, fs.Public(), h).value;
            Working(sha, fs, h, m, OpenManifest(again))
  {
    PresentIsReadable(sha, fs, h);
    var m := LoadManifest(sha, fs.Public(), h).value;
    hide CheckBytes, ManifestBytes, StoreOk, LoadManifest, AllStored, Ordered, CaseDistinct, TotalSize, IsArtifactId,
      IsRole, IsRelativePath, IsDigest;
    CheckBytesIff(fs.Content(ManifestName(h)), m);
  }

  /** A reader that starts when the manifest is there is never rejected, whatever ingest calls do meanwhile; it ends
      after so many file-system calls of its own, and has read the objects as they were when it started. */
  lemma ReaderSucceeds(sha: Bytes -> Text, fs: Fs, early: seq<Action>, again: nat, events: seq<Event>, h: Text)
    requires StoreOk(sha, fs) && ManifestName(h) in After(sha, Boot(fs), early).fs.names
    ensures After(sha, Boot(fs), early).fs.Valid()
    ensures var store := After(sha, Boot(fs), early).fs.Public();
            var r := Play(sha, h, Arrive(sha, fs, early, again), events).reader;
            && LoadManifest(sha, store, h).Some? && !r.Rejected?
            && (Readings(events) >= CallsAtMost(LoadManifest(sha, store, h).value, again) ==> r.Done?)
            && (r.Done? ==> r.manifest == LoadManifest(sha, store, h).value && GotFrom(store, r.manifest, r.got))
  {
    BootInv(sha, fs);
    RunKeepsInv(sha, Boot(fs), early);
    var s := After(sha, Boot(fs), early);
    InvValid(sha, s);
    StartWorks(sha, s.fs, h, again);
    LeftAtStart(LoadManifest(sha, s.fs.Public(), h).value, again);
    var m := LoadManifest(sha, s.fs.Public(), h).value;
    var w, w' := Arrive(sha, fs, early, again), Play(sha, h, Arrive(sha, fs, early, again), events);
    PlayWorking(sha, h, w, m, events);
    InvValid(sha, w'.system);
    Positive(sha, w'.system.fs, h, m, w'.reader);
    PresentIsReadable(sha, s.fs, h);
    GotEarly(sha, s.fs, w'.system.fs, h, m, w'.reader);
    hide Inv, Play, After, Keeps, Readable, Working, Left, LoadManifest, CallsAtMost, Readings, ManifestBytes;
  }

  lemma GotEarly(sha: Bytes -> Text, fs: Fs, fs': Fs, h: Text, m: Manifest, r: Reader)
    requires fs.Valid() && fs'.Valid() && Keeps(fs, fs') && Readable(sha, fs, h)
    requires LoadManifest(sha, fs.Public(), h) == Some(m) && Working(sha, fs', h, m, r)
    ensures !r.Rejected? && (r.Done? ==> r.manifest == m && GotFrom(fs.Public(), m, r.got))
  {
    hide CheckBytes, LoadManifest, ManifestBytes;
    if r.Done? {
      forall i | 0 <= i < |m.files|
        ensures ObjectName(m.files[i].sha256) in fs.names && fs.Content(ObjectName(m.files[i].sha256)) == r.got[i]
      {
        assert Stored(sha, fs.Public(), m.files[i]);
        assert Published(ObjectName(m.files[i].sha256));
      }
    }
  }

  function Actions(events: seq<Event>): seq<Action> {
    if events == [] then []
    else (if events[0].Ingesting? then [events[0].action] else []) + Actions(events[1..])
  }

  /** Readers leave no trace: the ingest calls go on as if nobody read. */
  lemma {:induction false} ReadersLeaveNoTrace(sha: Bytes -> Text, h: Text, w: World, events: seq<Event>)
    ensures Play(sha, h, w, events).system == After(sha, w.system, Actions(events))
    decreases |events|
  {
    hide Step, StepReader;
    if events != [] {
      ReadersLeaveNoTrace(sha, h, Next(sha, h, w, events[0]), events[1..]);
      if events[0].Ingesting? {
        assert ([events[0].action] + Actions(events[1..]))[1..] == Actions(events[1..]);
      } else {
        assert [] + Actions(events[1..]) == Actions(events[1..]);
      }
    }
  }
}
