/** The filesystem store itself: one call at a time, against any disk and any rival writer. */
module Store {
  import opened Wrappers
  import opened Texts
  import opened FileSystem
  import opened Manifest
  import opened ManifestFacts
  import opened Trees
  import opened Digests
  import opened Build
  import Scan
  import opened StoreChecks
  import opened Ingestion
  import opened Workspace
  import opened Restoration

  /** A temporary name that is free. */
  lemma FreeToken(names: set<FileSystem.Name>) returns (bound: nat)
    ensures forall t: nat :: t >= bound ==> TempName(t) !in names
  {
    bound := 0;
    if names != {} {
      var n :| n in names;
      bound := FreeToken(names - {n});
      if n.TempName? && n.token >= bound {
        bound := n.token + 1;
      }
    }
  }

  lemma SpoolStep(disk: Disk, data: Bytes, from: nat, before: Bytes)
    requires from < |data|
    ensures var to := ChunkEnd(data, from);
            (before + disk(from, data[from..to])) + Spool(disk, data, to) == before + Spool(disk, data, from)
  {
  }

  lemma SpoolEnds(disk: Disk, data: Bytes)
    ensures Spool(disk, data, |data|) == [] && [] + Spool(disk, data, 0) == Spool(disk, data, 0)
  {
  }

  lemma RivalLinks(fs: Fs, target: FileSystem.Name, data: Bytes)
    requires fs.Valid() && target !in fs.names && !target.TempName?
    ensures var fs' := fs.Create(target).Append(fs.next, data);
            fs'.Valid() && target in fs'.names && fs'.Public() == fs.Public()[target := data]
  {
    assert [] + data == data;
  }

  lemma TempLinks(fs: Fs, temp: FileSystem.Name, target: FileSystem.Name)
    requires fs.Valid() && temp in fs.names && temp.TempName? && target !in fs.names && !target.TempName?
    ensures var fs' := fs.Link(temp, target).Unlink(temp);
            && fs'.Valid() && fs'.Public() == fs.Public()[target := fs.Content(temp)]
            && forall n: FileSystem.Name :: n.TempName? ==> (n in fs'.names <==> n in fs.names && n != temp)
  {
  }

  /** What a restore leaves in its workspace, when it fills it. */
  ghost function WorkspaceTree(sha: Bytes -> Text, store: Contents, h: Text, disks: nat -> Disk): Option<Node> {
    var m :- StoreChecks.LoadManifest(sha, store, h);
    if ValidManifest(m) then RestoreFiles(sha, store, m.files, disks) else None
  }

  /** The digest tells the requested manifest from the one rebuilt from the tree, should they differ. */
  ghost predicate RebuildTellsApart(sha: Bytes -> Text, m: Manifest, tree: Node) {
    tree.Dir? ==>
      forall other: Manifest :: other.artifactId == m.artifactId && Describes(sha, other, FilesOf(tree.children)) ==>
        CollisionFree(sha, iset{ManifestBytes(m), ManifestBytes(other)})
  }

  datatype RestoreReport = RestoreReport(artifactId: Text, manifestSha256: Text, restoredFileCount: int)

  function WorkspaceName(destination: Text): Text {
    [DOT] + destination + Lit(".qnty-restore-tmp")
  }

  class FilesystemStore {
    const sha: Bytes -> Text
    var fs: Fs
    /** The entries of the directory that restores publish into. */
    var trees: map<Text, Node>

    ghost predicate Valid()
      reads this
    {
      fs.Valid()
    }

    ghost function Temps(): set<FileSystem.Name>
      reads this
    {
      set n | n in fs.names && n.TempName?
    }

    /** Opens a root as it stands; nothing is written. */
    constructor (sha: Bytes -> Text, fs: Fs, trees: map<Text, Node>)
      requires fs.Valid()
      ensures Valid() && this.sha == sha && this.fs == fs && this.trees == trees
    {
      this.sha := sha;
      this.fs := fs;
      this.trees := trees;
    }

    // ---- reading back ----

    method HashStoreFile(n: FileSystem.Name) returns (digest: Text, size: nat)
      requires Valid() && n in fs.names
      ensures digest == sha(fs.Content(n)) && size == |fs.Content(n)|
    {
      var data := fs.Content(n);
      var seen: Bytes := [];
      size := 0;
      while size < |data|
        invariant size <= |data| && seen == data[..size]
      {
        var to := ChunkEnd(data, size);
        seen := seen + data[size..to];
        size := to;
      }
      assert data[..size] == data;
      digest := sha(seen);
    }

    // ---- writing ----

    /** `mkstemp` */
    method MakeTemp() returns (temp: FileSystem.Name)
      requires Valid()
      modifies this`fs
      ensures Valid() && temp.TempName? && temp !in old(fs.names)
      ensures fs == old(fs).Create(temp) && fs.Content(temp) == [] && fs.Public() == old(fs.Public())
      ensures forall n :: n in fs.names && n != temp ==> fs.names[n] != fs.names[temp]
    {
      ghost var bound := FreeToken(fs.names.Keys);
      assert TempName(bound) !in fs.names;
      var token: nat :| TempName(token) !in fs.names;
      temp := TempName(token);
      fs := fs.Create(temp);
    }

    /** One write to a temporary file only this call knows. */
    method WriteChunk(temp: FileSystem.Name, kept: Bytes)
      requires Valid() && temp in fs.names && temp.TempName?
      requires forall n :: n in fs.names && n != temp ==> fs.names[n] != fs.names[temp]
      modifies this`fs
      ensures Valid() && fs.names == old(fs.names) && fs.Public() == old(fs.Public())
      ensures fs.Content(temp) == old(fs.Content(temp)) + kept
    {
      fs := fs.Append(fs.names[temp], kept);
    }

    /** The hard link that never replaces; a rival may have linked its file first. */
    method InstallNewFile(temp: FileSystem.Name, target: FileSystem.Name, rival: Option<Bytes>) returns (installed: bool)
      requires Valid() && temp in fs.names && temp.TempName? && !target.TempName?
      modifies this`fs
      ensures Valid()
      ensures installed == (target !in old(fs.names) && rival.None?)
      ensures target in old(fs.names) ==> fs == old(fs)
      ensures target !in old(fs.names) ==>
                fs.Public() == old(fs.Public())[target := if rival.Some? then rival.value else old(fs.Content(temp))]
      ensures installed ==> Temps() == old(Temps()) - {temp}
    {
      if target !in fs.names && rival.Some? {
        RivalLinks(fs, target, rival.value);
        fs := fs.Create(target).Append(fs.next, rival.value);
      }
      if target in fs.names {
        return false;
      }
      TempLinks(fs, temp, target);
      fs := fs.Link(temp, target);
      fs := fs.Unlink(temp);
      return true;
    }

    /** The copy loop: hash what is read, write it to the temporary file. */
    method CopyChunks(temp: FileSystem.Name, source: Bytes, disk: Disk) returns (digest: Text, size: nat)
      requires Valid() && temp in fs.names && temp.TempName? && fs.Content(temp) == []
      requires forall n :: n in fs.names && n != temp ==> fs.names[n] != fs.names[temp]
      modifies this`fs
      ensures Valid() && fs.names == old(fs.names) && fs.Public() == old(fs.Public())
      ensures fs.Content(temp) == Spool(disk, source, 0)
      ensures digest == sha(source) && size == |source|
    {
      hide Spool;
      SpoolEnds(disk, source);
      var seen: Bytes := [];
      size := 0;
      while size < |source|
        invariant Valid() && fs.names == old(fs.names) && fs.Public() == old(fs.Public())
        invariant size <= |source| && seen == source[..size]
        invariant fs.Content(temp) + Spool(disk, source, size) == Spool(disk, source, 0)
      {
        var to := ChunkEnd(source, size);
        var chunk := source[size..to];
        SpoolStep(disk, source, size, fs.Content(temp));
        seen := seen + chunk;
        WriteChunk(temp, disk(size, chunk));
        size := to;
      }
      assert source[..size] == source;
      digest := sha(seen);
    }

    method WriteAtomic(target: FileSystem.Name, source: Bytes, h: Text, size: int, way: Way) returns (r: Option<bool>)
      requires Valid() && !target.TempName? && target !in fs.names
      modifies this`fs
      ensures Valid()
      ensures r == if !IsObject(sha, source, h, size) then None else Some(way.rival.None?)
      ensures r.None? ==> fs.Public() == old(fs.Public())
      ensures r.Some? ==> fs.Public() == old(fs.Public())[target :=
                            if way.rival.Some? then way.rival.value else Spool(way.disk, source, 0)]
      ensures r != Some(false) ==> Temps() == old(Temps())
    {
      hide Spool;
      var temp := MakeTemp();
      assert Temps() == old(Temps()) + {temp};
      var digest, length := CopyChunks(temp, source, way.disk);
      assert Temps() == old(Temps()) + {temp};
      if length != size || digest != h {
        fs := fs.Unlink(temp);
        assert fs.Public() == old(fs.Public());
        return None;
      }
      var installed := InstallNewFile(temp, target, way.rival);
      return Some(installed);
    }

    /** Succeeds only when the file at the address hashes to it, whatever the disk kept; takes back what does not. */
    method IngestObject(source: Option<Bytes>, h: Text, size: int, way: Way) returns (r: Option<Outcome>)
      requires Valid()
      modifies this`fs
      ensures Valid() && (r, fs.Public()) == Ingestion.IngestObject(sha, old(fs.Public()), source, h, size, way)
      ensures r.Some? ==> ObjectName(h) in fs.Public() && IsObject(sha, fs.Public()[ObjectName(h)], h, size)
    {
      var target := ObjectName(h);
      if target in fs.names {
        var digest, length := HashStoreFile(target);
        return if digest == h && length == size then Some(AlreadyPresent) else None;
      }
      if source.None? {
        return None;
      }
      var installed := WriteAtomic(target, source.value, h, size, way);
      if installed.None? {
        return None;
      }
      var digest, length := HashStoreFile(target);
      if !installed.value {
        return if digest == h && length == size then Some(AlreadyPresent) else None;
      }
      if digest != h || length != size {
        ghost var was := fs.Public();
        fs := fs.Unlink(target);
        assert fs.Public() == old(fs.Public());
        return None;
      }
      return Some(Ingested);
    }

    /** A manifest that fails its read-back is reported, but stays. */
    method PutManifest(data: Bytes, way: Way) returns (r: Option<Text>)
      requires Valid()
      modifies this`fs
      ensures Valid() && (r, fs.Public()) == Ingestion.PutManifest(sha, old(fs.Public()), data, way)
    {
      if CheckBytes(data).None? {
        return None;
      }
      var h := sha(data);
      var target := ManifestName(h);
      if target in fs.names {
        return if fs.Content(target) == data then Some(h) else None;
      }
      var temp := MakeTemp();
      WriteChunk(temp, way.disk(0, data));
      var installed := InstallNewFile(temp, target, way.rival);
      if !installed {
        return if fs.Content(target) == data then Some(h) else None;
      }
      return if fs.Content(target) != data then None else Some(h);
    }

    method Ingest(data: Bytes, roots: map<Text, Node>, ways: nat -> Way) returns (r: Option<IngestReport>)
      requires Valid()
      modifies this`fs
      ensures Valid() && (r, fs.Public()) == Ingestion.Ingest(sha, old(fs.Public()), data, roots, ways)
      ensures Extends(old(fs.Public()), fs.Public())
      ensures r.Some? ==> StoreChecks.VerifyCopy(sha, fs.Public(), r.value.manifestSha256).Some?
    {
      hide CheckBytes, SourceOf, Ingestion.IngestObject, Ingestion.PutManifest, IngestFiles, Extends;
      hide StoreChecks.VerifyCopy;
      IngestLaws(sha, fs.Public(), data, roots, ways);
      var checked := CheckBytes(data);
      if checked.None? || roots.Keys != RolesOf(checked.value.files) {
        return None;
      }
      var files := checked.value.files;
      NoFilesYet(sha, fs.Public(), files, roots, ways);
      var ingested, alreadyPresent := 0, 0;
      for i := 0 to |files|
        invariant Valid() && IngestFiles(sha, old(fs.Public()), files[..i], roots, ways)
                             == (Some(Counts(ingested, alreadyPresent)), fs.Public())
      {
        var entry := files[i];
        OneMoreFile(sha, old(fs.Public()), files, roots, ways, i);
        var result := IngestObject(SourceOf(roots, entry), entry.sha256, entry.sizeBytes, ways(i));
        if result.None? {
          StopsForGood(sha, old(fs.Public()), files, roots, ways, i + 1);
          return None;
        }
        if result == Some(Ingested) {
          ingested := ingested + 1;
        } else {
          alreadyPresent := alreadyPresent + 1;
        }
      }
      assert files[..|files|] == files;
      var put := PutManifest(data, ways(|files|));
      if put.None? {
        return None;
      }
      return Some(IngestReport(alreadyPresent, ingested, put.value, |files|));
    }

    // ---- verifying ----

    method LoadManifest(h: Text) returns (r: Option<Manifest>)
      requires Valid()
      ensures r == StoreChecks.LoadManifest(sha, fs.Public(), h)
    {
      hide CheckBytes;
      var target := ManifestName(h);
      if target !in fs.names {
        return None;
      }
      var digest, _ := HashStoreFile(target);
      if digest != h {
        return None;
      }
      return CheckBytes(fs.Content(target));
    }

    method VerifyCopy(h: Text) returns (r: Option<CopyReport>)
      requires Valid()
      ensures r == StoreChecks.VerifyCopy(sha, fs.Public(), h)
    {
      hide StoreChecks.LoadManifest;
      var manifest := LoadManifest(h);
      if manifest.None? {
        return None;
      }
      var files := manifest.value.files;
      for i := 0 to |files|
        invariant forall j :: 0 <= j < i ==> Stored(sha, fs.Public(), files[j])
      {
        var target := ObjectName(files[i].sha256);
        assert files[i] in files;
        if target !in fs.names {
          return None;
        }
        var digest, size := HashStoreFile(target);
        if size != files[i].sizeBytes || digest != files[i].sha256 {
          return None;
        }
      }
      return Some(CopyReport(manifest.value.artifactId, h, manifest.value.fileCount));
    }

    // ---- restoring ----

    /** One object read, hashed and written into the workspace under a name that must be new. */
    method CopyOut(e: ValidFile, disk: Disk, workspace: Node) returns (r: Option<Node>)
      requires Valid()
      ensures r == RestoreFile(sha, fs.Public(), e, disk, workspace)
    {
      hide Spool, Put, NodeAt, Target;
      var source := ObjectName(e.sha256);
      if source !in fs.names || NodeAt(workspace, Target(e)).Some? {
        return None;
      }
      var data := fs.Content(source);
      SpoolEnds(disk, data);
      var seen: Bytes, written: Bytes, size := [], [], 0;
      while size < |data|
        invariant size <= |data| && seen == data[..size]
        invariant written + Spool(disk, data, size) == Spool(disk, data, 0)
      {
        var to := ChunkEnd(data, size);
        var chunk := data[size..to];
        SpoolStep(disk, data, size, written);
        seen, written, size := seen + chunk, written + disk(size, chunk), to;
      }
      assert data[..size] == data && written + [] == written;
      var after := Put(workspace, Target(e), written);
      if after.None? || size != e.sizeBytes || sha(seen) != e.sha256 {
        return None;
      }
      return after;
    }

    /** The workspace directory is filled entry by entry. */
    method FillWorkspace(files: seq<ValidFile>, disks: nat -> Disk, workspace: Text) returns (ok: bool)
      requires Valid() && workspace !in trees
      modifies this`trees
      ensures workspace in trees && trees - {workspace} == old(trees)
      ensures ok <==> RestoreFiles(sha, fs.Public(), files, disks).Some?
      ensures ok ==> RestoreFiles(sha, fs.Public(), files, disks) == Some(trees[workspace])
    {
      hide RestoreFile, ValidEntry;
      trees := trees[workspace := EmptyDir];
      for i := 0 to |files|
        invariant workspace in trees && trees - {workspace} == old(trees)
        invariant RestoreFiles(sha, fs.Public(), files[..i], disks) == Some(trees[workspace])
      {
        assert files[..i + 1][..i] == files[..i];
        var after := CopyOut(files[i], disks(i), trees[workspace]);
        if after.None? {
          RestoreStopsForGood(sha, fs.Public(), files, disks, i + 1);
          return false;
        }
        trees := trees[workspace := after.value];
      }
      assert files[..|files|] == files;
      return true;
    }

    /** Rebuild the manifest from the workspace and compare the hashes. */
    method RebuildMatches(h: Text, m: Manifest, tree: Node) returns (ok: bool)
      requires Valid() && HexDigests(sha) && RebuildTellsApart(sha, m, tree)
      requires StoreChecks.LoadManifest(sha, fs.Public(), h) == Some(m)
      requires tree.Dir? && Plain(tree) && tree.children.Keys == RolesOf(m.files)
      ensures ok <==> RightTree(sha, m, tree)
    {
      hide StoreChecks.LoadManifest, RightTree, HexDigests, RebuildTellsApart, Plain, Describes, Buildable, FilesOf;
      var roots := map role | role in RolesOf(m.files) && role in tree.children :: tree.children[role];
      assert roots == tree.children;
      var rebuilt := BuildPortableManifest(sha, m.artifactId, roots);
      RebuiltIff(sha, fs.Public(), h, tree, rebuilt);
      return rebuilt.Some? && sha(ManifestBytes(rebuilt.value)) == h;
    }

    /** Publishes the finished tree under a name nobody holds, or leaves everything as it was; `rival` is what
        another process puts at the destination just before the rename. */
    method Restore(h: Text, destination: Text, disks: nat -> Disk, rival: Option<Node>) returns (r: Option<RestoreReport>)
      requires Valid() && HexDigests(sha)
      requires WorkspaceTree(sha, fs.Public(), h, disks).Some? ==>
                 RebuildTellsApart(sha, StoreChecks.LoadManifest(sha, fs.Public(), h).value,
                                   WorkspaceTree(sha, fs.Public(), h, disks).value)
      modifies this`trees
      ensures r.Some? <==>
              && destination !in old(trees) && WorkspaceName(destination) !in old(trees) && rival.None?
              && Restorable(sha, fs.Public(), h, disks)
      ensures r.Some? ==>
                var m := StoreChecks.LoadManifest(sha, fs.Public(), h).value;
                && r == Some(RestoreReport(m.artifactId, h, m.fileCount))
                && trees == old(trees)[destination := RestoreFiles(sha, fs.Public(), m.files, disks).value]
      ensures r.None? ==>
                trees == old(trees)
                || (destination !in old(trees) && rival.Some? && trees == old(trees)[destination := rival.value])
    {
      hide StoreChecks.LoadManifest, RightTree, HexDigests, RebuildTellsApart, RestoreFiles, ValidManifest, Plain;
      var workspace := WorkspaceName(destination);
      if destination in trees || workspace in trees {
        return None;
      }
      var manifest := LoadManifest(h);
      if manifest.None? {
        return None;
      }
      LoadedValid(sha, fs.Public(), h);
      var m := manifest.value;
      EntriesValid(m);
      var filled := FillWorkspace(m.files, disks, workspace);
      var matches := false;
      if filled {
        TreeShape(sha, fs.Public(), m.files, disks);
        matches := RebuildMatches(h, m, trees[workspace]);
      }
      if !matches {
        trees := trees - {workspace};
        return None;
      }
      if rival.Some? {
        trees := trees[destination := rival.value];
      }
      if destination in trees {
        trees := trees - {workspace};
        return None;
      }
      trees := (trees - {workspace})[destination := trees[workspace]];
      return Some(RestoreReport(m.artifactId, h, m.fileCount));
    }
  }

  lemma EntriesValid(m: Manifest)
    requires ValidManifest(m)
    ensures forall e :: e in m.files ==> ValidEntry(e)
  {
  }

  lemma IngestLaws(sha: Bytes -> Text, store: Contents, data: Bytes, roots: map<Text, Node>, ways: nat -> Way)
    ensures var r := Ingestion.Ingest(sha, store, data, roots, ways);
            Extends(store, r.1) && (r.0.Some? ==> StoreChecks.VerifyCopy(sha, r.1, r.0.value.manifestSha256).Some?)
  {
    hide Ingestion.Ingest, StoreChecks.VerifyCopy;
    IngestExtends(sha, store, data, roots, ways);
    if Ingestion.Ingest(sha, store, data, roots, ways).0.Some? {
      IngestedVerifies(sha, store, data, roots, ways);
    }
  }

  lemma NoFilesYet(sha: Bytes -> Text, store: Contents, files: seq<FileEntry>, roots: map<Text, Node>, ways: nat -> Way)
    ensures IngestFiles(sha, store, files[..0], roots, ways) == (Some(Counts(0, 0)), store)
  {
  }

  lemma OneMoreFile(sha: Bytes -> Text, store: Contents, files: seq<FileEntry>, roots: map<Text, Node>,
                    ways: nat -> Way, i: nat)
    requires i < |files| && IngestFiles(sha, store, files[..i], roots, ways).0.Some?
    ensures var before := IngestFiles(sha, store, files[..i], roots, ways);
            var r := Ingestion.IngestObject(sha, before.1, SourceOf(roots, files[i]), files[i].sha256,
                                            files[i].sizeBytes, ways(i));
            IngestFiles(sha, store, files[..i + 1], roots, ways)
            == (if r.0.None? then None else Some(Count(before.0.value, r.0.value)), r.1)
  {
    assert files[..i + 1][..i] == files[..i];
  }

  /** The first entry that fails decides the call. */
  lemma {:induction false} StopsForGood(sha: Bytes -> Text, store: Contents, files: seq<FileEntry>,
                                        roots: map<Text, Node>, ways: nat -> Way, n: nat)
    requires n <= |files| && IngestFiles(sha, store, files[..n], roots, ways).0.None?
    ensures IngestFiles(sha, store, files, roots, ways) == IngestFiles(sha, store, files[..n], roots, ways)
    decreases |files|
  {
    if n == |files| {
      assert files[..n] == files;
    } else {
      var m := |files| - 1;
      assert files[..m][..n] == files[..n];
      StopsForGood(sha, store, files[..m], roots, ways, n);
    }
  }

  lemma {:induction false} RestoreStopsForGood(sha: Bytes -> Text, store: Contents, files: seq<ValidFile>,
                                               disks: nat -> Disk, n: nat)
    requires n <= |files| && RestoreFiles(sha, store, files[..n], disks).None?
    ensures RestoreFiles(sha, store, files, disks).None?
    decreases |files|
  {
    if n == |files| {
      assert files[..n] == files;
    } else {
      var m := |files| - 1;
      assert files[..m][..n] == files[..n];
      RestoreStopsForGood(sha, store, files[..m], disks, n);
    }
  }

  lemma LoadedValid(sha: Bytes -> Text, store: Contents, h: Text)
    requires StoreChecks.LoadManifest(sha, store, h).Some?
    ensures var m := StoreChecks.LoadManifest(sha, store, h).value;
            ValidManifest(m) && sha(ManifestBytes(m)) == h
  {
    CheckBytesIff(store[ManifestName(h)], StoreChecks.LoadManifest(sha, store, h).value);
  }

  /** On any disk: a finished workspace holds one directory for each role, and no links. */
  lemma TreeShape(sha: Bytes -> Text, store: Contents, files: seq<ValidFile>, disks: nat -> Disk)
    requires RestoreFiles(sha, store, files, disks).Some?
    ensures var tree := RestoreFiles(sha, store, files, disks).value;
            tree.Dir? && Plain(tree) && tree.children.Keys == RolesOf(files)
  {
    hide Target, Spool, CreateAll, HoldsFiles, Plain, ValidEntry, Stored;
    RestoreIsCreate(sha, store, files, disks);
    var writes := Writes(store, files, disks);
    CreatedHolds(writes);
    var tree := CreateAll(writes).value;
    forall n: Segment | n in tree.children
      ensures n in RolesOf(files)
    {
      ChildIsRole(store, files, disks, tree, n);
    }
    forall e | e in files
      ensures e.role in tree.children
    {
      var i :| 0 <= i < |files| && files[i] == e;
      HeldAt(writes, tree, i);
      TargetParts(files[i]);
      NodeAtHead(tree, Target(files[i]));
    }
  }

  lemma DescribedScannable(sha: Bytes -> Text, m: Manifest, roots: map<Text, Node>, role: Text)
    requires Describes(sha, m, FilesOf(roots)) && role in RolesOf(m.files) && role in roots && Plain(roots[role])
    ensures Scan.Scannable(role, roots[role])
  {
    var e :| e in m.files && e.role == role;
    var k :| k in FilesOf(roots) && k.1 != [] && e == Scan.EntryOf(sha, k.0, k.1, FilesOf(roots)[k]);
    forall p: Path | IsFileAt(roots[role], p)
      ensures IsRelativePath(Join(p))
    {
      assert (role, p) in FilesOf(roots);
      var entry := Scan.EntryOf(sha, role, p, FilesOf(roots)[(role, p)]);
      assert entry in m.files && ValidEntry(entry);
    }
  }

  lemma DescribedBuildable(sha: Bytes -> Text, m: Manifest, tree: Node)
    requires RightTree(sha, m, tree)
    ensures Buildable(m.artifactId, tree.children)
  {
    hide Scan.Scannable, FilesOf, ValidEntry, IsArtifactId, Plain, FoldedKey, KeyLess, Scan.EntryOf;
    var roots: map<Text, Node> := tree.children;
    forall role | role in roots
      ensures Scan.Scannable(role, roots[role])
    {
      PlainChild(tree, role);
      DescribedScannable(sha, m, roots, role);
    }
    forall i, j | 0 <= i < j < |m.files|
      ensures !SameKey(m.files[i], m.files[j])
    {
      KeyLessAsymmetric(m.files[i], m.files[j]);
    }
    CollisionIff(sha, FilesOf(roots), m.files);
    assert m.files[0] in m.files && m.files[0].role in roots;
  }

  /** The comparison of hashes decides whether the workspace is what the manifest describes. */
  lemma RebuiltIff(sha: Bytes -> Text, store: Contents, h: Text, tree: Node, rebuilt: Option<Manifest>)
    requires StoreChecks.LoadManifest(sha, store, h).Some?
    requires var m := StoreChecks.LoadManifest(sha, store, h).value;
             && RebuildTellsApart(sha, m, tree)
             && tree.Dir? && Plain(tree) && tree.children.Keys == RolesOf(m.files)
             && (rebuilt.Some? <==> Buildable(m.artifactId, tree.children))
             && (rebuilt.Some? ==> rebuilt.value.artifactId == m.artifactId
                                   && Describes(sha, rebuilt.value, FilesOf(tree.children)))
    ensures var m := StoreChecks.LoadManifest(sha, store, h).value;
            rebuilt.Some? && sha(ManifestBytes(rebuilt.value)) == h <==> RightTree(sha, m, tree)
  {
    var m := StoreChecks.LoadManifest(sha, store, h).value;
    hide StoreChecks.LoadManifest, Buildable, FilesOf, ManifestBytes, Plain, ValidManifest, Lists;
    LoadedValid(sha, store, h);
    if RightTree(sha, m, tree) {
      DescribedBuildable(sha, m, tree);
      ManifestDetermined(sha, m, rebuilt.value, FilesOf(tree.children));
    }
    if rebuilt.Some? && sha(ManifestBytes(rebuilt.value)) == h {
      ManifestBytesInjective(m, rebuilt.value);
    }
  }
}
