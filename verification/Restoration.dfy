/** What `restore` puts into its workspace, and exactly when it succeeds. */
module Restoration {
  import opened Wrappers
  import opened Texts
  import opened FileSystem
  import opened Manifest
  import opened ManifestFacts
  import opened Trees
  import opened Scan
  import opened Digests
  import opened Build
  import opened StoreChecks
  import opened Ingestion
  import opened Workspace

  const ZEROS: Text := seq(DIGEST_LENGTH, i => 48)

  type ValidFile = e: FileEntry | ValidEntry(e) witness (SplitHead([97], []); FileEntry([97], [97], ZEROS, 0))

  /** Where an entry goes: its role becomes a top-level directory. */
  function Target(e: ValidFile): (p: Path)
    ensures |p| >= 2
  {
    assert SLASH !in e.role;
    [e.role] + SplitPath(e.relativePath)
  }

  /** One object copied out: the digest is taken of what was read, the disk keeps what it keeps. */
  function RestoreFile(sha: Bytes -> Text, store: Contents, e: ValidFile, disk: Disk, workspace: Node): Option<Node> {
    var n := ObjectName(e.sha256);
    if n !in store || NodeAt(workspace, Target(e)).Some? then None
    else
      var after :- Put(workspace, Target(e), Spool(disk, store[n], 0));
      if IsObject(sha, store[n], e.sha256, e.sizeBytes) then Some(after) else None
  }

  function RestoreFiles(sha: Bytes -> Text, store: Contents, files: seq<ValidFile>, disks: nat -> Disk): Option<Node> {
    if files == [] then Some(EmptyDir)
    else
      var n := |files| - 1;
      var workspace :- RestoreFiles(sha, store, files[..n], disks);
      RestoreFile(sha, store, files[n], disks(n), workspace)
  }

  /** Everything before the publishing rename succeeds: the manifest rebuilt from the workspace is the requested one. */
  ghost predicate Restorable(sha: Bytes -> Text, store: Contents, h: Text, disks: nat -> Disk) {
    && LoadManifest(sha, store, h).Some?
    && var m := LoadManifest(sha, store, h).value;
       && ValidManifest(m)
       && RestoreFiles(sha, store, m.files, disks).Some?
       && RightTree(sha, m, RestoreFiles(sha, store, m.files, disks).value)
  }

  /** The files of the tree, role by role, are exactly those the manifest describes. */
  ghost predicate RightTree(sha: Bytes -> Text, m: Manifest, tree: Node) {
    tree.Dir? && Plain(tree) && tree.children.Keys == RolesOf(m.files) && Describes(sha, m, FilesOf(tree.children))
  }

  // ---- as a list of writes ----

  predicate Present(store: Contents, files: seq<ValidFile>) {
    forall e :: e in files ==> ObjectName(e.sha256) in store
  }

  function Writes(store: Contents, files: seq<ValidFile>, disks: nat -> Disk): (r: seq<Write>)
    requires Present(store, files)
    ensures |r| == |files|
    ensures forall i :: 0 <= i < |files| ==>
              r[i] == Write(Target(files[i]), Spool(disks(i), store[ObjectName(files[i].sha256)], 0))
  {
    seq(|files|, i requires 0 <= i < |files| =>
                   Write(Target(files[i]), Spool(disks(i), store[ObjectName(files[i].sha256)], 0)))
  }

  lemma LastWrite(store: Contents, files: seq<ValidFile>, disks: nat -> Disk)
    requires files != [] && Present(store, files)
    ensures var n := |files| - 1;
            && Present(store, files[..n])
            && Writes(store, files, disks) == Writes(store, files[..n], disks) + [Writes(store, files, disks)[n]]
  {
    hide Spool, Target;
    var n := |files| - 1;
    assert Writes(store, files, disks)[..n] == Writes(store, files[..n], disks);
  }

  /** One entry more: the object has to be stored, and the file has to be new. */
  lemma OneMoreWrite(sha: Bytes -> Text, store: Contents, e: ValidFile, disk: Disk, workspace: Node)
    ensures Stored(sha, store, e) ==> ObjectName(e.sha256) in store
    ensures RestoreFile(sha, store, e, disk, workspace) ==
            if !Stored(sha, store, e) || NodeAt(workspace, Target(e)).Some? then None
            else Put(workspace, Target(e), Spool(disk, store[ObjectName(e.sha256)], 0))
  {
    hide Spool, Target, NodeAt, Put;
  }

  lemma StoredStep(sha: Bytes -> Text, store: Contents, files: seq<ValidFile>)
    requires files != []
    ensures AllStored(sha, store, files) <==>
            AllStored(sha, store, files[..|files| - 1]) && Stored(sha, store, files[|files| - 1])
    ensures AllStored(sha, store, files) ==> Present(store, files)
  {
    assert files == files[..|files| - 1] + [files[|files| - 1]];
  }

  lemma CreateStep(store: Contents, files: seq<ValidFile>, disks: nat -> Disk)
    requires files != [] && Present(store, files)
    ensures var n := |files| - 1;
            && Present(store, files[..n])
            && var before := CreateAll(Writes(store, files[..n], disks));
               CreateAll(Writes(store, files, disks)) ==
               if before.None? || NodeAt(before.value, Target(files[n])).Some? then None
               else Put(before.value, Target(files[n]), Spool(disks(n), store[ObjectName(files[n].sha256)], 0))
  {
    LastWrite(store, files, disks);
    hide Spool, Target, NodeAt, Put;
    var n := |files| - 1;
    var w := Writes(store, files, disks);
    assert w[..n] == Writes(store, files[..n], disks);
  }

  lemma {:induction false} RestoreIsCreate(sha: Bytes -> Text, store: Contents, files: seq<ValidFile>, disks: nat -> Disk)
    ensures AllStored(sha, store, files) ==> Present(store, files)
    ensures RestoreFiles(sha, store, files, disks)
            == if AllStored(sha, store, files) then CreateAll(Writes(store, files, disks)) else None
  {
    if files != [] {
      var n := |files| - 1;
      RestoreIsCreate(sha, store, files[..n], disks);
      StoredStep(sha, store, files);
      if AllStored(sha, store, files) {
        CreateStep(store, files, disks);
      }
      var before := RestoreFiles(sha, store, files[..n], disks);
      if before.Some? {
        OneMoreWrite(sha, store, files[n], disks(n), before.value);
      }
      hide Spool, Target, NodeAt, Put, AllStored, Present, Writes, CreateAll, RestoreFile, Stored;
    }
  }

  // ---- the restored tree and the manifest ----

  /** No file of the manifest is a directory of another. */
  predicate NoFileInTheWay(files: seq<ValidFile>) {
    forall i, j :: 0 <= i < |files| && 0 <= j < |files| && i != j ==> !(Target(files[i]) <= Target(files[j]))
  }

  lemma TargetParts(e: ValidFile)
    ensures Target(e)[0] == e.role && Join(Target(e)[1..]) == e.relativePath
  {
    JoinSplit(e.relativePath);
  }

  lemma FilesBelow(tree: Node, role: Text, p: Path)
    requires tree.Dir? && p != []
    ensures (role, p) in FilesOf(tree.children) <==> role in tree.children && IsFileAt(tree, [role] + p)
    ensures (role, p) in FilesOf(tree.children) ==>
              NodeAt(tree, [role] + p) == Some(File(FilesOf(tree.children)[(role, p)]))
  {
    if role in tree.children {
      var n: Segment := role;
      assert ([n] + p)[1..] == p;
    }
  }

  /** Where one write ended up, and that its bytes are the object's when the disk kept them. */
  lemma DescribedAt(sha: Bytes -> Text, store: Contents, files: seq<ValidFile>, disks: nat -> Disk, tree: Node, i: nat)
    requires AllStored(sha, store, files) && Present(store, files) && Holds(Writes(store, files, disks), tree)
    requires i < |files| && Faithful(disks(i))
    ensures var role, p := files[i].role, Target(files[i])[1..];
            && (role, p) in FilesOf(tree.children)
            && FilesOf(tree.children)[(role, p)] == store[ObjectName(files[i].sha256)]
            && files[i] == EntryOf(sha, role, p, FilesOf(tree.children)[(role, p)])
  {
    hide Spool, Target, FilesOf, Join, SplitPath, ValidEntry, NodeAt;
    var e := files[i];
    assert e in files && Stored(sha, store, e);
    TargetParts(e);
    var t := Target(e);
    assert [t[0]] + t[1..] == t;
    SpoolFaithful(disks(i), store[ObjectName(e.sha256)], 0);
    HeldAt(Writes(store, files, disks), tree, i);
    NodeAtHead(tree, t);
    FilesBelow(tree, e.role, t[1..]);
  }

  lemma NodeAtHead(tree: Node, p: Path)
    requires NodeAt(tree, p).Some? && p != []
    ensures tree.Dir? && p[0] in tree.children
  {
  }

  lemma KeyShape(tree: Node, k: (Text, Path))
    requires tree.Dir? && k in FilesOf(tree.children)
    ensures k.1 != [] && k.0 in tree.children
  {
  }

  lemma IndexOfWrite(store: Contents, files: seq<ValidFile>, disks: nat -> Disk, w: Write) returns (i: nat)
    requires Present(store, files) && w in Writes(store, files, disks)
    ensures i < |files| && w.path == Target(files[i])
  {
    i :| 0 <= i < |files| && w == Writes(store, files, disks)[i];
  }

  /** The entry below or at a node of the tree. */
  lemma EntryBelow(store: Contents, files: seq<ValidFile>, disks: nat -> Disk, tree: Node, p: Path) returns (i: nat)
    requires Present(store, files) && Holds(Writes(store, files, disks), tree)
    requires p != [] && NodeAt(tree, p).Some?
    ensures i < |files| && p <= Target(files[i])
    ensures IsFileAt(tree, p) ==> p == Target(files[i])
  {
    hide Spool, Target, NodeAt, Plain, Writes;
    var writes := Writes(store, files, disks);
    if IsFileAt(tree, p) {
      var w :| w in writes && p == w.path;
      i := IndexOfWrite(store, files, disks, w);
    } else {
      var w :| w in writes && p <= w.path;
      i := IndexOfWrite(store, files, disks, w);
    }
  }

  lemma ChildIsRole(store: Contents, files: seq<ValidFile>, disks: nat -> Disk, tree: Node, n: Segment)
    requires Present(store, files) && Holds(Writes(store, files, disks), tree) && tree.Dir? && n in tree.children
    ensures n in RolesOf(files)
  {
    hide Spool, Target, Holds;
    assert [n][1..] == [] && NodeAt(tree, [n]) == Some(tree.children[n]);
    var i := EntryBelow(store, files, disks, tree, [n]);
    TargetParts(files[i]);
    assert [n][0] == Target(files[i])[0];
    assert files[i] in files;
  }

  lemma EntryOfFile(sha: Bytes -> Text, store: Contents, files: seq<ValidFile>, disks: nat -> Disk, tree: Node,
                    k: (Text, Path))
    requires AllStored(sha, store, files) && Present(store, files) && Holds(Writes(store, files, disks), tree)
    requires forall i: nat :: Faithful(disks(i))
    requires tree.Dir? && k in FilesOf(tree.children)
    ensures k.1 != [] && EntryOf(sha, k.0, k.1, FilesOf(tree.children)[k]) in files
    ensures FilesOf(tree.children)[k] in store.Values
  {
    hide Spool, Target, NodeAt, FilesOf, Join, Holds, EntryOf, Stored, Faithful;
    KeyShape(tree, k);
    FilesBelow(tree, k.0, k.1);
    var p: Path := [k.0] + k.1;
    var i := EntryBelow(store, files, disks, tree, p);
    DescribedAt(sha, store, files, disks, tree, i);
    TargetParts(files[i]);
    assert p[0] == k.0 && p[1..] == k.1;
  }

  /** When the disk kept every byte, the tree is what the manifest describes. */
  lemma KeptIsRight(sha: Bytes -> Text, store: Contents, m: Manifest, disks: nat -> Disk, tree: Node)
    requires ValidManifest(m) && AllStored(sha, store, m.files)
    requires Present(store, m.files) && Holds(Writes(store, m.files, disks), tree)
    requires forall i: nat :: Faithful(disks(i))
    ensures RightTree(sha, m, tree)
  {
    hide Spool, Target, NodeAt, FilesOf, Join, ValidEntry, EntryOf, Stored, HoldsFiles, Faithful;
    var files: seq<ValidFile> := m.files;
    forall k | k in FilesOf(tree.children)
      ensures k.1 != [] && EntryOf(sha, k.0, k.1, FilesOf(tree.children)[k]) in files
    {
      EntryOfFile(sha, store, files, disks, tree, k);
    }
    forall e | e in files
      ensures e.role in tree.children
      ensures exists k :: k in FilesOf(tree.children) && k.1 != [] && e == EntryOf(sha, k.0, k.1, FilesOf(tree.children)[k])
    {
      var i :| 0 <= i < |files| && files[i] == e;
      DescribedAt(sha, store, files, disks, tree, i);
      KeyShape(tree, (e.role, Target(e)[1..]));
    }
    forall n: Segment | n in tree.children
      ensures n in RolesOf(files)
    {
      ChildIsRole(store, files, disks, tree, n);
    }
  }

  lemma HoldsDir(writes: seq<Write>, tree: Node)
    requires Holds(writes, tree)
    ensures tree.Dir?
  {
  }

  /** Whatever a restore on a faithful disk puts into the tree comes from the store. */
  lemma RestoredFromStore(sha: Bytes -> Text, store: Contents, files: seq<ValidFile>, disks: nat -> Disk)
    requires RestoreFiles(sha, store, files, disks).Some? && forall i: nat :: Faithful(disks(i))
    ensures var tree := RestoreFiles(sha, store, files, disks).value;
            tree.Dir? && FilesOf(tree.children).Values <= Strings(store.Values)
  {
    hide Spool, Target, NodeAt, FilesOf, Holds, EntryOf, Stored, Faithful, RestoreFiles, CreateAll, ValidEntry;
    RestoreIsCreate(sha, store, files, disks);
    var writes := Writes(store, files, disks);
    CreatedHolds(writes);
    var tree := CreateAll(writes).value;
    assert tree.Dir? by {
      HoldsDir(writes, tree);
    }
    forall k | k in FilesOf(tree.children)
      ensures FilesOf(tree.children)[k] in store.Values
    {
      EntryOfFile(sha, store, files, disks, tree, k);
    }
  }

  /** With a disk that keeps what is written, a restore succeeds exactly when the copy verifies and no file
      of the manifest is a directory of another. */
  lemma RestorableIff(sha: Bytes -> Text, store: Contents, h: Text, disks: nat -> Disk)
    requires forall i: nat :: Faithful(disks(i))
    ensures LoadManifest(sha, store, h).Some? ==> ValidManifest(LoadManifest(sha, store, h).value)
    ensures Restorable(sha, store, h, disks) <==>
            VerifyCopy(sha, store, h).Some? && NoFileInTheWay(LoadManifest(sha, store, h).value.files)
  {
    hide CheckBytes, RestoreFiles, Holds, Target, ValidEntry, RightTree, CreateAll, Spool;
    if LoadManifest(sha, store, h).Some? {
      var m := LoadManifest(sha, store, h).value;
      CheckBytesIff(store[ManifestName(h)], m);
      RestoreIsCreate(sha, store, m.files, disks);
      if AllStored(sha, store, m.files) {
        var writes := Writes(store, m.files, disks);
        CreateAllIff(writes);
        if CreateAll(writes).Some? {
          CreatedHolds(writes);
          KeptIsRight(sha, store, m, disks, CreateAll(writes).value);
        }
      }
    }
  }
}
