/** Building portable manifests: the manifest is the identity of a (role, path) to bytes map. */
module Build {
  import opened Wrappers
  import opened Texts
  import opened Json
  import opened Manifest
  import opened ManifestFacts
  import opened Trees
  import opened Scan
  import opened Digests
  import opened ManifestCheck

  /** A file set, by role and path: what a manifest identifies. */
  type FileMap = imap<(Text, Path), Bytes>

  ghost function FilesOf(roots: map<Text, Node>): FileMap {
    imap k: (Text, Path) | k.0 in roots && k.1 != [] && IsFileAt(roots[k.0], k.1) :: NodeAt(roots[k.0], k.1).value.content
  }

  /** The entries are exactly those of the map's files. */
  ghost predicate Lists(sha: Bytes -> Text, entries: seq<FileEntry>, files: FileMap) {
    && (forall k :: k in files ==> k.1 != [] && EntryOf(sha, k.0, k.1, files[k]) in entries)
    && (forall e :: e in entries ==> exists k :: k in files && k.1 != [] && e == EntryOf(sha, k.0, k.1, files[k]))
  }

  ghost predicate Describes(sha: Bytes -> Text, m: Manifest, files: FileMap) {
    ValidManifest(m) && Lists(sha, m.files, files)
  }

  ghost predicate Collides(files: FileMap) {
    exists j, k :: j in files && k in files && j != k && j.0 == k.0 && j.1 != [] && k.1 != []
                   && CaseFold(Join(j.1)) == CaseFold(Join(k.1))
  }

  ghost predicate Buildable(artifactId: Text, roots: map<Text, Node>) {
    && IsArtifactId(artifactId) && roots != map[]
    && (forall role :: role in roots ==> Scannable(role, roots[role]))
    && !Collides(FilesOf(roots))
  }

  // ---- sorting ----

  function InsertFile(e: FileEntry, files: seq<FileEntry>): seq<FileEntry> {
    if files == [] || KeyLess(e, files[0]) then [e] + files else [files[0]] + InsertFile(e, files[1..])
  }

  /** `files.sort(key=...)` */
  function SortFiles(files: seq<FileEntry>): seq<FileEntry> {
    if files == [] then [] else InsertFile(files[0], SortFiles(files[1..]))
  }

  predicate DistinctKeys(files: seq<FileEntry>) {
    forall i, j :: 0 <= i < j < |files| ==> !SameKey(files[i], files[j])
  }

  lemma FirstOrders(e: FileEntry, files: seq<FileEntry>)
    requires Ordered(files) && forall f :: f in files ==> KeyLess(e, f)
    ensures Ordered([e] + files)
  {
    hide KeyLess;
    forall i | 0 <= i < |files|
      ensures KeyLess(e, files[i])
    {
      assert files[i] in files;
    }
  }

  lemma BeforeAll(e: FileEntry, files: seq<FileEntry>)
    requires Ordered(files) && files != [] && KeyLess(e, files[0])
    ensures forall f :: f in files ==> KeyLess(e, f)
  {
    forall f | f in files
      ensures KeyLess(e, f)
    {
      if f != files[0] {
        KeyLessTransitive(e, files[0], f);
      }
    }
  }

  lemma {:induction false} InsertOrders(e: FileEntry, files: seq<FileEntry>)
    requires Ordered(files) && forall f :: f in files ==> !SameKey(e, f)
    ensures Ordered(InsertFile(e, files)) && multiset(InsertFile(e, files)) == multiset([e] + files)
  {
    hide KeyLess, SameKey;
    if files != [] {
      assert files == [files[0]] + files[1..];
      if KeyLess(e, files[0]) {
        BeforeAll(e, files);
        FirstOrders(e, files);
      } else {
        KeyLessTotal(e, files[0]);
        assert files[0] in files;
        var rest := InsertFile(e, files[1..]);
        InsertOrders(e, files[1..]);
        forall f | f in rest
          ensures KeyLess(files[0], f)
        {
          assert f in multiset(rest);
        }
        FirstOrders(files[0], rest);
      }
    }
  }

  lemma {:induction false} SortOrders(files: seq<FileEntry>)
    requires DistinctKeys(files)
    ensures Ordered(SortFiles(files)) && multiset(SortFiles(files)) == multiset(files)
  {
    if files != [] {
      SortOrders(files[1..]);
      forall f | f in SortFiles(files[1..])
        ensures !SameKey(files[0], f)
      {
        assert f in multiset(files[1..]);
      }
      InsertOrders(files[0], SortFiles(files[1..]));
      assert files == [files[0]] + files[1..];
    }
  }

  lemma {:induction false} OrderedDistinct(files: seq<FileEntry>, i: nat, j: nat)
    requires Ordered(files) && i < |files| && j < |files| && SameKey(files[i], files[j])
    ensures i == j
  {
    if i < j {
      KeyLessAsymmetric(files[i], files[j]);
    } else if j < i {
      KeyLessAsymmetric(files[j], files[i]);
    }
  }

  /** Ascending lists with the same elements are equal. */
  lemma {:induction false} OrderedUnique(a: seq<FileEntry>, b: seq<FileEntry>)
    requires Ordered(a) && Ordered(b) && forall e :: e in a <==> e in b
    ensures a == b
  {
    if b != [] {
      assert b[0] in b;
    }
    if a != [] {
      assert a[0] in a && a[0] in b;
      var i :| 0 <= i < |b| && b[i] == a[0];
      var j :| 0 <= j < |a| && a[j] == b[0];
      if i > 0 && j > 0 {
        KeyLessAsymmetric(a[0], b[0]);
      }
      assert a[0] == b[0];
      forall e | e in a[1..]
        ensures e in b[1..]
      {
        var k :| 1 <= k < |a| && a[k] == e;
        KeyLessAsymmetric(a[0], e);
        assert e in b;
      }
      forall e | e in b[1..]
        ensures e in a[1..]
      {
        var k :| 1 <= k < |b| && b[k] == e;
        KeyLessAsymmetric(b[0], e);
        assert e in a;
      }
      OrderedUnique(a[1..], b[1..]);
    }
  }

  // ---- the identity ----

  /** One file map, one manifest: roots, child order and role order leave no trace. */
  lemma ManifestDetermined(sha: Bytes -> Text, m: Manifest, n: Manifest, files: FileMap)
    requires Describes(sha, m, files) && Describes(sha, n, files) && m.artifactId == n.artifactId
    ensures m == n
  {
    OrderedUnique(m.files, n.files);
  }

  /** One manifest, one file map. */
  lemma MapDetermined(sha: Bytes -> Text, m: Manifest, f: FileMap, g: FileMap)
    requires CollisionFree(sha, f.Values + g.Values) && Describes(sha, m, f) && Describes(sha, m, g)
    ensures f == g
  {
    hide Describes, CollisionFree;
    assert f.Values + g.Values == g.Values + f.Values;
    SameBinding(sha, m, f, g);
    SameBinding(sha, m, g, f);
  }

  lemma SameBinding(sha: Bytes -> Text, m: Manifest, f: FileMap, g: FileMap)
    requires CollisionFree(sha, f.Values + g.Values) && Describes(sha, m, f) && Describes(sha, m, g)
    ensures forall k :: k in f ==> k in g && f[k] == g[k]
  {
    hide ValidManifest;
    forall k | k in f
      ensures k in g && f[k] == g[k]
    {
      var j :| j in g && j.1 != [] && EntryOf(sha, k.0, k.1, f[k]) == EntryOf(sha, j.0, j.1, g[j]);
      JoinInjective(k.1, j.1);
    }
  }

  // ---- the method ----

  /** One entry for each file of the roles scanned so far. */
  ghost predicate Gathered(sha: Bytes -> Text, roots: map<Text, Node>, roles: set<Text>, entries: seq<FileEntry>) {
    && (forall k :: k in FilesOf(roots) && k.0 in roles ==> EntryOf(sha, k.0, k.1, FilesOf(roots)[k]) in entries)
    && (forall e :: e in entries ==>
          exists k :: k in FilesOf(roots) && k.0 in roles && e == EntryOf(sha, k.0, k.1, FilesOf(roots)[k]))
    && DistinctKeys(entries)
  }

  lemma GatherRole(sha: Bytes -> Text, roots: map<Text, Node>, roles: set<Text>, entries: seq<FileEntry>,
                   role: Text, more: seq<FileEntry>)
    requires Gathered(sha, roots, roles, entries) && role in roots && role !in roles
    requires ListsFiles(sha, role, roots[role], more)
    ensures Gathered(sha, roots, roles + {role}, entries + more)
  {
    var all := entries + more;
    forall k | k in FilesOf(roots) && k.0 in roles + {role}
      ensures EntryOf(sha, k.0, k.1, FilesOf(roots)[k]) in all
    {
      if k.0 == role {
        assert EntryOf(sha, role, k.1, NodeAt(roots[role], k.1).value.content) in more;
      }
    }
    forall e | e in all
      ensures exists k :: k in FilesOf(roots) && k.0 in roles + {role} && e == EntryOf(sha, k.0, k.1, FilesOf(roots)[k])
    {
      if e in entries {
        var k :| k in FilesOf(roots) && k.0 in roles && e == EntryOf(sha, k.0, k.1, FilesOf(roots)[k]);
      } else {
        var p: Path :| IsFileAt(roots[role], p)
                       && e == EntryOf(sha, role, p, NodeAt(roots[role], p).value.content);
        assert (role, p) in FilesOf(roots);
      }
    }
    forall i, j | 0 <= i < j < |all|
      ensures !SameKey(all[i], all[j])
    {
      assert all[i] in all && all[j] in all;
      if i < |entries| && j >= |entries| {
        assert all[i] in entries && all[j] in more;
      }
    }
  }

  /** The sorted list of everything gathered is a valid manifest unless two paths collide. */
  lemma GatheredAll(sha: Bytes -> Text, artifactId: Text, roots: map<Text, Node>, entries: seq<FileEntry>, m: Manifest)
    requires HexDigests(sha) && IsArtifactId(artifactId) && roots != map[]
    requires forall role :: role in roots ==> Scannable(role, roots[role])
    requires Gathered(sha, roots, roots.Keys, entries)
    requires m == Manifest(artifactId, |entries|, SortFiles(entries), TotalSize(SortFiles(entries)))
    ensures ValidManifest(m) <==> Buildable(artifactId, roots)
    ensures ValidManifest(m) ==> Describes(sha, m, FilesOf(roots))
  {
    SortOrders(entries);
    SortedEntries(sha, roots, entries);
    GatheredLists(sha, roots, m.files);
    GatheredSome(sha, roots, m.files);
    assert |multiset(m.files)| == |multiset(entries)|;
    hide SortFiles, Scannable, FilesOf, ValidEntry, Ordered, IsArtifactId, TotalSize, CaseDistinct, Collides, Lists;
    CollisionIff(sha, FilesOf(roots), m.files);
  }

  lemma GatheredSome(sha: Bytes -> Text, roots: map<Text, Node>, entries: seq<FileEntry>)
    requires roots != map[] && (forall role :: role in roots ==> Scannable(role, roots[role]))
    requires Gathered(sha, roots, roots.Keys, entries)
    ensures entries != []
  {
    var role :| role in roots;
    var p: Path :| IsFileAt(roots[role], p);
    assert (role, p) in FilesOf(roots);
  }

  lemma GatheredLists(sha: Bytes -> Text, roots: map<Text, Node>, entries: seq<FileEntry>)
    requires Gathered(sha, roots, roots.Keys, entries)
    ensures Lists(sha, entries, FilesOf(roots))
  {
    hide IsFileAt, NodeAt;
  }

  lemma SortedEntries(sha: Bytes -> Text, roots: map<Text, Node>, entries: seq<FileEntry>)
    requires HexDigests(sha) && Gathered(sha, roots, roots.Keys, entries)
    requires forall role :: role in roots ==> Scannable(role, roots[role])
    ensures Gathered(sha, roots, roots.Keys, SortFiles(entries)) && Ordered(SortFiles(entries))
    ensures forall e :: e in SortFiles(entries) ==> ValidEntry(e)
  {
    SortOrders(entries);
    var files := SortFiles(entries);
    forall e
      ensures e in files <==> e in entries
    {
      assert e in multiset(files) <==> e in multiset(entries);
    }
    forall i, j | 0 <= i < j < |files|
      ensures !SameKey(files[i], files[j])
    {
      KeyLessAsymmetric(files[i], files[j]);
    }
    forall e | e in files
      ensures ValidEntry(e)
    {
      var k :| k in FilesOf(roots) && e == EntryOf(sha, k.0, k.1, FilesOf(roots)[k]);
    }
  }

  /** Two files collide exactly when two entries do. */
  lemma CollisionIff(sha: Bytes -> Text, files: FileMap, entries: seq<FileEntry>)
    requires Lists(sha, entries, files) && DistinctKeys(entries)
    ensures Collides(files) <==> !CaseDistinct(entries)
  {
    if Collides(files) {
      var j, k :| j in files && k in files && j != k && j.0 == k.0 && j.1 != [] && k.1 != []
                  && CaseFold(Join(j.1)) == CaseFold(Join(k.1));
      CollidingFiles(sha, files, entries, j, k);
    }
    if !CaseDistinct(entries) {
      var x, y :| 0 <= x < y < |entries| && FoldedKey(entries[x]) == FoldedKey(entries[y]);
      CollidingEntries(sha, files, entries, x, y);
    }
  }

  lemma CollidingFiles(sha: Bytes -> Text, files: FileMap, entries: seq<FileEntry>, j: (Text, Path), k: (Text, Path))
    requires Lists(sha, entries, files)
    requires j in files && k in files && j != k && j.0 == k.0 && j.1 != [] && k.1 != []
    requires CaseFold(Join(j.1)) == CaseFold(Join(k.1))
    ensures !CaseDistinct(entries)
  {
    hide CaseFold, Join;
    var x :| 0 <= x < |entries| && entries[x] == EntryOf(sha, j.0, j.1, files[j]);
    var y :| 0 <= y < |entries| && entries[y] == EntryOf(sha, k.0, k.1, files[k]);
    if x == y {
      JoinInjective(j.1, k.1);
    }
    assert FoldedKey(entries[x]) == FoldedKey(entries[y]);
  }

  lemma CollidingEntries(sha: Bytes -> Text, files: FileMap, entries: seq<FileEntry>, x: nat, y: nat)
    requires Lists(sha, entries, files) && DistinctKeys(entries)
    requires x < y < |entries| && FoldedKey(entries[x]) == FoldedKey(entries[y])
    ensures Collides(files)
  {
    hide CaseFold, Join;
    assert entries[x] in entries && entries[y] in entries;
    var j :| j in files && j.1 != [] && entries[x] == EntryOf(sha, j.0, j.1, files[j]);
    var k :| k in files && k.1 != [] && entries[y] == EntryOf(sha, k.0, k.1, files[k]);
    assert !SameKey(entries[x], entries[y]);
  }

  lemma NotBuildable(artifactId: Text, roots: map<Text, Node>, role: Text)
    requires role in roots && !Scannable(role, roots[role])
    ensures !Buildable(artifactId, roots)
  {
  }

  lemma NothingGathered(sha: Bytes -> Text, roots: map<Text, Node>)
    ensures Gathered(sha, roots, {}, [])
  {
  }

  method BuildPortableManifest(sha: Bytes -> Text, artifactId: Text, roots: map<Text, Node>)
    returns (r: Option<Manifest>)
    requires HexDigests(sha)
    ensures r.Some? <==> Buildable(artifactId, roots)
    ensures r.Some? ==> r.value.artifactId == artifactId && Describes(sha, r.value, FilesOf(roots))
  {
    if !IsArtifactId(artifactId) || roots == map[] {
      return None;
    }
    hide Scannable, ListsFiles, Gathered, ValidManifest, Describes, Collides, IsArtifactId, ReadManifest, ManifestJson;
    var files: seq<FileEntry> := [];
    var roles := roots.Keys;
    NothingGathered(sha, roots);
    while roles != {}
      invariant roles <= roots.Keys
      invariant Gathered(sha, roots, roots.Keys - roles, files)
      invariant forall role :: role in roots.Keys - roles ==> Scannable(role, roots[role])
      decreases roles
    {
      var role :| role in roles;
      var entries := ScanRoleRoot(sha, role, roots[role]);
      if entries.None? {
        NotBuildable(artifactId, roots, role);
        return None;
      }
      GatherRole(sha, roots, roots.Keys - roles, files, role, entries.value);
      assert roots.Keys - roles + {role} == roots.Keys - (roles - {role});
      files := files + entries.value;
      roles := roles - {role};
    }
    assert roots.Keys - {} == roots.Keys;
    var sorted := SortFiles(files);
    var manifest := Manifest(artifactId, |files|, sorted, TotalSize(sorted));
    GatheredAll(sha, artifactId, roots, files, manifest);
    ReadManifestIff(ManifestJson(manifest), manifest);
    r := ValidateManifestObject(ManifestJson(manifest));
  }
}
