/** The live check of VERIFIED_AVAILABLE records, and the fault tolerance it establishes. */
module Availability {
  import opened Wrappers
  import opened Texts
  import opened FileSystem
  import opened Manifest
  import opened Trees
  import opened Digests
  import opened StoreChecks
  import opened Registry
  import Ingestion

  /** A store root as opened: its device, its inode, and what is published below it. */
  datatype Root = Root(device: nat, inode: nat, contents: Contents)

  /** The machine the check runs on. */
  datatype World = World(environment: map<Text, Text>, roots: map<Text, Root>)

  predicate IsUnder(path: Text, prefix: Text) {
    path == prefix || prefix + Lit("/") <= path
  }

  /** `require_allowed_canonical_root`, on a resolved path. */
  predicate AllowedRoot(path: Text) {
    !IsUnder(path, Lit("/tmp")) && !IsUnder(path, Lit("/srv/qnty"))
  }

  lemma {:induction false} SplitAt(a: Text, b: Text)
    ensures Split(a + [SLASH] + b) == Split(a) + Split(b)
  {
    var t := a + [SLASH] + b;
    if a == [] {
      assert t[1..] == b;
    } else {
      assert t[1..] == a[1..] + [SLASH] + b && t[0] == a[0];
      SplitAt(a[1..], b);
    }
  }

  /** A path is under another exactly when it begins with the other's segments: `/tmpfiles` is not under `/tmp`. */
  lemma UnderIff(path: Text, prefix: Text)
    ensures IsUnder(path, prefix) <==> Split(prefix) <= Split(path)
  {
    assert Lit("/") == [SLASH];
    if prefix + [SLASH] <= path {
      SplitAt(prefix, path[|prefix| + 1..]);
      assert path == prefix + [SLASH] + path[|prefix| + 1..];
    }
    if Split(prefix) <= Split(path) {
      var rest := Split(path)[|Split(prefix)|..];
      JoinSplit(path);
      JoinSplit(prefix);
      assert Split(path) == Split(prefix) + rest;
      if rest == [] {
        assert Split(path) == Split(prefix);
      } else {
        JoinTogether(Split(prefix), rest);
        assert path == prefix + [SLASH] + Join(rest);
      }
    }
  }

  lemma {:induction false} JoinTogether(p: seq<Text>, q: seq<Text>)
    requires p != [] && q != []
    ensures Join(p + q) == Join(p) + [SLASH] + Join(q)
  {
    if |p| == 1 {
      assert (p + q)[1..] == q;
    } else {
      assert (p + q)[1..] == p[1..] + q;
      JoinTogether(p[1..], q);
    }
  }

  function OpenRoot(world: World, s: StoreEntry): Option<Root> {
    if s.rootVariable !in world.environment then None
    else
      var path := world.environment[s.rootVariable];
      if path != [] && AllowedRoot(path) && path in world.roots then Some(world.roots[path]) else None
  }

  /** A store's root opens exactly when its variable names a directory that is not `/tmp`, `/srv/qnty` or below them. */
  lemma OpenRootIff(world: World, s: StoreEntry)
    ensures OpenRoot(world, s).Some? <==>
            && s.rootVariable in world.environment
            && var path := world.environment[s.rootVariable];
               && path != [] && path in world.roots
               && !(Split(Lit("/tmp")) <= Split(path)) && !(Split(Lit("/srv/qnty")) <= Split(path))
    ensures OpenRoot(world, s).Some? ==> OpenRoot(world, s).value == world.roots[world.environment[s.rootVariable]]
  {
    if s.rootVariable in world.environment {
      UnderIff(world.environment[s.rootVariable], Lit("/tmp"));
      UnderIff(world.environment[s.rootVariable], Lit("/srv/qnty"));
    }
    hide IsUnder, Split, Lit;
  }

  const FILESYSTEM := Lit("filesystem")

  predicate Usable(world: World, s: StoreEntry) {
    s.readEnabled && s.backendKind == FILESYSTEM && OpenRoot(world, s).Some?
  }

  predicate Independent(s: StoreEntry, a: Root, t: StoreEntry, b: Root) {
    s.rootVariable != t.rootVariable && (a.device, a.inode) != (b.device, b.inode) && a.device != b.device
  }

  /** The copy, read now, is the recorded artifact in full. */
  predicate CopyVerifies(sha: Bytes -> Text, r: Record, c: Copy, root: Root) {
    var report := VerifyCopy(sha, root.contents, c.manifestSha256);
    report.Some? && report.value.artifactId == r.artifactId && report.value.verifiedObjectCount == c.verifiedObjectCount
  }

  predicate Live(records: seq<Record>, r: Record, c: Copy) {
    r in records && r.availability.VerifiedAvailable? && c in r.copies
  }

  /** The registry tree as `validate_registry_tree` hands it over. */
  predicate TreeOk(records: seq<Record>, byId: map<Text, StoreEntry>) {
    forall r :: r in records ==> RecordOk(r) && CrossChecked(r, byId)
  }

  ghost predicate AllUsable(records: seq<Record>, byId: map<Text, StoreEntry>, world: World) {
    forall r, c :: Live(records, r, c) ==> c.storeId in byId && Usable(world, byId[c.storeId])
  }

  /** What `validate_operational_registry` establishes. */
  ghost predicate Operational(sha: Bytes -> Text, records: seq<Record>, byId: map<Text, StoreEntry>, world: World) {
    && AllUsable(records, byId, world)
    && (forall r, c, q, d :: Live(records, r, c) && Live(records, q, d) && c.storeId != d.storeId ==>
          Independent(byId[c.storeId], OpenRoot(world, byId[c.storeId]).value,
                      byId[d.storeId], OpenRoot(world, byId[d.storeId]).value))
    && (forall r, c :: Live(records, r, c) ==> CopyVerifies(sha, r, c, OpenRoot(world, byId[c.storeId]).value))
  }

  /** One record with two copies passes exactly when both stores can be read, differ in variable and device, and hold
      the recorded artifact in full. */
  lemma TwoCopiesPassIff(sha: Bytes -> Text, r: Record, c: Copy, d: Copy, byId: map<Text, StoreEntry>, world: World)
    requires r.availability.VerifiedAvailable? && r.copies == [c, d] && c.storeId != d.storeId
    requires c.storeId in byId && d.storeId in byId
    ensures Operational(sha, [r], byId, world) <==>
            && Usable(world, byId[c.storeId]) && Usable(world, byId[d.storeId])
            && byId[c.storeId].rootVariable != byId[d.storeId].rootVariable
            && OpenRoot(world, byId[c.storeId]).value.device != OpenRoot(world, byId[d.storeId]).value.device
            && CopyVerifies(sha, r, c, OpenRoot(world, byId[c.storeId]).value)
            && CopyVerifies(sha, r, d, OpenRoot(world, byId[d.storeId]).value)
  {
    hide OpenRoot, CopyVerifies;
    assert forall x :: x in r.copies <==> x == c || x == d;
    assert forall q, x :: Live([r], q, x) <==> q == r && (x == c || x == d);
    assert Live([r], r, c) && Live([r], r, d);
  }

  // ---- fault tolerance ----

  /** Some copy of the record verifies in full on a root that was not lost. */
  ghost predicate Survives(sha: Bytes -> Text, r: Record, byId: map<Text, StoreEntry>, world: World,
                           lost: (StoreEntry, Root) -> bool)
  {
    exists c :: c in r.copies && c.storeId in byId && OpenRoot(world, byId[c.storeId]).Some?
                && !lost(byId[c.storeId], OpenRoot(world, byId[c.storeId]).value)
                && CopyVerifies(sha, r, c, OpenRoot(world, byId[c.storeId]).value)
  }

  lemma AnotherDomain(copies: seq<Copy>, domain: Text) returns (c: Copy)
    requires |DomainsOf(copies)| >= 2
    ensures c in copies && c.failureDomain != domain
  {
    if DomainsOf(copies) <= {domain} {
      SubsetSize(DomainsOf(copies), {domain});
    }
    var d :| d in DomainsOf(copies) && d != domain;
    c :| c in copies && c.failureDomain == d;
  }

  lemma SubsetSize<T>(a: set<T>, b: set<T>)
    requires a <= b
    ensures |a| <= |b|
  {
    if a != {} {
      var x :| x in a;
      SubsetSize(a - {x}, b - {x});
    }
  }

  /** Losing every store of one failure domain leaves a copy that verifies in full. */
  lemma SurvivesDomainLoss(sha: Bytes -> Text, records: seq<Record>, byId: map<Text, StoreEntry>, world: World,
                           r: Record, domain: Text)
    requires TreeOk(records, byId) && Operational(sha, records, byId, world)
    requires r in records && r.availability.VerifiedAvailable?
    ensures Survives(sha, r, byId, world, (s: StoreEntry, root) => s.failureDomain == domain)
  {
    hide CopyVerifies, OpenRoot, Independent, RecordOk;
    VerifiedHasCopies(r);
    var c := AnotherDomain(r.copies, domain);
    assert Live(records, r, c);
  }

  /** Losing one device leaves a copy that verifies in full. */
  lemma SurvivesDeviceLoss(sha: Bytes -> Text, records: seq<Record>, byId: map<Text, StoreEntry>, world: World,
                           r: Record, device: nat)
    requires TreeOk(records, byId) && Operational(sha, records, byId, world)
    requires r in records && r.availability.VerifiedAvailable?
    ensures Survives(sha, r, byId, world, (s, root: Root) => root.device == device)
  {
    hide CopyVerifies, OpenRoot, RecordOk;
    VerifiedHasCopies(r);
    var c, d := r.copies[0], r.copies[1];
    assert Live(records, r, c) && Live(records, r, d);
  }

  lemma VerifiedHasCopies(r: Record)
    requires RecordOk(r) && r.availability.VerifiedAvailable?
    ensures |r.copies| >= 2 && |DomainsOf(r.copies)| >= 2
    ensures r.portable.Some? && DifferentStores(r.copies) && r.copies[0].storeId != r.copies[1].storeId
    ensures forall c :: c in r.copies ==> c.manifestSha256 == r.portable.value
  {
  }

  /** Any two copies agree byte for byte: the manifest, and every object it names. */
  lemma CopiesAgree(sha: Bytes -> Text, records: seq<Record>, byId: map<Text, StoreEntry>, world: World,
                    r: Record, c: Copy, d: Copy)
    requires TreeOk(records, byId) && Operational(sha, records, byId, world)
    requires Live(records, r, c) && Live(records, r, d)
    requires CollisionFree(sha, Strings(OpenRoot(world, byId[c.storeId]).value.contents.Values
                                        + OpenRoot(world, byId[d.storeId]).value.contents.Values))
    ensures var a := OpenRoot(world, byId[c.storeId]).value.contents;
            var b := OpenRoot(world, byId[d.storeId]).value.contents;
            var h := c.manifestSha256;
            && LoadManifest(sha, a, h).Some? && LoadManifest(sha, b, h) == LoadManifest(sha, a, h)
            && a[ManifestName(h)] == b[ManifestName(h)]
            && (forall e :: e in LoadManifest(sha, a, h).value.files ==>
                  && ObjectName(e.sha256) in a && ObjectName(e.sha256) in b
                  && a[ObjectName(e.sha256)] == b[ObjectName(e.sha256)])
  {
    hide OpenRoot, RecordOk, Independent, CheckBytes;
    VerifiedHasCopies(r);
    var a := OpenRoot(world, byId[c.storeId]).value.contents;
    var b := OpenRoot(world, byId[d.storeId]).value.contents;
    var h := c.manifestSha256;
    assert CopyVerifies(sha, r, c, OpenRoot(world, byId[c.storeId]).value);
    assert CopyVerifies(sha, r, d, OpenRoot(world, byId[d.storeId]).value);
    assert a[ManifestName(h)] == b[ManifestName(h)];
    forall e | e in LoadManifest(sha, a, h).value.files
      ensures ObjectName(e.sha256) in a && ObjectName(e.sha256) in b
      ensures a[ObjectName(e.sha256)] == b[ObjectName(e.sha256)]
    {
      assert Stored(sha, a, e) && Stored(sha, b, e);
    }
  }

  /** Time passes: stores may gain files, as every ingest leaves them, but lose and change nothing. */
  ghost predicate Grows(world: World, world': World) {
    && world'.environment == world.environment
    && forall path :: path in world.roots ==>
         && path in world'.roots
         && world'.roots[path].device == world.roots[path].device && world'.roots[path].inode == world.roots[path].inode
         && Ingestion.Extends(world.roots[path].contents, world'.roots[path].contents)
  }

  lemma GrownRoot(world: World, world': World, s: StoreEntry)
    requires Grows(world, world') && OpenRoot(world, s).Some?
    ensures OpenRoot(world', s).Some?
    ensures var (was, now) := (OpenRoot(world, s).value, OpenRoot(world', s).value);
            now.device == was.device && now.inode == was.inode && Ingestion.Extends(was.contents, now.contents)
  {
    hide AllowedRoot;
  }

  /** What the live check established keeps holding while the stores only gain files. */
  lemma OperationalStays(sha: Bytes -> Text, records: seq<Record>, byId: map<Text, StoreEntry>, world: World, world': World)
    requires Operational(sha, records, byId, world) && Grows(world, world')
    ensures Operational(sha, records, byId, world')
  {
    hide OpenRoot, VerifyCopy, Grows, Live, Ingestion.Extends;
    forall r, c | Live(records, r, c)
      ensures c.storeId in byId && Usable(world', byId[c.storeId])
      ensures CopyVerifies(sha, r, c, OpenRoot(world', byId[c.storeId]).value)
    {
      var s := byId[c.storeId];
      GrownRoot(world, world', s);
      Ingestion.VerifyStays(sha, OpenRoot(world, s).value.contents, OpenRoot(world', s).value.contents, c.manifestSha256);
    }
    forall r, c, q, d | Live(records, r, c) && Live(records, q, d) && c.storeId != d.storeId
      ensures Independent(byId[c.storeId], OpenRoot(world', byId[c.storeId]).value,
                          byId[d.storeId], OpenRoot(world', byId[d.storeId]).value)
    {
      GrownRoot(world, world', byId[c.storeId]);
      GrownRoot(world, world', byId[d.storeId]);
    }
  }

  // ---- the check ----

  /** The roots opened so far, in the order of opening. */
  ghost predicate Opened(byId: map<Text, StoreEntry>, world: World, used: map<Text, Root>, order: seq<Text>) {
    && (forall id :: id in used <==> id in order)
    && (forall i, j :: 0 <= i < j < |order| ==> order[i] != order[j])
    && (forall id :: id in used ==> id in byId && OpenRoot(world, byId[id]) == Some(used[id]))
  }

  /** The stores that some verified record has a copy in. */
  function LiveIds(records: seq<Record>): set<Text> {
    set r, c | r in records && r.availability.VerifiedAvailable? && c in r.copies :: c.storeId
  }

  /** The first pass, for one record. */
  method OpenStores(r: Record, byId: map<Text, StoreEntry>, world: World, used: map<Text, Root>, order: seq<Text>)
    returns (ok: bool, used': map<Text, Root>, order': seq<Text>)
    requires CrossChecked(r, byId) && Opened(byId, world, used, order)
    ensures ok <==> forall c :: c in r.copies ==> Usable(world, byId[c.storeId])
    ensures ok ==> Opened(byId, world, used', order') && used'.Keys == used.Keys + StoreIds(r.copies)
  {
    hide OpenRoot;
    used', order' := used, order;
    for i := 0 to |r.copies|
      invariant Opened(byId, world, used', order') && used'.Keys == used.Keys + StoreIds(r.copies[..i])
      invariant forall c :: c in r.copies[..i] ==> Usable(world, byId[c.storeId])
    {
      var c := r.copies[i];
      assert c in r.copies;
      assert forall x :: x in r.copies[..i + 1] <==> x in r.copies[..i] || x == c;
      var store := byId[c.storeId];
      if !store.readEnabled || store.backendKind != FILESYSTEM {
        return false, used', order';
      }
      var root := OpenRoot(world, store);
      if root.None? {
        return false, used', order';
      }
      if c.storeId !in used' {
        used' := used'[c.storeId := root.value];
        order' := order' + [c.storeId];
      }
    }
    assert r.copies[..|r.copies|] == r.copies;
    ok := true;
  }

  predicate IndependentAt(byId: map<Text, StoreEntry>, used: map<Text, Root>, a: Text, b: Text) {
    a in byId && b in byId && a in used && b in used && Independent(byId[a], used[a], byId[b], used[b])
  }

  /** The pairwise comparison of the opened roots. */
  method CheckIndependence(byId: map<Text, StoreEntry>, world: World, used: map<Text, Root>, order: seq<Text>)
    returns (ok: bool)
    requires Opened(byId, world, used, order)
    ensures ok <==> forall i, j :: 0 <= i < j < |order| ==> IndependentAt(byId, used, order[i], order[j])
  {
    hide OpenRoot;
    for i := 0 to |order|
      invariant forall k, j :: 0 <= k < i && k < j < |order| ==> IndependentAt(byId, used, order[k], order[j])
    {
      for j := i + 1 to |order|
        invariant forall k :: i < k < j ==> IndependentAt(byId, used, order[i], order[k])
      {
        var left, right := order[i], order[j];
        assert left in used && right in used;
        if byId[left].rootVariable == byId[right].rootVariable {
          return false;
        }
        if (used[left].device, used[left].inode) == (used[right].device, used[right].inode) {
          return false;
        }
        if used[left].device == used[right].device {
          return false;
        }
      }
    }
    return true;
  }

  /** The last pass, for one record. */
  method VerifyRecord(sha: Bytes -> Text, r: Record, used: map<Text, Root>) returns (ok: bool)
    requires StoreIds(r.copies) <= used.Keys
    ensures ok <==> forall c :: c in r.copies ==> CopyVerifies(sha, r, c, used[c.storeId])
  {
    hide VerifyCopy;
    for i := 0 to |r.copies|
      invariant forall c :: c in r.copies[..i] ==> CopyVerifies(sha, r, c, used[c.storeId])
    {
      var c := r.copies[i];
      assert c in r.copies;
      var report := VerifyCopy(sha, used[c.storeId].contents, c.manifestSha256);
      if report.None? || report.value.artifactId != r.artifactId
         || report.value.verifiedObjectCount != c.verifiedObjectCount {
        return false;
      }
      assert forall x :: x in r.copies[..i + 1] <==> x in r.copies[..i] || x == c;
    }
    assert r.copies[..|r.copies|] == r.copies;
    return true;
  }

  lemma LiveStep(records: seq<Record>, i: nat)
    requires i < |records|
    ensures LiveIds(records[..i + 1]) == LiveIds(records[..i]) +
              if records[i].availability.VerifiedAvailable? then StoreIds(records[i].copies) else {}
    ensures forall r, c :: Live(records[..i + 1], r, c) <==>
                             Live(records[..i], r, c)
                             || (r == records[i] && r.availability.VerifiedAvailable? && c in r.copies)
  {
    assert forall r :: r in records[..i + 1] <==> r in records[..i] || r == records[i];
  }

  lemma LiveCopyOf(records: seq<Record>, id: Text) returns (r: Record, c: Copy)
    requires id in LiveIds(records)
    ensures Live(records, r, c) && c.storeId == id
  {
    r, c :| r in records && r.availability.VerifiedAvailable? && c in r.copies && c.storeId == id;
  }

  lemma LiveOpened(records: seq<Record>, byId: map<Text, StoreEntry>, world: World, used: map<Text, Root>,
                   order: seq<Text>, r: Record, c: Copy)
    requires Opened(byId, world, used, order) && used.Keys == LiveIds(records) && Live(records, r, c)
    ensures c.storeId in used && c.storeId in order && c.storeId in byId
    ensures OpenRoot(world, byId[c.storeId]) == Some(used[c.storeId])
  {
    assert c.storeId in LiveIds(records);
  }

  /** Comparing the opened roots pair by pair is comparing the stores of any two live copies. */
  lemma PairwiseIff(records: seq<Record>, byId: map<Text, StoreEntry>, world: World,
                    used: map<Text, Root>, order: seq<Text>)
    requires Opened(byId, world, used, order) && used.Keys == LiveIds(records)
    ensures (forall i, j :: 0 <= i < j < |order| ==> IndependentAt(byId, used, order[i], order[j]))
            <==>
            (forall r, c, q, d :: Live(records, r, c) && Live(records, q, d) && c.storeId != d.storeId ==>
               IndependentAt(byId, used, c.storeId, d.storeId))
  {
    hide OpenRoot, LiveIds, Live;
    if forall i, j :: 0 <= i < j < |order| ==> IndependentAt(byId, used, order[i], order[j]) {
      forall r, c, q, d | Live(records, r, c) && Live(records, q, d) && c.storeId != d.storeId
        ensures IndependentAt(byId, used, c.storeId, d.storeId)
      {
        LiveOpened(records, byId, world, used, order, r, c);
        LiveOpened(records, byId, world, used, order, q, d);
        var i :| 0 <= i < |order| && order[i] == c.storeId;
        var j :| 0 <= j < |order| && order[j] == d.storeId;
        assert i < j || j < i;
      }
    }
    if forall r, c, q, d :: Live(records, r, c) && Live(records, q, d) && c.storeId != d.storeId ==>
         IndependentAt(byId, used, c.storeId, d.storeId)
    {
      forall i, j | 0 <= i < j < |order|
        ensures IndependentAt(byId, used, order[i], order[j])
      {
        assert order[i] in used && order[j] in used;
        var r, c := LiveCopyOf(records, order[i]);
        var q, d := LiveCopyOf(records, order[j]);
      }
    }
  }

  /** `validate_operational_registry` */
  method ValidateOperationalRegistry(sha: Bytes -> Text, records: seq<Record>, stores: seq<StoreEntry>, world: World)
    returns (ok: bool)
    requires TreeOk(records, StoresById(stores))
    ensures ok <==> Operational(sha, records, StoresById(stores), world)
  {
    var byId := StoresById(stores);
    hide OpenRoot, RecordOk, Opened, CopyVerifies, StoreIds, LiveIds, Independent;
    var used: map<Text, Root>, order: seq<Text> := map[], [];
    NothingOpened(records, byId, world);
    for i := 0 to |records|
      invariant Opened(byId, world, used, order) && used.Keys == LiveIds(records[..i])
      invariant forall r, c :: Live(records[..i], r, c) ==> c.storeId in byId && Usable(world, byId[c.storeId])
    {
      var r := records[i];
      assert r in records && CrossChecked(r, byId);
      LiveStep(records, i);
      if r.availability.VerifiedAvailable? {
        var usable;
        usable, used, order := OpenStores(r, byId, world, used, order);
        if !usable {
          ghost var c :| c in r.copies && !Usable(world, byId[c.storeId]);
          assert Live(records, r, c);
          return false;
        }
      }
    }
    assert records[..|records|] == records;
    PairwiseIff(records, byId, world, used, order);
    forall r, c | Live(records, r, c)
      ensures c.storeId in used && OpenRoot(world, byId[c.storeId]) == Some(used[c.storeId])
    {
      LiveOpened(records, byId, world, used, order, r, c);
    }
    var independent := CheckIndependence(byId, world, used, order);
    if !independent {
      return false;
    }
    for i := 0 to |records|
      invariant forall r, c :: Live(records[..i], r, c) ==> c.storeId in used && CopyVerifies(sha, r, c, used[c.storeId])
    {
      var r := records[i];
      LiveStep(records, i);
      if r.availability.VerifiedAvailable? {
        CopiesOpened(records, r, used);
        var verified := VerifyRecord(sha, r, used);
        if !verified {
          ghost var c :| c in r.copies && !CopyVerifies(sha, r, c, used[c.storeId]);
          assert Live(records, r, c);
          return false;
        }
      }
    }
    assert records[..|records|] == records;
    return true;
  }

  lemma NothingOpened(records: seq<Record>, byId: map<Text, StoreEntry>, world: World)
    ensures Opened(byId, world, map[], []) && LiveIds(records[..0]) == {}
  {
  }

  lemma CopiesOpened(records: seq<Record>, r: Record, used: map<Text, Root>)
    requires used.Keys == LiveIds(records) && r in records && r.availability.VerifiedAvailable?
    ensures StoreIds(r.copies) <= used.Keys && forall c :: c in r.copies ==> c.storeId in used
  {
    forall c | c in r.copies
      ensures c.storeId in used
    {
      assert c.storeId in LiveIds(records);
    }
  }
}
