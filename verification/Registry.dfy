/** The artifact registry: what a record must show before it may claim VERIFIED_AVAILABLE, and the live check
    of that claim. */
module Registry {
  import opened Wrappers
  import opened Texts
  import opened FileSystem
  import opened Manifest
  import opened Trees
  import opened StoreChecks

  datatype Copy = Copy(canonicalLocation: Text, failureDomain: Text, manifestSha256: Text,
                       objectsPassed: bool, verifiedObjectCount: int,
                       restorePassed: bool, restoredManifestSha256: Text, storeId: Text)

  datatype Availability = Unavailable | VerifiedAvailable

  datatype Record = Record(artifactId: Text, availability: Availability, copies: seq<Copy>, portable: Option<Text>)

  datatype StoreEntry = StoreEntry(storeId: Text, backendKind: Text, failureDomain: Text,
                                   readEnabled: bool, rootVariable: Text)

  // ---- canonical locations ----

  /** `[a-z0-9][a-z0-9-]{0,63}` */
  predicate IsStoreId(t: Text) {
    && 1 <= |t| <= 64
    && LowerOrDigit(t[0])
    && forall i :: 0 <= i < |t| ==> LowerOrDigit(t[i]) || t[i] == 45
  }

  const SCHEME := Lit("qnty-artifact://")
  const SHA256_SEGMENT := Lit("sha256")

  function CanonicalLocation(storeId: Text, h: Text): Text {
    SCHEME + Join([storeId, SHA256_SEGMENT, h])
  }

  /** The two groups of the location pattern. */
  function ParseLocation(t: Text): Option<(Text, Text)> {
    if !(SCHEME <= t) then None
    else
      var parts := Split(t[|SCHEME|..]);
      if |parts| == 3 && IsStoreId(parts[0]) && parts[1] == SHA256_SEGMENT && IsDigest(parts[2]) then
        Some((parts[0], parts[2]))
      else None
  }

  /** A location is a location of one store and one manifest, and of no other. */
  lemma LocationRoundTrip(t: Text, storeId: Text, h: Text)
    ensures ParseLocation(t) == Some((storeId, h)) <==>
            IsStoreId(storeId) && IsDigest(h) && t == CanonicalLocation(storeId, h)
  {
    if SCHEME <= t {
      JoinSplit(t[|SCHEME|..]);
      assert t == SCHEME + t[|SCHEME|..];
    }
    if ParseLocation(t) == Some((storeId, h)) {
      assert Split(t[|SCHEME|..]) == [storeId, SHA256_SEGMENT, h];
    }
    if IsStoreId(storeId) && IsDigest(h) && t == CanonicalLocation(storeId, h) {
      assert t[|SCHEME|..] == Join([storeId, SHA256_SEGMENT, h]);
      NoSlash(storeId, h);
      SplitJoin([storeId, SHA256_SEGMENT, h]);
    }
  }

  lemma NoSlash(storeId: Text, h: Text)
    requires IsStoreId(storeId) && IsDigest(h)
    ensures SLASH !in storeId && SLASH !in h && SLASH !in SHA256_SEGMENT
  {
    forall i | 0 <= i < |SHA256_SEGMENT|
      ensures SHA256_SEGMENT[i] != SLASH
    {
    }
  }

  // ---- one record ----

  /** `_validate_copy` */
  predicate CopyOk(c: Copy, portable: Text) {
    && IsStoreId(c.storeId) && IsArtifactId(c.failureDomain) && IsDigest(c.manifestSha256)
    && c.manifestSha256 == portable
    && ParseLocation(c.canonicalLocation) == Some((c.storeId, c.manifestSha256))
    && c.objectsPassed && c.verifiedObjectCount >= 1
    && c.restorePassed && c.restoredManifestSha256 == portable
  }

  /** The copy of a manifest in a store, with its evidence. */
  function CopyOf(storeId: Text, domain: Text, h: Text, objects: int): Copy {
    Copy(CanonicalLocation(storeId, h), domain, h, true, objects, true, h, storeId)
  }

  /** An accepted copy lies at the one location of its store and manifest, with all objects verified and the restored
      manifest the recorded one. */
  lemma CopyOkIff(c: Copy, portable: Text)
    ensures CopyOk(c, portable) <==>
            && IsStoreId(c.storeId) && IsArtifactId(c.failureDomain) && IsDigest(portable) && c.verifiedObjectCount >= 1
            && c == CopyOf(c.storeId, c.failureDomain, portable, c.verifiedObjectCount)
  {
    LocationRoundTrip(c.canonicalLocation, c.storeId, c.manifestSha256);
    hide IsStoreId, IsArtifactId, IsDigest, ParseLocation, CanonicalLocation;
  }

  function StoreIds(copies: seq<Copy>): set<Text> {
    set c | c in copies :: c.storeId
  }

  function Locations(copies: seq<Copy>): set<Text> {
    set c | c in copies :: c.canonicalLocation
  }

  function DomainsOf(copies: seq<Copy>): set<Text> {
    set c | c in copies :: c.failureDomain
  }

  predicate DifferentStores(copies: seq<Copy>) {
    forall i, j :: 0 <= i < j < |copies| ==> copies[i].storeId != copies[j].storeId
  }

  predicate CopiesOk(copies: seq<Copy>, portable: Text) {
    DifferentStores(copies) && forall c :: c in copies ==> CopyOk(c, portable)
  }

  /** What an accepted record evidences. */
  predicate RecordOk(r: Record) {
    && IsArtifactId(r.artifactId)
    && (r.portable.Some? ==> IsDigest(r.portable.value))
    && (r.copies != [] ==> r.portable.Some? && CopiesOk(r.copies, r.portable.value))
    && (r.availability.Unavailable? ==> r.copies == [])
    && (r.availability.VerifiedAvailable? ==> |r.copies| >= 2 && |DomainsOf(r.copies)| >= 2)
  }

  /** Two copies in two stores make a verified record exactly when they lie in two failure domains. */
  lemma TwoCopiesIff(artifactId: Text, s: Text, t: Text, d: Text, e: Text, h: Text, m: int, n: int)
    requires IsArtifactId(artifactId) && IsDigest(h) && m >= 1 && n >= 1
    requires IsStoreId(s) && IsStoreId(t) && s != t && IsArtifactId(d) && IsArtifactId(e)
    ensures RecordOk(Record(artifactId, VerifiedAvailable, [CopyOf(s, d, h, m), CopyOf(t, e, h, n)], Some(h))) <==> d != e
  {
    var c, k := CopyOf(s, d, h, m), CopyOf(t, e, h, n);
    CopyOkIff(c, h);
    CopyOkIff(k, h);
    hide IsStoreId, IsArtifactId, IsDigest, CopyOk;
    var copies := [c, k];
    assert copies[0] in copies && copies[1] in copies;
    assert DomainsOf(copies) == {d, e};
    if d == e {
      assert {d, e} == {d};
    } else {
      assert |{d, e}| == 2;
    }
  }

  lemma CopyStep(copies: seq<Copy>, portable: Text, i: nat)
    requires i < |copies| && CopiesOk(copies[..i], portable)
    ensures CopiesOk(copies[..i + 1], portable) <==>
            CopyOk(copies[i], portable) && copies[i].storeId !in StoreIds(copies[..i])
    ensures StoreIds(copies[..i + 1]) == StoreIds(copies[..i]) + {copies[i].storeId}
    ensures Locations(copies[..i + 1]) == Locations(copies[..i]) + {copies[i].canonicalLocation}
    ensures DomainsOf(copies[..i + 1]) == DomainsOf(copies[..i]) + {copies[i].failureDomain}
  {
    hide CopyOk;
    var more := copies[..i + 1];
    assert forall c :: c in more <==> c in copies[..i] || c == copies[i];
    if copies[i].storeId in StoreIds(copies[..i]) {
      var c :| c in copies[..i] && c.storeId == copies[i].storeId;
      var j :| 0 <= j < i && copies[..i][j] == c;
      assert more[j].storeId == more[i].storeId;
    } else {
      assert forall j :: 0 <= j < i ==> copies[..i][j] in copies[..i];
    }
  }

  lemma CopiesPrefix(copies: seq<Copy>, portable: Text, i: nat)
    requires i <= |copies| && !CopiesOk(copies[..i], portable)
    ensures !CopiesOk(copies, portable)
  {
    hide CopyOk;
    assert forall c :: c in copies[..i] ==> c in copies;
  }

  /** Copies in different stores always have different locations: the second duplicate check never fires. */
  lemma LocationFollowsStore(copies: seq<Copy>, portable: Text, c: Copy)
    requires CopiesOk(copies, portable) && CopyOk(c, portable) && c.storeId !in StoreIds(copies)
    ensures c.canonicalLocation !in Locations(copies)
  {
    hide ParseLocation, IsStoreId, IsDigest, IsArtifactId;
    forall d | d in copies
      ensures d.canonicalLocation != c.canonicalLocation
    {
      assert CopyOk(d, portable) && d.storeId in StoreIds(copies);
    }
  }

  /** `validate_artifact_record_bytes` on the parsed record. */
  method ValidateArtifactRecord(r: Record) returns (ok: bool)
    ensures ok <==> RecordOk(r)
  {
    hide IsArtifactId, IsDigest, CopyOk, CopiesOk, StoreIds, Locations, DomainsOf;
    if !IsArtifactId(r.artifactId) || (r.portable.Some? && !IsDigest(r.portable.value)) {
      return false;
    }
    if r.copies != [] && r.portable.None? {
      return false;
    }
    var portable := if r.portable.Some? then r.portable.value else [];
    var seenStoreIds: set<Text>, seenLocations: set<Text>, failureDomains: set<Text> := {}, {}, {};
    NoCopies(r.copies, portable);
    for i := 0 to |r.copies|
      invariant CopiesOk(r.copies[..i], portable)
      invariant seenStoreIds == StoreIds(r.copies[..i])
      invariant seenLocations == Locations(r.copies[..i])
      invariant failureDomains == DomainsOf(r.copies[..i])
    {
      var c := r.copies[i];
      CopyStep(r.copies, portable, i);
      if !CopiesOk(r.copies[..i + 1], portable) {
        CopiesPrefix(r.copies, portable, i + 1);
      } else {
        LocationFollowsStore(r.copies[..i], portable, c);
      }
      if !CopyOk(c, portable) || c.storeId in seenStoreIds {
        return false;
      }
      seenStoreIds := seenStoreIds + {c.storeId};
      if c.canonicalLocation in seenLocations {
        return false;
      }
      seenLocations := seenLocations + {c.canonicalLocation};
      failureDomains := failureDomains + {c.failureDomain};
    }
    assert r.copies[..|r.copies|] == r.copies;
    if r.availability.Unavailable? {
      return r.copies == [];
    }
    return r.portable.Some? && |r.copies| >= 2 && |failureDomains| >= 2;
  }

  lemma NoCopies(copies: seq<Copy>, portable: Text)
    ensures CopiesOk(copies[..0], portable) && StoreIds(copies[..0]) == {}
    ensures Locations(copies[..0]) == {} && DomainsOf(copies[..0]) == {}
  {
  }

  // ---- the store registry ----

  predicate StoresOk(stores: seq<StoreEntry>) {
    forall i, j :: 0 <= i < j < |stores| ==>
      stores[i].storeId != stores[j].storeId && stores[i].rootVariable != stores[j].rootVariable
  }

  function StoresById(stores: seq<StoreEntry>): map<Text, StoreEntry> {
    if stores == [] then map[]
    else StoresById(stores[..|stores| - 1])[stores[|stores| - 1].storeId := stores[|stores| - 1]]
  }

  /** In an accepted store registry every store is found under its own id, and nothing else is. */
  lemma {:induction false} StoresByIdIff(stores: seq<StoreEntry>, id: Text, s: StoreEntry)
    requires StoresOk(stores)
    ensures id in StoresById(stores) && StoresById(stores)[id] == s <==> s in stores && s.storeId == id
  {
    if stores != [] {
      var n := |stores| - 1;
      StoresByIdIff(stores[..n], id, s);
      assert s in stores <==> s in stores[..n] || s == stores[n];
      if s in stores[..n] {
        var i :| 0 <= i < n && stores[i] == s;
      }
    }
  }

  function Ids(stores: seq<StoreEntry>): set<Text> {
    set s | s in stores :: s.storeId
  }

  function Variables(stores: seq<StoreEntry>): set<Text> {
    set s | s in stores :: s.rootVariable
  }

  lemma StoreStep(stores: seq<StoreEntry>, i: nat)
    requires i < |stores| && StoresOk(stores[..i])
    ensures StoresOk(stores[..i + 1]) <==>
            stores[i].storeId !in Ids(stores[..i]) && stores[i].rootVariable !in Variables(stores[..i])
    ensures Ids(stores[..i + 1]) == Ids(stores[..i]) + {stores[i].storeId}
    ensures Variables(stores[..i + 1]) == Variables(stores[..i]) + {stores[i].rootVariable}
  {
    var more := stores[..i + 1];
    assert forall s :: s in more <==> s in stores[..i] || s == stores[i];
    assert forall j :: 0 <= j < i ==> stores[..i][j] == more[j];
    if StoresOk(more) {
      forall s | s in stores[..i]
        ensures s.storeId != stores[i].storeId && s.rootVariable != stores[i].rootVariable
      {
        var j :| 0 <= j < i && more[j] == s;
        assert more[i] == stores[i];
      }
    } else {
      var j, k :| 0 <= j < k < |more|
                  && (more[j].storeId == more[k].storeId || more[j].rootVariable == more[k].rootVariable);
      assert k == i && more[j] in stores[..i];
    }
  }

  method ValidateStoreRegistry(stores: seq<StoreEntry>) returns (ok: bool)
    ensures ok <==> StoresOk(stores)
  {
    hide Ids, Variables;
    var seenIds: set<Text>, seenVariables: set<Text> := {}, {};
    NoStores(stores);
    for i := 0 to |stores|
      invariant StoresOk(stores[..i])
      invariant seenIds == Ids(stores[..i]) && seenVariables == Variables(stores[..i])
    {
      StoreStep(stores, i);
      if stores[i].storeId in seenIds {
        return false;
      }
      seenIds := seenIds + {stores[i].storeId};
      if stores[i].rootVariable in seenVariables {
        return false;
      }
      seenVariables := seenVariables + {stores[i].rootVariable};
    }
    assert stores[..|stores|] == stores;
    return true;
  }

  lemma NoStores(stores: seq<StoreEntry>)
    ensures Ids(stores[..0]) == {} && Variables(stores[..0]) == {}
  {
  }

  /** `_cross_check_copies_against_stores` */
  predicate CrossChecked(r: Record, byId: map<Text, StoreEntry>) {
    forall c :: c in r.copies ==> c.storeId in byId && byId[c.storeId].failureDomain == c.failureDomain
  }
}
