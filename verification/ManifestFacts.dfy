/** Manifest records, their JSON documents and their canonical bytes determine each other. */
module ManifestFacts {
  import opened Wrappers
  import opened Texts
  import opened JsonStrings
  import opened Json
  import opened JsonRoundTrip
  import opened Utf8
  import opened Manifest

  // ---- the documents are canonical ----

  lemma {:induction false} LessAt(a: Text, b: Text, k: nat)
    requires k < |b| && k <= |a| && a[..k] == b[..k]
    requires k == |a| || a[k] < b[k]
    ensures Less(a, b)
  {
    if k > 0 {
      assert a[0] == a[..k][0] && b[0] == b[..k][0];
      assert a[1..][..k - 1] == a[..k][1..] && b[1..][..k - 1] == b[..k][1..];
      LessAt(a[1..], b[1..], k - 1);
    }
  }

  lemma {:induction false} SortedFromNeighbours(ms: seq<Member>)
    requires forall i :: 0 < i < |ms| ==> Less(ms[i - 1].key, ms[i].key)
    ensures SortedKeys(ms)
  {
    if |ms| > 1 {
      var last := |ms| - 1;
      SortedFromNeighbours(ms[..last]);
      forall i | 0 <= i < last
        ensures Less(ms[i].key, ms[last].key)
      {
        if i < last - 1 {
          assert Less(ms[..last][i].key, ms[..last][last - 1].key);
          LessTransitive(ms[i].key, ms[last - 1].key, ms[last].key);
        }
      }
    }
  }

  lemma EntryKeysAscend()
    ensures Less(RELATIVE_PATH, ROLE) && Less(ROLE, SHA256) && Less(SHA256, SIZE_BYTES)
  {
    LessAt(RELATIVE_PATH, ROLE, 1);
    LessAt(ROLE, SHA256, 0);
    LessAt(SHA256, SIZE_BYTES, 1);
  }

  lemma ManifestKeysAscend()
    ensures Less(ARTIFACT_ID, KIND_KEY) && Less(KIND_KEY, FILE_COUNT) && Less(FILE_COUNT, FILES)
    ensures Less(FILES, SCHEMA_VERSION) && Less(SCHEMA_VERSION, TOTAL_SIZE)
  {
    LessAt(ARTIFACT_ID, KIND_KEY, 9);
    LessAt(KIND_KEY, FILE_COUNT, 0);
    LessAt(FILE_COUNT, FILES, 4);
    LessAt(FILES, SCHEMA_VERSION, 0);
    LessAt(SCHEMA_VERSION, TOTAL_SIZE, 0);
  }

  lemma EntryJsonCanonical(e: FileEntry)
    ensures Canonical(EntryJson(e))
  {
    EntryKeysAscend();
    SortedFromNeighbours(EntryJson(e).members);
  }

  lemma ManifestJsonCanonical(m: Manifest)
    ensures Canonical(ManifestJson(m))
  {
    ManifestKeysAscend();
    SortedFromNeighbours(ManifestJson(m).members);
    forall w | w in EntriesJson(m.files)
      ensures Canonical(w)
    {
      var i :| 0 <= i < |m.files| && EntriesJson(m.files)[i] == w;
      EntryJsonCanonical(m.files[i]);
    }
    assert Canonical(Arr(EntriesJson(m.files)));
  }

  lemma {:induction false} SplitPlain(t: Text)
    requires forall s :: s in Split(t) ==> Ascii(s)
    ensures Ascii(t)
  {
    if t != [] {
      var rest := Split(t[1..]);
      var head := Split(t)[0];
      forall s | s in rest
        ensures Ascii(s)
      {
        if t[0] == SLASH {
          assert s in Split(t);
        } else if s in rest[1..] {
          assert s in Split(t);
        } else {
          assert s == rest[0] && head == [t[0]] + s && head in Split(t);
          assert s == head[1..];
        }
      }
      SplitPlain(t[1..]);
      if t[0] != SLASH {
        assert head == [t[0]] + rest[0] && head in Split(t);
        assert head[0] == t[0];
      }
    }
  }

  lemma EntryJsonSpellable(e: FileEntry)
    requires ValidEntry(e)
    ensures Spellable(EntryJson(e))
  {
    SplitPlain(e.relativePath);
    assert Ascii(e.role) && Ascii(e.sha256);
    LitSpellable("relative_path");
    LitSpellable("role");
    LitSpellable("sha256");
    LitSpellable("size_bytes");
  }

  lemma EntriesJsonSpellable(files: seq<FileEntry>)
    requires forall e :: e in files ==> ValidEntry(e)
    ensures Spellable(Arr(EntriesJson(files)))
  {
    forall w | w in EntriesJson(files)
      ensures Spellable(w)
    {
      var i :| 0 <= i < |files| && EntriesJson(files)[i] == w;
      EntryJsonSpellable(files[i]);
    }
  }

  /** A literal holds scalars only. */
  lemma LitSpellable(s: string)
    ensures NoSplitPair(Lit(s))
  {
    assert forall i :: 0 <= i < |s| ==> !High(Lit(s)[i]) && !Low(Lit(s)[i]);
  }

  lemma FixedTextSpellable()
    ensures NoSplitPair(ARTIFACT_ID) && NoSplitPair(KIND_KEY) && NoSplitPair(FILE_COUNT) && NoSplitPair(FILES)
    ensures NoSplitPair(SCHEMA_VERSION) && NoSplitPair(TOTAL_SIZE)
    ensures NoSplitPair(ARTIFACT_MANIFEST_KIND) && NoSplitPair(MANIFEST_SCHEMA_VERSION)
  {
    hide NoSplitPair, Lit;
    LitSpellable("artifact_id");
    LitSpellable("artifact_manifest_kind");
    LitSpellable("file_count");
    LitSpellable("files");
    LitSpellable("schema_version");
    LitSpellable("total_size_bytes");
    LitSpellable("qnty_portable_artifact_manifest");
    LitSpellable("1.0.0");
  }

  lemma ManifestJsonSpellable(m: Manifest)
    requires ValidManifest(m)
    ensures Spellable(ManifestJson(m))
  {
    EntriesJsonSpellable(m.files);
    FixedTextSpellable();
    assert Ascii(m.artifactId);
    hide NoSplitPair, Lit, EntriesJson;
    var ms := ManifestJson(m).members;
    forall x | x in ms
      ensures NoSplitPair(x.key) && Spellable(x.value)
    {
      assert x == ms[0] || x == ms[1] || x == ms[2] || x == ms[3] || x == ms[4] || x == ms[5];
    }
  }

  // ---- reading a record from its document, and nothing else ----

  lemma ReadEntryIff(v: Json, e: FileEntry)
    ensures ReadEntry(v) == Some(e) <==> v == EntryJson(e)
  {
    if ReadEntry(v) == Some(e) {
      var f := v.members;
      var k := KeysOf(f);
      assert |k| == |f|;
      assert k[0] == f[0].key && k[1] == f[1].key && k[2] == f[2].key && k[3] == f[3].key;
      assert f == EntryJson(e).members;
    }
    if v == EntryJson(e) {
      assert KeysOf(v.members) == [RELATIVE_PATH, ROLE, SHA256, SIZE_BYTES];
    }
  }

  lemma {:induction false} ReadEntriesIff(items: seq<Json>, files: seq<FileEntry>)
    ensures ReadEntries(items) == Some(files) <==> items == EntriesJson(files)
  {
    if items != [] {
      var n := |items| - 1;
      if |files| == |items| {
        ReadEntriesIff(items[..n], files[..n]);
        ReadEntryIff(items[n], files[n]);
        assert files == files[..n] + [files[n]] && items == items[..n] + [items[n]];
        assert EntriesJson(files) == EntriesJson(files[..n]) + [EntryJson(files[n])];
      }
    } else {
      assert files == [] ==> EntriesJson(files) == [];
    }
  }

  lemma ReadManifestIff(v: Json, m: Manifest)
    ensures ReadManifest(v) == Some(m) <==> v == ManifestJson(m)
  {
    if ReadManifest(v) == Some(m) {
      var f := v.members;
      var k := KeysOf(f);
      assert |k| == |f|;
      assert k[0] == f[0].key && k[1] == f[1].key && k[2] == f[2].key;
      assert k[3] == f[3].key && k[4] == f[4].key && k[5] == f[5].key;
      ReadEntriesIff(f[3].value.items, m.files);
      assert f == ManifestJson(m).members;
    }
    if v == ManifestJson(m) {
      assert KeysOf(v.members) == [ARTIFACT_ID, KIND_KEY, FILE_COUNT, FILES, SCHEMA_VERSION, TOTAL_SIZE];
      ReadEntriesIff(EntriesJson(m.files), m.files);
    }
  }

  lemma ManifestBytesLoad(m: Manifest)
    requires ValidManifest(m)
    ensures LoadCanonical(ManifestBytes(m)) == Some(ManifestJson(m))
  {
    ManifestJsonCanonical(m);
    ManifestJsonSpellable(m);
    LoadCanonicalIff(ManifestBytes(m), ManifestJson(m));
  }

  /** `validate_manifest_bytes` accepts exactly the canonical bytes of a valid manifest, and returns it. */
  lemma CheckBytesIff(data: Bytes, m: Manifest)
    ensures CheckBytes(data) == Some(m) <==> ValidManifest(m) && data == ManifestBytes(m)
  {
    hide ManifestJson, ReadManifest, ValidManifest, Decode, Loads, Dumps;
    if CheckBytes(data) == Some(m) {
      ReadManifestIff(Loads(Decode(data).value).value, m);
    }
    if ValidManifest(m) && data == ManifestBytes(m) {
      ManifestBytesLoad(m);
      ReadManifestIff(ManifestJson(m), m);
      var bytes := ManifestBytes(m);
      var last: Printable := bytes[|bytes| - 1];
      assert data[|data| - 1] == last;
    }
  }

  /** Different valid manifests have different canonical bytes. */
  lemma ManifestBytesInjective(m: Manifest, n: Manifest)
    requires ValidManifest(m) && ValidManifest(n) && ManifestBytes(m) == ManifestBytes(n)
    ensures m == n
  {
    CheckBytesIff(ManifestBytes(m), m);
    CheckBytesIff(ManifestBytes(m), n);
  }
}
