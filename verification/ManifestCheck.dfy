/** `validate_manifest_object`: one pass over the entries decides exactly the validity of the manifest. */
module ManifestCheck {
  import opened Wrappers
  import opened Texts
  import opened Json
  import opened Manifest

  lemma {:induction false} ReadEntriesAt(items: seq<Json>, files: seq<FileEntry>, i: nat)
    requires ReadEntries(items) == Some(files) && i < |items|
    ensures ReadEntry(items[i]) == Some(files[i]) && ReadEntries(items[..i]) == Some(files[..i])
  {
    var n := |items| - 1;
    if i < n {
      ReadEntriesAt(items[..n], files[..n], i);
      assert items[..n][..i] == items[..i] && files[..n][..i] == files[..i];
    } else {
      assert files == files[..n] + [files[n]];
    }
  }

  ghost predicate GoodFiles(files: seq<FileEntry>) {
    (forall e :: e in files ==> ValidEntry(e)) && Ordered(files) && CaseDistinct(files)
  }

  function FoldedKeys(files: seq<FileEntry>): set<(Text, Text)> {
    set e | e in files :: FoldedKey(e)
  }

  lemma GoodPrefix(files: seq<FileEntry>, i: nat)
    requires GoodFiles(files) && i < |files|
    ensures GoodFiles(files[..i]) && ValidEntry(files[i])
    ensures i > 0 ==> KeyLess(files[i - 1], files[i])
    ensures FoldedKey(files[i]) !in FoldedKeys(files[..i])
  {
    assert forall e :: e in files[..i] ==> e in files;
  }

  lemma GoodStep(files: seq<FileEntry>, e: FileEntry)
    requires GoodFiles(files) && ValidEntry(e)
    requires files != [] ==> KeyLess(files[|files| - 1], e)
    requires FoldedKey(e) !in FoldedKeys(files)
    ensures GoodFiles(files + [e])
  {
    forall i | 0 <= i < |files|
      ensures KeyLess(files[i], e)
    {
      if i < |files| - 1 {
        KeyLessTransitive(files[i], files[|files| - 1], e);
      }
    }
  }

  /** What is checked before the entries. */
  predicate Header(v: Json) {
    && HasExactKeys(v, [ARTIFACT_ID, KIND_KEY, FILE_COUNT, FILES, SCHEMA_VERSION, TOTAL_SIZE])
    && var f := v.members;
       assert |f| == |KeysOf(f)|;
       && f[1].value == Str(ARTIFACT_MANIFEST_KIND) && f[4].value == Str(MANIFEST_SCHEMA_VERSION)
       && f[0].value.Str? && IsArtifactId(f[0].value.s) && f[3].value.Arr? && f[3].value.items != []
  }

  function Items(v: Json): seq<Json>
    requires Header(v)
  {
    assert |v.members| == |KeysOf(v.members)|;
    v.members[3].value.items
  }

  function ArtifactIdOf(v: Json): Text
    requires Header(v)
  {
    assert |v.members| == |KeysOf(v.members)|;
    v.members[0].value.s
  }

  predicate Totals(v: Json, count: int, total: int)
    requires Header(v)
  {
    assert |v.members| == |KeysOf(v.members)|;
    v.members[2].value == Int(count) && v.members[5].value == Int(total)
  }

  /** An accepted document passes every check of the loop. */
  lemma AcceptedEntries(v: Json, i: nat)
    requires CheckObject(v).Some?
    ensures Header(v)
    ensures var files := CheckObject(v).value.files;
            && |files| == |Items(v)|
            && Totals(v, |files|, TotalSize(files))
            && ReadEntries(Items(v)) == Some(files)
            && (i < |files| ==>
                  && ReadEntry(Items(v)[i]) == Some(files[i]) && ReadEntries(Items(v)[..i]) == Some(files[..i])
                  && ValidEntry(files[i])
                  && (i > 0 ==> KeyLess(files[i - 1], files[i]))
                  && FoldedKey(files[i]) !in FoldedKeys(files[..i]))
  {
    hide ReadEntry, ValidEntry, FoldedKey, KeyLess;
    var files := CheckObject(v).value.files;
    if i < |files| {
      ReadEntriesAt(Items(v), files, i);
      GoodPrefix(files, i);
    }
  }

  /** A document that passes every check is accepted. */
  lemma AllChecksPassed(v: Json, files: seq<FileEntry>)
    requires Header(v) && ReadEntries(Items(v)) == Some(files) && GoodFiles(files)
    requires Totals(v, |files|, TotalSize(files))
    ensures CheckObject(v) == Some(Manifest(ArtifactIdOf(v), |files|, files, TotalSize(files)))
  {
    hide ReadEntry, ValidEntry, FoldedKey;
    assert |v.members| == |KeysOf(v.members)|;
  }

  lemma NothingRead(items: seq<Json>)
    ensures GoodFiles([]) && ReadEntries(items[..0]) == Some([])
    ensures TotalSize([]) == 0 && FoldedKeys([]) == {}
  {
  }

  lemma EntryRead(items: seq<Json>, files: seq<FileEntry>, e: FileEntry, i: nat)
    requires i < |items| && ReadEntries(items[..i]) == Some(files) && ReadEntry(items[i]) == Some(e)
    ensures ReadEntries(items[..i + 1]) == Some(files + [e])
    ensures TotalSize(files + [e]) == TotalSize(files) + e.sizeBytes
    ensures FoldedKeys(files + [e]) == FoldedKeys(files) + {FoldedKey(e)}
  {
    assert items[..i + 1][..i] == items[..i] && (files + [e])[..|files|] == files;
    assert forall x :: x in files + [e] <==> x in files || x == e;
  }

  method ValidateManifestObject(v: Json) returns (r: Option<Manifest>)
    ensures r == CheckObject(v)
  {
    hide ValidEntry, ReadEntry, FoldedKey, KeyLess, GoodFiles, CheckObject, Header, Items, Totals, ReadEntries, TotalSize;
    if CheckObject(v).Some? {
      AcceptedEntries(v, 0);
    }
    if !Header(v) {
      return None;
    }
    var items := Items(v);
    var files: seq<FileEntry> := [];
    var seenFolded: set<(Text, Text)> := {};
    var total := 0;
    NothingRead(items);
    for i := 0 to |items|
      invariant ReadEntries(items[..i]) == Some(files) && |files| == i
      invariant GoodFiles(files)
      invariant seenFolded == FoldedKeys(files)
      invariant total == TotalSize(files)
    {
      if CheckObject(v).Some? {
        AcceptedEntries(v, i);
      }
      var entry := ReadEntry(items[i]);
      if entry.None? || !ValidEntry(entry.value) {
        return None;
      }
      var e := entry.value;
      if i > 0 && !KeyLess(files[i - 1], e) {
        return None;
      }
      if FoldedKey(e) in seenFolded {
        return None;
      }
      GoodStep(files, e);
      EntryRead(items, files, e, i);
      seenFolded := seenFolded + {FoldedKey(e)};
      total := total + e.sizeBytes;
      files := files + [e];
    }
    assert items[..|items|] == items;
    if CheckObject(v).Some? {
      AcceptedEntries(v, 0);
    }
    if !Totals(v, |files|, total) {
      return None;
    }
    AllChecksPassed(v, files);
    return Some(Manifest(ArtifactIdOf(v), |files|, files, total));
  }
}
