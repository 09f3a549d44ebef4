/** The portable artifact manifest: its record, its canonical bytes and its validation. */
module Manifest {
  import opened Wrappers
  import opened Texts
  import opened JsonStrings
  import opened Json
  import opened JsonRoundTrip
  import opened Utf8

  datatype FileEntry = FileEntry(relativePath: Text, role: Text, sha256: Text, sizeBytes: int)
  datatype Manifest = Manifest(artifactId: Text, fileCount: int, files: seq<FileEntry>, totalSizeBytes: int)

  // ---- field policies ----

  predicate LowerOrDigit(c: int) {
    97 <= c <= 122 || 48 <= c <= 57
  }

  /** `[a-z][a-z0-9_-]{0,63}` */
  predicate IsRole(t: Text) {
    && 1 <= |t| <= 64
    && 97 <= t[0] <= 122
    && forall i :: 0 <= i < |t| ==> LowerOrDigit(t[i]) || t[i] == 95 || t[i] == 45
  }

  /** `[a-z0-9][a-z0-9._-]{0,127}` */
  predicate IsArtifactId(t: Text) {
    && 1 <= |t| <= 128
    && LowerOrDigit(t[0])
    && forall i :: 0 <= i < |t| ==> LowerOrDigit(t[i]) || t[i] == 46 || t[i] == 95 || t[i] == 45
  }

  const DIGEST_LENGTH: nat := 64

  /** `[0-9a-f]{64}` */
  predicate IsDigest(t: Text) {
    |t| == DIGEST_LENGTH && forall i :: 0 <= i < |t| ==> 48 <= t[i] <= 57 || 97 <= t[i] <= 102
  }

  const SLASH := 47
  const DOT := 46

  predicate SegmentChar(c: int) {
    LowerOrDigit(c) || 65 <= c <= 90 || c == DOT || c == 95 || c == 45
  }

  predicate IsSegment(t: Text) {
    t != [] && t != [DOT] && t != [DOT, DOT] && forall i :: 0 <= i < |t| ==> SegmentChar(t[i])
  }

  /** Python's `t.split("/")`. */
  function Split(t: Text): (r: seq<Text>)
    ensures r != []
  {
    if t == [] then [[]]
    else
      var rest := Split(t[1..]);
      if t[0] == SLASH then [[]] + rest else [[t[0]] + rest[0]] + rest[1..]
  }

  /** Absolute paths, trailing separators, backslashes and NULs all fail the segment policy. */
  predicate IsRelativePath(t: Text) {
    forall s :: s in Split(t) ==> IsSegment(s)
  }

  /** `str.casefold` on the characters a relative path may hold. */
  function CaseFold(t: Text): (r: Text)
    ensures |r| == |t|
  {
    seq(|t|, i requires 0 <= i < |t| => if 65 <= t[i] <= 90 then t[i] + 32 else t[i])
  }

  /** The same character, or one letter in upper and in lower case. */
  predicate SameButForCase(c: int, d: int) {
    c == d || (65 <= c <= 90 && d == c + 32) || (65 <= d <= 90 && c == d + 32)
  }

  /** Paths fold to the same text exactly when they differ in the case of ASCII letters alone. */
  lemma SameFoldIff(t: Text, u: Text)
    ensures CaseFold(t) == CaseFold(u) <==>
            |t| == |u| && forall i :: 0 <= i < |t| ==> SameButForCase(t[i], u[i])
  {
    if CaseFold(t) == CaseFold(u) {
      assert |t| == |CaseFold(t)| == |u|;
      forall i | 0 <= i < |t|
        ensures SameButForCase(t[i], u[i])
      {
        assert CaseFold(t)[i] == CaseFold(u)[i];
      }
    }
  }

  predicate KeyLess(a: FileEntry, b: FileEntry) {
    Less(a.role, b.role) || (a.role == b.role && Less(a.relativePath, b.relativePath))
  }

  predicate SameKey(a: FileEntry, b: FileEntry) {
    a.role == b.role && a.relativePath == b.relativePath
  }

  predicate ValidEntry(e: FileEntry) {
    IsRole(e.role) && IsRelativePath(e.relativePath) && IsDigest(e.sha256) && e.sizeBytes >= 0
  }

  function TotalSize(files: seq<FileEntry>): int {
    if files == [] then 0 else TotalSize(files[..|files| - 1]) + files[|files| - 1].sizeBytes
  }

  predicate Ordered(files: seq<FileEntry>) {
    forall i, j :: 0 <= i < j < |files| ==> KeyLess(files[i], files[j])
  }

  function FoldedKey(e: FileEntry): (Text, Text) {
    (e.role, CaseFold(e.relativePath))
  }

  predicate CaseDistinct(files: seq<FileEntry>) {
    forall i, j :: 0 <= i < j < |files| ==> FoldedKey(files[i]) != FoldedKey(files[j])
  }

  predicate ValidManifest(m: Manifest) {
    && IsArtifactId(m.artifactId)
    && m.files != []
    && (forall e :: e in m.files ==> ValidEntry(e))
    && Ordered(m.files)
    && CaseDistinct(m.files)
    && m.fileCount == |m.files|
    && m.totalSizeBytes == TotalSize(m.files)
  }

  lemma KeyLessTransitive(a: FileEntry, b: FileEntry, c: FileEntry)
    requires KeyLess(a, b) && KeyLess(b, c)
    ensures KeyLess(a, c)
  {
    if Less(a.role, b.role) && Less(b.role, c.role) {
      LessTransitive(a.role, b.role, c.role);
    } else if a.role == b.role && b.role == c.role {
      LessTransitive(a.relativePath, b.relativePath, c.relativePath);
    }
  }

  lemma KeyLessAsymmetric(a: FileEntry, b: FileEntry)
    requires KeyLess(a, b)
    ensures !KeyLess(b, a) && !SameKey(a, b)
  {
    if Less(a.role, b.role) {
      LessAsymmetric(a.role, b.role);
    } else {
      LessIrreflexive(a.role);
      LessAsymmetric(a.relativePath, b.relativePath);
    }
  }

  lemma KeyLessTotal(a: FileEntry, b: FileEntry)
    ensures SameKey(a, b) || KeyLess(a, b) || KeyLess(b, a)
  {
    LessTotal(a.role, b.role);
    LessTotal(a.relativePath, b.relativePath);
  }

  // ---- the JSON document ----

  const ARTIFACT_ID := Lit("artifact_id")
  const KIND_KEY := Lit("artifact_manifest_kind")
  const FILE_COUNT := Lit("file_count")
  const FILES := Lit("files")
  const SCHEMA_VERSION := Lit("schema_version")
  const TOTAL_SIZE := Lit("total_size_bytes")
  const RELATIVE_PATH := Lit("relative_path")
  const ROLE := Lit("role")
  const SHA256 := Lit("sha256")
  const SIZE_BYTES := Lit("size_bytes")

  const ARTIFACT_MANIFEST_KIND := Lit("qnty_portable_artifact_manifest")
  const MANIFEST_SCHEMA_VERSION := Lit("1.0.0")

  function EntryJson(e: FileEntry): Json {
    Obj([Member(RELATIVE_PATH, Str(e.relativePath)), Member(ROLE, Str(e.role)),
         Member(SHA256, Str(e.sha256)), Member(SIZE_BYTES, Int(e.sizeBytes))])
  }

  function EntriesJson(files: seq<FileEntry>): seq<Json> {
    seq(|files|, i requires 0 <= i < |files| => EntryJson(files[i]))
  }

  function ManifestJson(m: Manifest): Json {
    Obj([Member(ARTIFACT_ID, Str(m.artifactId)), Member(KIND_KEY, Str(ARTIFACT_MANIFEST_KIND)),
         Member(FILE_COUNT, Int(m.fileCount)), Member(FILES, Arr(EntriesJson(m.files))),
         Member(SCHEMA_VERSION, Str(MANIFEST_SCHEMA_VERSION)), Member(TOTAL_SIZE, Int(m.totalSizeBytes))])
  }

  function KeysOf(ms: seq<Member>): seq<Text> {
    seq(|ms|, i requires 0 <= i < |ms| => ms[i].key)
  }

  /** A dict, listed by ascending key, whose key set is the set of these ascending keys. */
  predicate HasExactKeys(v: Json, keys: seq<Text>) {
    v.Obj? && KeysOf(v.members) == keys
  }

  function ReadEntry(v: Json): Option<FileEntry> {
    if HasExactKeys(v, [RELATIVE_PATH, ROLE, SHA256, SIZE_BYTES]) then
      var f := v.members;
      assert |f| == |KeysOf(f)|;
      if f[0].value.Str? && f[1].value.Str? && f[2].value.Str? && f[3].value.Int? then
        Some(FileEntry(f[0].value.s, f[1].value.s, f[2].value.s, f[3].value.i))
      else None
    else None
  }

  function ReadEntries(items: seq<Json>): (r: Option<seq<FileEntry>>)
    ensures r.Some? ==> |r.value| == |items|
  {
    if items == [] then Some([])
    else
      var more :- ReadEntries(items[..|items| - 1]);
      var e :- ReadEntry(items[|items| - 1]);
      Some(more + [e])
  }

  function ReadManifest(v: Json): Option<Manifest> {
    if HasExactKeys(v, [ARTIFACT_ID, KIND_KEY, FILE_COUNT, FILES, SCHEMA_VERSION, TOTAL_SIZE]) then
      var f := v.members;
      assert |f| == |KeysOf(f)|;
      if && f[0].value.Str?
         && f[1].value == Str(ARTIFACT_MANIFEST_KIND)
         && f[2].value.Int?
         && f[3].value.Arr?
         && f[4].value == Str(MANIFEST_SCHEMA_VERSION)
         && f[5].value.Int? then
        var files :- ReadEntries(f[3].value.items);
        Some(Manifest(f[0].value.s, f[2].value.i, files, f[5].value.i))
      else None
    else None
  }

  function ManifestBytes(m: Manifest): (r: Printed)
    ensures r != []
  {
    Dumps(ManifestJson(m))
  }

  /** The verdict of `validate_manifest_object`. */
  function CheckObject(v: Json): Option<Manifest> {
    var m :- ReadManifest(v);
    if ValidManifest(m) then Some(m) else None
  }

  /** The verdict of `validate_manifest_bytes`. */
  function CheckBytes(data: Bytes): Option<Manifest> {
    if data != [] && data[|data| - 1] == 10 then None
    else
      var text :- Decode(data);
      var v :- Loads(text);
      var m :- CheckObject(v);
      if data == Dumps(v) then Some(m) else None
  }
}
