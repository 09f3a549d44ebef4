/** Full verification of one stored copy: the manifest and every object it names, byte for byte. */
module StoreChecks {
  import opened Wrappers
  import opened Texts
  import opened FileSystem
  import opened Manifest

  datatype CopyReport = CopyReport(artifactId: Text, manifestSha256: Text, verifiedObjectCount: int)

  /** The object an entry names is present, with the right bytes and size. */
  predicate Stored(sha: Bytes -> Text, store: Contents, e: FileEntry) {
    var n := ObjectName(e.sha256);
    n in store && sha(store[n]) == e.sha256 && |store[n]| == e.sizeBytes
  }

  predicate AllStored(sha: Bytes -> Text, store: Contents, files: seq<FileEntry>) {
    forall e :: e in files ==> Stored(sha, store, e)
  }

  /** The verdict of `load_manifest`: the bytes at the address hash to it and are a valid manifest. */
  function LoadManifest(sha: Bytes -> Text, store: Contents, h: Text): Option<Manifest> {
    var n := ManifestName(h);
    if n !in store || sha(store[n]) != h then None else CheckBytes(store[n])
  }

  /** The verdict of `verify_copy`. */
  function VerifyCopy(sha: Bytes -> Text, store: Contents, h: Text): Option<CopyReport> {
    var m :- LoadManifest(sha, store, h);
    if AllStored(sha, store, m.files) then Some(CopyReport(m.artifactId, h, m.fileCount)) else None
  }
}
