/** The step-by-step protocol and the single call agree: left alone, an `ingest` that goes on call by call in the one
    publishes and reports what it publishes and reports in the other, whatever its sources hold. */
module StoreAgreement {
  import opened Wrappers
  import opened Texts
  import opened FileSystem
  import opened Manifest
  import opened ManifestFacts
  import opened Trees
  import opened StoreProtocol
  import opened StoreTheorems
  import Ingestion

  // ---- one call's own steps ----

  function Steps(sha: Bytes -> Text, fs: Fs, c: Call, choices: seq<Choice>): (Fs, Call)
    decreases |choices|
  {
    if choices == [] then (fs, c)
    else
      var r := StepCall(sha, fs, c, choices[0]);
      Steps(sha, r.0, r.1, choices[1..])
  }

  function Runs(pid: nat, choices: seq<Choice>): seq<Action> {
    seq(|choices|, i requires 0 <= i < |choices| => Run(pid, choices[i]))
  }

  /** In the protocol a call that is scheduled alone makes exactly these steps. */
  lemma {:induction false} StepsAreRuns(sha: Bytes -> Text, s: System, pid: nat, choices: seq<Choice>)
    requires pid in s.calls
    ensures var s' := After(sha, s, Runs(pid, choices));
            && pid in s'.calls && (s'.fs, s'.calls[pid]) == Steps(sha, s.fs, s.calls[pid], choices)
            && s'.calls.Keys == s.calls.Keys && forall q :: q in s.calls && q != pid ==> s'.calls[q] == s.calls[q]
    decreases |choices|
  {
    hide StepCall;
    if choices != [] {
      var s1 := Step(sha, s, Run(pid, choices[0]));
      assert Runs(pid, choices)[1..] == Runs(pid, choices[1..]);
      StepsAreRuns(sha, s1, pid, choices[1..]);
    }
  }

  lemma {:induction false} StepsSplit(sha: Bytes -> Text, fs: Fs, c: Call, early: seq<Choice>, late: seq<Choice>)
    ensures var r := Steps(sha, fs, c, early); Steps(sha, fs, c, early + late) == Steps(sha, r.0, r.1, late)
    decreases |early|
  {
    hide StepCall;
    if early == [] {
      assert early + late == late;
    } else {
      assert (early + late)[1..] == early[1..] + late;
      var r := StepCall(sha, fs, c, early[0]);
      StepsSplit(sha, r.0, r.1, early[1..], late);
    }
  }

  lemma OneStep(sha: Bytes -> Text, fs: Fs, c: Call, a: Choice, rest: seq<Choice>)
    ensures var r := StepCall(sha, fs, c, a); Steps(sha, fs, c, [a] + rest) == Steps(sha, r.0, r.1, rest)
  {
    assert ([a] + rest)[1..] == rest;
  }

  /** The comparison and the address do not depend on where the call stands. */
  lemma Relabelled(sha: Bytes -> Text, c: Call, pc: Pc, data: Bytes)
    ensures Matches(sha, At(c, pc), data) == Matches(sha, c, data)
    ensures Target(sha, At(c, pc)) == Target(sha, c) && AtManifest(At(c, pc)) == AtManifest(c)
  {
  }

  // ---- the stretches of a call ----

  /** Reading a file to its end, all of it at once. */
  function WholeRead(content: Bytes): seq<Choice> {
    if content == [] then [Go(0)] else [Go(|content|), Go(0)]
  }

  lemma ReadExistingPhase(sha: Bytes -> Text, fs: Fs, c: Call, inode: nat, content: Bytes, lost: bool)
    requires inode in fs.inodes && fs.inodes[inode] == content
    ensures Steps(sha, fs, At(c, ReadExisting(inode, [], lost)), WholeRead(content))
            == (fs, if Matches(sha, c, content) then Advance(CountPresent(c)) else At(c, Failed))
  {
    Relabelled(sha, c, ReadExisting(inode, content, lost), content);
    hide Matches, Target;
    var reading := At(c, ReadExisting(inode, [], lost));
    if content == [] {
      OneStep(sha, fs, reading, Go(0), []);
    } else {
      assert [] + content[0..|content|] == content;
      assert StepCall(sha, fs, reading, Go(|content|)).1 == At(c, ReadExisting(inode, content, lost));
      OneStep(sha, fs, reading, Go(|content|), [Go(0)]);
      OneStep(sha, fs, At(c, ReadExisting(inode, content, lost)), Go(0), []);
      assert [Go(|content|)] + [Go(0)] == WholeRead(content);
    }
    assert [Go(0)] + [] == [Go(0)];
  }

  lemma ReadBackPhase(sha: Bytes -> Text, fs: Fs, c: Call, inode: nat, content: Bytes)
    requires inode in fs.inodes && fs.inodes[inode] == content && Matches(sha, c, content)
    ensures Steps(sha, fs, At(c, ReadBack(inode, [])), WholeRead(content)) == (fs, Advance(CountIngested(c)))
  {
    Relabelled(sha, c, ReadBack(inode, content), content);
    hide Matches, Target;
    var reading := At(c, ReadBack(inode, []));
    if content == [] {
      OneStep(sha, fs, reading, Go(0), []);
    } else {
      assert [] + content[0..|content|] == content;
      assert StepCall(sha, fs, reading, Go(|content|)).1 == At(c, ReadBack(inode, content));
      OneStep(sha, fs, reading, Go(|content|), [Go(0)]);
      OneStep(sha, fs, At(c, ReadBack(inode, content)), Go(0), []);
      assert [Go(|content|)] + [Go(0)] == WholeRead(content);
    }
    assert [Go(0)] + [] == [Go(0)];
  }

  /** The file system while a temporary file holds what was copied. */
  function Copied(fs: Fs, token: nat, data: Bytes): Fs {
    Fs(fs.names[TempName(token) := fs.next], fs.inodes[fs.next := data], fs.next + 1)
  }

  function CopyChoices(token: nat, data: Bytes): seq<Choice> {
    [Go(0), Token(token), Chunk(data), EndOfSource]
  }

  /** From the first look to the end of the source: a temporary file with the source's bytes. */
  lemma CopyPhase(sha: Bytes -> Text, fs: Fs, c: Call, data: Bytes, token: nat)
    requires c.pc.Look? && Target(sha, c) !in fs.names && TempName(token) !in fs.names
    requires AtManifest(c) ==> data == ManifestBytes(c.manifest)
    ensures Steps(sha, fs, c, CopyChoices(token, data))
            == (Copied(fs, token, data),
                At(c, if Matches(sha, c, data) then LinkTemp(token, fs.next, data) else CleanTemp(token)))
  {
    var made, copy := At(c, Copy(token, fs.next, [])), At(c, Copy(token, fs.next, data));
    Relabelled(sha, c, MakeTemp, data);
    Relabelled(sha, c, Copy(token, fs.next, []), data);
    Relabelled(sha, c, Copy(token, fs.next, data), data);
    hide Matches, ManifestBytes, Target, AtManifest;
    assert [] + data == data;
    assert StepCall(sha, fs, At(c, MakeTemp), Token(token)).0 == Copied(fs, token, []);
    assert StepCall(sha, Copied(fs, token, []), made, Chunk(data)).1 == copy;
    assert StepCall(sha, Copied(fs, token, []), made, Chunk(data)).0 == Copied(fs, token, data);
    OneStep(sha, fs, c, Go(0), [Token(token), Chunk(data), EndOfSource]);
    OneStep(sha, fs, At(c, MakeTemp), Token(token), [Chunk(data), EndOfSource]);
    OneStep(sha, Copied(fs, token, []), made, Chunk(data), [EndOfSource]);
    OneStep(sha, Copied(fs, token, data), copy, EndOfSource, []);
    assert [Go(0)] + [Token(token), Chunk(data), EndOfSource] == CopyChoices(token, data);
    assert [Token(token)] + [Chunk(data), EndOfSource] == [Token(token), Chunk(data), EndOfSource];
    assert [Chunk(data)] + [EndOfSource] == [Chunk(data), EndOfSource] && [EndOfSource] + [] == [EndOfSource];
  }

  /** From the link to the open for read-back. */
  lemma InstallPhase(sha: Bytes -> Text, fs: Fs, c: Call, token: nat, inode: nat, data: Bytes)
    requires Target(sha, c) !in fs.names && TempName(token) in fs.names && fs.names[TempName(token)] == inode
    ensures Steps(sha, fs, At(c, LinkTemp(token, inode, data)), [Go(0), Go(0), Go(0)])
            == (fs.Link(TempName(token), Target(sha, c)).Unlink(TempName(token)), At(c, ReadBack(inode, [])))
  {
    var linked := fs.Link(TempName(token), Target(sha, c));
    Relabelled(sha, c, LinkTemp(token, inode, data), data);
    Relabelled(sha, c, OpenBack, data);
    var target := Target(sha, c);
    assert !target.TempName?;
    hide Matches, ManifestBytes, Target, AtManifest;
    OneStep(sha, fs, At(c, LinkTemp(token, inode, data)), Go(0), [Go(0), Go(0)]);
    OneStep(sha, linked, At(c, DropTemp(token)), Go(0), [Go(0)]);
    OneStep(sha, linked.Unlink(TempName(token)), At(c, OpenBack), Go(0), []);
    assert [Go(0)] + [Go(0), Go(0)] == [Go(0), Go(0), Go(0)] && [Go(0)] + [Go(0)] == [Go(0), Go(0)];
  }

  // ---- one entry, or the manifest ----

  /** What a call that is alone goes through, with a source that ends, is missing, or does not match. */
  function EntryChoices(sha: Bytes -> Text, fs: Fs, c: Call, source: Option<Bytes>, token: nat): seq<Choice> {
    var n := Target(sha, c);
    if n in fs.names && fs.names[n] in fs.inodes then [Go(0), Go(0)] + WholeRead(fs.inodes[fs.names[n]])
    else if source.None? then [Go(0), Raise]
    else
      CopyChoices(token, source.value)
      + if Matches(sha, c, source.value) then [Go(0), Go(0), Go(0)] + WholeRead(source.value) else [Go(0)]
  }

  /** Where that leaves the file system and the call. */
  function EntryResult(sha: Bytes -> Text, fs: Fs, c: Call, source: Option<Bytes>, token: nat): (Fs, Call) {
    var n := Target(sha, c);
    if n in fs.names && fs.names[n] in fs.inodes then
      (fs, if Matches(sha, c, fs.inodes[fs.names[n]]) then Advance(CountPresent(c)) else At(c, Failed))
    else if source.None? then (fs, At(c, Failed))
    else
      var copied := Copied(fs, token, source.value);
      if Matches(sha, c, source.value) then
        (copied.Link(TempName(token), n).Unlink(TempName(token)), Advance(CountIngested(c)))
      else (copied.Unlink(TempName(token)), At(c, Failed))
  }

  lemma PresentSteps(sha: Bytes -> Text, fs: Fs, c: Call, source: Option<Bytes>, token: nat)
    requires fs.Valid() && c.pc.Look? && Target(sha, c) in fs.names
    ensures Steps(sha, fs, c, EntryChoices(sha, fs, c, source, token)) == EntryResult(sha, fs, c, source, token)
  {
    var n := Target(sha, c);
    var content := fs.inodes[fs.names[n]];
    Relabelled(sha, c, OpenExisting(false), content);
    ReadExistingPhase(sha, fs, c, fs.names[n], content, false);
    hide Matches, ManifestBytes, Target, AtManifest, WholeRead;
    OneStep(sha, fs, c, Go(0), [Go(0)] + WholeRead(content));
    OneStep(sha, fs, At(c, OpenExisting(false)), Go(0), WholeRead(content));
    assert [Go(0)] + ([Go(0)] + WholeRead(content)) == [Go(0), Go(0)] + WholeRead(content);
  }

  lemma AbsentSteps(sha: Bytes -> Text, fs: Fs, c: Call, token: nat)
    requires fs.Valid() && c.pc.Look? && Target(sha, c) !in fs.names
    ensures Steps(sha, fs, c, EntryChoices(sha, fs, c, None, token)) == EntryResult(sha, fs, c, None, token)
  {
    hide Matches, ManifestBytes, Target, AtManifest;
    OneStep(sha, fs, c, Go(0), [Raise]);
    OneStep(sha, fs, At(c, MakeTemp), Raise, []);
    assert [Go(0)] + [Raise] == [Go(0), Raise] && [Raise] + [] == [Raise];
  }

  lemma StoringSteps(sha: Bytes -> Text, fs: Fs, c: Call, data: Bytes, token: nat)
    requires fs.Valid() && c.pc.Look? && Target(sha, c) !in fs.names && TempName(token) !in fs.names
    requires Matches(sha, c, data)
    ensures Steps(sha, fs, c, EntryChoices(sha, fs, c, Some(data), token)) == EntryResult(sha, fs, c, Some(data), token)
  {
    var copied, late := Copied(fs, token, data), [Go(0), Go(0), Go(0)] + WholeRead(data);
    var linking := At(c, LinkTemp(token, fs.next, data));
    CopyPhase(sha, fs, c, data, token);
    assert !Target(sha, c).TempName?;
    InstallPhase(sha, copied, c, token, fs.next, data);
    ReadBackPhase(sha, copied.Link(TempName(token), Target(sha, c)).Unlink(TempName(token)), c, fs.next, data);
    hide Matches, ManifestBytes, Target, AtManifest, WholeRead, StepCall, Steps, CopyChoices;
    StepsSplit(sha, fs, c, CopyChoices(token, data), late);
    StepsSplit(sha, copied, linking, [Go(0), Go(0), Go(0)], WholeRead(data));
  }

  lemma MismatchSteps(sha: Bytes -> Text, fs: Fs, c: Call, data: Bytes, token: nat)
    requires fs.Valid() && c.pc.Look? && Target(sha, c) !in fs.names && TempName(token) !in fs.names
    requires !Matches(sha, c, data) && !AtManifest(c)
    ensures Steps(sha, fs, c, EntryChoices(sha, fs, c, Some(data), token)) == EntryResult(sha, fs, c, Some(data), token)
  {
    CopyPhase(sha, fs, c, data, token);
    hide Matches, ManifestBytes, Target, AtManifest, CopyChoices;
    StepsSplit(sha, fs, c, CopyChoices(token, data), [Go(0)]);
    OneStep(sha, Copied(fs, token, data), At(c, CleanTemp(token)), Go(0), []);
    assert [Go(0)] + [] == [Go(0)];
  }

  lemma EntrySteps(sha: Bytes -> Text, fs: Fs, c: Call, source: Option<Bytes>, token: nat)
    requires fs.Valid() && c.pc.Look? && TempName(token) !in fs.names
    requires AtManifest(c) ==> source == Some(ManifestBytes(c.manifest))
    ensures Steps(sha, fs, c, EntryChoices(sha, fs, c, source, token)) == EntryResult(sha, fs, c, source, token)
  {
    if Target(sha, c) in fs.names {
      PresentSteps(sha, fs, c, source, token);
    } else if source.None? {
      AbsentSteps(sha, fs, c, token);
    } else if Matches(sha, c, source.value) {
      StoringSteps(sha, fs, c, source.value, token);
    } else {
      MismatchSteps(sha, fs, c, source.value, token);
    }
  }

  // ---- agreement ----

  /** No temporary file left, and these published files. */
  ghost predicate Holding(fs: Fs, token: nat, store: Contents) {
    fs.Valid() && TempName(token) !in fs.names && fs.Public() == store
  }

  lemma StoredPublic(fs: Fs, token: nat, data: Bytes, target: FileSystem.Name)
    requires fs.Valid() && TempName(token) !in fs.names && target !in fs.names && !target.TempName?
    ensures Holding(Copied(fs, token, data).Link(TempName(token), target).Unlink(TempName(token)), token,
                    fs.Public()[target := data])
  {
    var fs' := Copied(fs, token, data).Link(TempName(token), target).Unlink(TempName(token));
    assert fs'.names == fs.names[target := fs.next];
    assert fs' == Fs(fs.names[target := fs.next], fs.inodes[fs.next := data], fs.next + 1);
    assert fs'.Valid();
    assert forall n :: n in fs.names ==> fs'.inodes[fs.names[n]] == fs.inodes[fs.names[n]];
  }

  lemma ClearedPublic(fs: Fs, token: nat, data: Bytes)
    requires fs.Valid() && TempName(token) !in fs.names
    ensures Holding(Copied(fs, token, data).Unlink(TempName(token)), token, fs.Public())
  {
    var fs' := Copied(fs, token, data).Unlink(TempName(token));
    assert fs'.names == fs.names;
    assert forall n :: n in fs.names ==> fs'.inodes[fs.names[n]] == fs.inodes[fs.names[n]];
  }

  /** The call after an object, as `ingest` counts it. */
  function Counted(c: Call, outcome: Option<Ingestion.Outcome>): Call {
    match outcome
    case None => At(c, Failed)
    case Some(Ingested) => Advance(CountIngested(c))
    case Some(AlreadyPresent) => Advance(CountPresent(c))
  }

  /** One object: stored, found, refused, missing at its source or different from it. */
  lemma ObjectAgrees(sha: Bytes -> Text, fs: Fs, c: Call, source: Option<Bytes>, token: nat, way: Ingestion.Way)
    requires fs.Valid() && !AtManifest(c) && TempName(token) !in fs.names
    requires way.rival.None? && Ingestion.Faithful(way.disk)
    ensures var r := EntryResult(sha, fs, c, source, token);
            var e := c.manifest.files[c.index];
            var o := Ingestion.IngestObject(sha, fs.Public(), source, e.sha256, e.sizeBytes, way);
            Holding(r.0, token, o.1) && r.1 == Counted(c, o.0)
  {
    hide ManifestBytes, Ingestion.Faithful, Ingestion.Spool, Copied, Holding, Advance, CountPresent, CountIngested;
    if source.Some? {
      Ingestion.SpoolFaithful(way.disk, source.value, 0);
      assert source.value[0..] == source.value;
      if Target(sha, c) !in fs.names {
        StoredPublic(fs, token, source.value, Target(sha, c));
        ClearedPublic(fs, token, source.value);
      }
    }
    HoldingItself(fs, token);
  }

  lemma HoldingItself(fs: Fs, token: nat)
    requires fs.Valid() && TempName(token) !in fs.names
    ensures Holding(fs, token, fs.Public())
  {
  }

  /** The manifest's own write. */
  lemma ManifestAgrees(sha: Bytes -> Text, fs: Fs, c: Call, token: nat, way: Ingestion.Way)
    requires fs.Valid() && AtManifest(c) && TempName(token) !in fs.names && ValidManifest(c.manifest)
    requires way.rival.None? && Ingestion.Faithful(way.disk)
    ensures var data := ManifestBytes(c.manifest);
            var r := EntryResult(sha, fs, c, Some(data), token);
            var o := Ingestion.PutManifest(sha, fs.Public(), data, way);
            && Holding(r.0, token, o.1) && (o.0.Some? ==> o.0 == Some(sha(data)))
            && r.1 == if o.0.Some? then Advance(c) else At(c, Failed)
  {
    var data := ManifestBytes(c.manifest);
    CheckBytesIff(data, c.manifest);
    assert way.disk(0, data) == data;
    hide ManifestBytes, CheckBytes, ValidManifest, Copied, Holding;
    if Target(sha, c) !in fs.names {
      StoredPublic(fs, token, data, Target(sha, c));
    }
    HoldingItself(fs, token);
  }

  // ---- a whole call ----

  /** The choices of a whole call up to entry `n`, every source taken from its role root. */
  function FilesChoices(sha: Bytes -> Text, fs: Fs, c: Call, n: nat, roots: map<Text, Node>, token: nat): seq<Choice>
    requires n <= |c.manifest.files|
  {
    if n == 0 then []
    else
      var before := FilesChoices(sha, fs, c, n - 1, roots, token);
      var r := Steps(sha, fs, c, before);
      if r.1.pc.Failed? then before
      else before + EntryChoices(sha, r.0, r.1, Ingestion.SourceOf(roots, c.manifest.files[n - 1]), token)
  }

  function CallChoices(sha: Bytes -> Text, fs: Fs, m: Manifest, roots: map<Text, Node>, token: nat): seq<Choice> {
    var c := Call(m, 0, Look, 0, 0);
    var before := FilesChoices(sha, fs, c, |m.files|, roots, token);
    var r := Steps(sha, fs, c, before);
    if r.1.pc.Failed? then before else before + EntryChoices(sha, r.0, r.1, Some(ManifestBytes(m)), token)
  }

  /** A call that has dealt with `n` entries. */
  function Progressed(m: Manifest, n: nat, counts: Ingestion.Counts): Call {
    Call(m, n, Look, counts.ingested, counts.alreadyPresent)
  }

  ghost predicate Kind(ways: nat -> Ingestion.Way) {
    forall i: nat :: ways(i).rival.None? && Ingestion.Faithful(ways(i).disk)
  }

  /** After `n` entries both views hold the same files and the same counts, or both have failed. */
  ghost predicate Agreed(token: nat, m: Manifest, n: nat, r: (Fs, Call), o: (Option<Ingestion.Counts>, Contents)) {
    && Holding(r.0, token, o.1)
    && if o.0.None? then r.1.pc.Failed? else r.1 == Progressed(m, n, o.0.value)
  }

  lemma EntryAgrees(sha: Bytes -> Text, fs: Fs, m: Manifest, n: nat, store: Contents, counts: Ingestion.Counts,
                    source: Option<Bytes>, token: nat, way: Ingestion.Way)
    requires Holding(fs, token, store) && n < |m.files| && way.rival.None? && Ingestion.Faithful(way.disk)
    ensures var o := Ingestion.IngestObject(sha, store, source, m.files[n].sha256, m.files[n].sizeBytes, way);
            var c := Progressed(m, n, counts);
            Agreed(token, m, n + 1, Steps(sha, fs, c, EntryChoices(sha, fs, c, source, token)),
                   (if o.0.None? then None else Some(Ingestion.Count(counts, o.0.value)), o.1))
  {
    var c := Progressed(m, n, counts);
    EntrySteps(sha, fs, c, source, token);
    ObjectAgrees(sha, fs, c, source, token, way);
    hide ManifestBytes, Steps, EntryChoices, EntryResult, Ingestion.IngestObject, Ingestion.Faithful;
  }

  lemma {:induction false} FilesAgree(sha: Bytes -> Text, fs: Fs, m: Manifest, n: nat, roots: map<Text, Node>,
                                      token: nat, ways: nat -> Ingestion.Way)
    requires fs.Valid() && TempName(token) !in fs.names && n <= |m.files| && Kind(ways)
    ensures var c := Call(m, 0, Look, 0, 0);
            Agreed(token, m, n, Steps(sha, fs, c, FilesChoices(sha, fs, c, n, roots, token)),
                   Ingestion.IngestFiles(sha, fs.Public(), m.files[..n], roots, ways))
  {
    var c := Call(m, 0, Look, 0, 0);
    if n == 0 {
      HoldingItself(fs, token);
    } else {
      FilesAgree(sha, fs, m, n - 1, roots, token, ways);
      assert m.files[..n][..n - 1] == m.files[..n - 1];
      var before := FilesChoices(sha, fs, c, n - 1, roots, token);
      var r := Steps(sha, fs, c, before);
      var o := Ingestion.IngestFiles(sha, fs.Public(), m.files[..n - 1], roots, ways);
      var source := Ingestion.SourceOf(roots, m.files[n - 1]);
      hide ManifestBytes, Steps, EntryChoices, EntryResult, Ingestion.IngestObject, Ingestion.SourceOf, Holding;
      if o.0.Some? {
        EntryAgrees(sha, r.0, m, n - 1, o.1, o.0.value, source, token, ways(n - 1));
        StepsSplit(sha, fs, c, before, EntryChoices(sha, r.0, r.1, source, token));
      }
    }
  }

  /** The report of a call that finished. */
  function ReportOf(sha: Bytes -> Text, c: Call): Option<Ingestion.IngestReport> {
    if c.pc.Finished? then
      Some(Ingestion.IngestReport(c.alreadyPresent, c.ingested, sha(ManifestBytes(c.manifest)), |c.manifest.files|))
    else None
  }

  lemma CallAgrees(sha: Bytes -> Text, fs: Fs, m: Manifest, roots: map<Text, Node>, token: nat,
                   ways: nat -> Ingestion.Way)
    requires fs.Valid() && TempName(token) !in fs.names && ValidManifest(m) && Kind(ways)
    requires roots.Keys == Ingestion.RolesOf(m.files)
    ensures var r := Steps(sha, fs, Call(m, 0, Look, 0, 0), CallChoices(sha, fs, m, roots, token));
            && (r.1.pc.Finished? || r.1.pc.Failed?) && r.0.Valid()
            && Ingestion.Ingest(sha, fs.Public(), ManifestBytes(m), roots, ways) == (ReportOf(sha, r.1), r.0.Public())
  {
    var c, data := Call(m, 0, Look, 0, 0), ManifestBytes(m);
    FilesAgree(sha, fs, m, |m.files|, roots, token, ways);
    assert m.files[..|m.files|] == m.files;
    CheckBytesIff(data, m);
    var before := FilesChoices(sha, fs, c, |m.files|, roots, token);
    var r := Steps(sha, fs, c, before);
    hide ManifestBytes, CheckBytes, ValidManifest, Steps, EntryChoices, EntryResult, Ingestion.IngestFiles,
      Ingestion.PutManifest, FilesChoices;
    if !r.1.pc.Failed? {
      EntrySteps(sha, r.0, r.1, Some(data), token);
      ManifestAgrees(sha, r.0, r.1, token, ways(|m.files|));
      StepsSplit(sha, fs, c, before, EntryChoices(sha, r.0, r.1, Some(data), token));
    }
  }

  /** Started and then left alone, a call in the protocol ends, and what it reports and what is published then are
      what the single `ingest` reports and publishes, failures included; no other call is touched. */
  lemma SoloIngestAgrees(sha: Bytes -> Text, s: System, pid: nat, m: Manifest, roots: map<Text, Node>, token: nat,
                         ways: nat -> Ingestion.Way)
    requires s.fs.Valid() && pid !in s.calls && TempName(token) !in s.fs.names && ValidManifest(m) && Kind(ways)
    requires roots.Keys == Ingestion.RolesOf(m.files)
    ensures var s' := After(sha, s, [Start(pid, m)] + Runs(pid, CallChoices(sha, s.fs, m, roots, token)));
            && s'.fs.Valid() && pid in s'.calls && (s'.calls[pid].pc.Finished? || s'.calls[pid].pc.Failed?)
            && Ingestion.Ingest(sha, s.fs.Public(), ManifestBytes(m), roots, ways)
               == (ReportOf(sha, s'.calls[pid]), s'.fs.Public())
            && s'.calls.Keys == s.calls.Keys + {pid} && forall q :: q in s.calls ==> s'.calls[q] == s.calls[q]
  {
    var choices := CallChoices(sha, s.fs, m, roots, token);
    var started := Step(sha, s, Start(pid, m));
    CallAgrees(sha, s.fs, m, roots, token, ways);
    StepsAreRuns(sha, started, pid, choices);
    assert ([Start(pid, m)] + Runs(pid, choices))[1..] == Runs(pid, choices);
    hide ManifestBytes, ValidManifest, CallChoices, Runs, Steps, Ingestion.Ingest, ReportOf, StepCall;
  }
}
