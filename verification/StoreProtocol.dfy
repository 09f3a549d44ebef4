/** Any number of `FilesystemStore.ingest` calls on one store root, each a sequence of file-system calls,
    in any interleaving. A call that stops for good is one that is never scheduled again. */
module StoreProtocol {
  import opened Texts
  import opened FileSystem
  import opened Manifest

  /** Where a call stands: at the file-system call it makes next. `seen` is what it has read or copied so far. */
  datatype Pc =
    | Look                                         // lexists(final_path)
    | OpenExisting(lostRace: bool)                 // open the file already at the address
    | ReadExisting(inode: nat, seen: Bytes, lostRace: bool)
    | MakeTemp                                     // mkstemp
    | Copy(temp: nat, inode: nat, seen: Bytes)     // read a source chunk, write it to the temporary file
    | LinkTemp(temp: nat, inode: nat, seen: Bytes) // link(temp, final_path)
    | DropTemp(temp: nat)                          // unlink(temp) after a successful link
    | OpenBack                                     // open final_path for read-back
    | ReadBack(inode: nat, seen: Bytes)
    | RemoveBad                                    // unlink(final_path) after a failed read-back
    | CleanTemp(temp: nat)                         // the exception handler's unlink(temp)
    | Finished
    | Failed

  /** One `ingest` call: `index` is the manifest entry at work, or the number of entries for the manifest itself. */
  datatype Call = Call(manifest: Manifest, index: nat, pc: Pc, ingested: nat, alreadyPresent: nat)

  /** What the scheduler lets a call do: proceed (reading at most `size` bytes), receive a source chunk,
      see the end of the source, be given a temporary name, or have the file-system call raise. */
  datatype Choice = Go(size: nat) | Chunk(bytes: Bytes) | EndOfSource | Token(token: nat) | Raise

  datatype Action = Start(pid: nat, manifest: Manifest) | Run(pid: nat, choice: Choice)

  /** A call's entry, the unit that reports 'ingested' or 'already_present'. */
  datatype Report = Report(pid: nat, index: nat)

  /** `installs` records who linked each object address; `reports` who reported 'ingested' for it. */
  datatype System = System(fs: Fs, calls: map<nat, Call>, installs: map<Text, Report>, reports: set<(Text, Report)>)

  datatype Effect = Quiet | Installed | Reported

  predicate AtManifest(c: Call) {
    c.index >= |c.manifest.files|
  }

  function Target(sha: Bytes -> Text, c: Call): Name {
    if AtManifest(c) then ManifestName(sha(ManifestBytes(c.manifest)))
    else ObjectName(c.manifest.files[c.index].sha256)
  }

  /** The comparison made after every full read, and before the link. */
  predicate Matches(sha: Bytes -> Text, c: Call, data: Bytes) {
    if AtManifest(c) then data == ManifestBytes(c.manifest)
    else sha(data) == c.manifest.files[c.index].sha256 && |data| == c.manifest.files[c.index].sizeBytes
  }

  function At(c: Call, pc: Pc): Call {
    c.(pc := pc)
  }

  /** The entry at work is done; put_manifest follows the last entry. */
  function Advance(c: Call): Call {
    c.(index := c.index + 1, pc := if AtManifest(c) then Finished else Look)
  }

  function CountIngested(c: Call): Call {
    if AtManifest(c) then c else c.(ingested := c.ingested + 1)
  }

  function CountPresent(c: Call): Call {
    if AtManifest(c) then c else c.(alreadyPresent := c.alreadyPresent + 1)
  }

  /** One `read`: at least one byte when there is one. */
  function ReadMore(content: Bytes, seen: Bytes, size: nat): (r: Bytes)
    requires |seen| < |content|
    ensures |seen| < |r| <= |content|
  {
    var upTo := |seen| + (if size == 0 then 1 else size);
    seen + content[|seen|..if upTo <= |content| then upTo else |content|]
  }

  /** What a call does when a file-system call raises: the handlers unlink the temporary file they still own. */
  function OnRaise(c: Call): Call {
    match c.pc
    case Copy(temp, _, _) => At(c, CleanTemp(temp))
    case LinkTemp(temp, _, _) => At(c, CleanTemp(temp))
    case DropTemp(temp) => At(c, CleanTemp(temp))
    case Finished => c
    case _ => At(c, Failed)
  }

  function StepCopy(sha: Bytes -> Text, fs: Fs, c: Call, choice: Choice): (Fs, Call)
    requires c.pc.Copy?
  {
    var Copy(temp, inode, seen) := c.pc;
    match choice
    case Chunk(bytes) =>
      if inode in fs.inodes && (AtManifest(c) ==> seen + bytes <= ManifestBytes(c.manifest)) then
        (fs.Append(inode, bytes), At(c, Copy(temp, inode, seen + bytes)))
      else (fs, c)
    case EndOfSource =>
      (fs, At(c, if Matches(sha, c, seen) then LinkTemp(temp, inode, seen) else CleanTemp(temp)))
    case _ => (fs, c)
  }

  function StepLink(sha: Bytes -> Text, fs: Fs, c: Call): (Fs, Call, Effect)
    requires c.pc.LinkTemp?
  {
    var temp := TempName(c.pc.temp);
    var target := Target(sha, c);
    if target in fs.names then (fs, At(c, OpenExisting(true)), Quiet)
    else if temp !in fs.names then (fs, At(c, Failed), Quiet)
    else (fs.Link(temp, target), At(c, DropTemp(c.pc.temp)), Installed)
  }

  function StepReadExisting(sha: Bytes -> Text, fs: Fs, c: Call, size: nat): Call
    requires c.pc.ReadExisting?
  {
    var ReadExisting(inode, seen, lostRace) := c.pc;
    if inode in fs.inodes && |seen| < |fs.inodes[inode]| then
      At(c, ReadExisting(inode, ReadMore(fs.inodes[inode], seen, size), lostRace))
    else if Matches(sha, c, seen) then Advance(CountPresent(c))
    else At(c, Failed)
  }

  function StepReadBack(sha: Bytes -> Text, fs: Fs, c: Call, size: nat): (Call, Effect)
    requires c.pc.ReadBack?
  {
    var ReadBack(inode, seen) := c.pc;
    if inode in fs.inodes && |seen| < |fs.inodes[inode]| then
      (At(c, ReadBack(inode, ReadMore(fs.inodes[inode], seen, size))), Quiet)
    else if Matches(sha, c, seen) then (Advance(CountIngested(c)), Reported)
    else (At(c, if AtManifest(c) then Failed else RemoveBad), Quiet)
  }

  /** The next file-system call of one ingest call. A choice that does not fit leaves everything as it is. */
  function StepCall(sha: Bytes -> Text, fs: Fs, c: Call, choice: Choice): (Fs, Call, Effect) {
    if choice.Raise? then (fs, OnRaise(c), Quiet)
    else
      var target := Target(sha, c);
      match c.pc
      case Look => (fs, At(c, if target in fs.names then OpenExisting(false) else MakeTemp), Quiet)
      case OpenExisting(lostRace) =>
        (fs, At(c, if target in fs.names then ReadExisting(fs.names[target], [], lostRace) else Failed), Quiet)
      case ReadExisting(_, _, _) =>
        (fs, if choice.Go? then StepReadExisting(sha, fs, c, choice.size) else c, Quiet)
      case MakeTemp =>
        if choice.Token? && TempName(choice.token) !in fs.names then
          (fs.Create(TempName(choice.token)), At(c, Copy(choice.token, fs.next, [])), Quiet)
        else (fs, c, Quiet)
      case Copy(_, _, _) =>
        var r := StepCopy(sha, fs, c, choice);
        (r.0, r.1, Quiet)
      case LinkTemp(_, _, _) => StepLink(sha, fs, c)
      case DropTemp(temp) => (fs.Unlink(TempName(temp)), At(c, OpenBack), Quiet)
      case OpenBack =>
        (fs, At(c, if target in fs.names then ReadBack(fs.names[target], []) else Failed), Quiet)
      case ReadBack(_, _) =>
        if choice.Go? then
          var r := StepReadBack(sha, fs, c, choice.size);
          (fs, r.0, r.1)
        else (fs, c, Quiet)
      case RemoveBad => (fs.Unlink(target), At(c, Failed), Quiet)
      case CleanTemp(temp) => (fs.Unlink(TempName(temp)), At(c, Failed), Quiet)
      case Finished => (fs, c, Quiet)
      case Failed => (fs, c, Quiet)
  }

  function Step(sha: Bytes -> Text, s: System, a: Action): System {
    match a
    case Start(pid, manifest) =>
      if pid in s.calls || !ValidManifest(manifest) then s
      else s.(calls := s.calls[pid := Call(manifest, 0, Look, 0, 0)])
    case Run(pid, choice) =>
      if pid !in s.calls then s
      else
        var c := s.calls[pid];
        var r := StepCall(sha, s.fs, c, choice);
        var s' := s.(fs := r.0, calls := s.calls[pid := r.1]);
        if AtManifest(c) || r.2.Quiet? then s'
        else
          var h := c.manifest.files[c.index].sha256;
          if r.2.Installed? then s'.(installs := s.installs[h := Report(pid, c.index)])
          else s'.(reports := s.reports + {(h, Report(pid, c.index))})
  }

  /** The state after a whole schedule. */
  function After(sha: Bytes -> Text, s: System, schedule: seq<Action>): System
    decreases |schedule|
  {
    if schedule == [] then s else After(sha, Step(sha, s, schedule[0]), schedule[1..])
  }
}
