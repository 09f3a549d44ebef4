/** What every step of the store protocol keeps, and what follows for every run. */
module StoreSafety {
  import opened Texts
  import opened FileSystem
  import opened Manifest
  import opened ManifestFacts
  import opened StoreChecks
  import opened StoreProtocol

  // ---- the invariant ----

  predicate Published(n: Name) {
    !n.TempName?
  }

  /** Bytes at an address hash to it; a manifest's objects are all there. */
  ghost predicate AddressOk(sha: Bytes -> Text, fs: Fs, n: Name)
    requires fs.Valid() && n in fs.names
  {
    match n
    case ObjectName(h) => sha(fs.Content(n)) == h
    case ManifestName(h) =>
      && sha(fs.Content(n)) == h
      && exists m :: ValidManifest(m) && ManifestBytes(m) == fs.Content(n) && AllStored(sha, fs.Public(), m.files)
    case TempName(_) => true
  }

  ghost predicate StoreOk(sha: Bytes -> Text, fs: Fs) {
    && fs.Valid()
    && (forall n :: n in fs.names ==> AddressOk(sha, fs, n))
    && (forall m, n :: m in fs.names && n in fs.names && m != n && m.TempName? && n.TempName? ==>
          fs.names[m] != fs.names[n])
  }

  /** The temporary file a call still answers for, with its inode while the call may write to it. */
  predicate Holds(pc: Pc) {
    pc.Copy? || pc.LinkTemp? || pc.DropTemp? || pc.CleanTemp?
  }

  predicate Writes(pc: Pc) {
    pc.Copy? || pc.LinkTemp?
  }

  /** The inode of a temporary file no reader can reach by an address. */
  ghost predicate Private(fs: Fs, inode: nat) {
    forall n :: n in fs.names && Published(n) ==> fs.names[n] != inode
  }

  /** The call has put its own file at its address. */
  ghost predicate Placed(sha: Bytes -> Text, fs: Fs, installs: map<Text, Report>, pid: nat, c: Call)
    requires fs.Valid()
  {
    var n := Target(sha, c);
    && n in fs.names && Matches(sha, c, fs.Content(n))
    && (!AtManifest(c) ==> n.sha256 in installs && installs[n.sha256] == Report(pid, c.index))
  }

  ghost predicate PcOk(sha: Bytes -> Text, fs: Fs, installs: map<Text, Report>, pid: nat, c: Call)
    requires fs.Valid()
  {
    match c.pc
    case ReadExisting(inode, seen, _) =>
      var n := Target(sha, c);
      n in fs.names && fs.names[n] == inode && seen <= fs.Content(n)
    case Copy(temp, inode, seen) =>
      && TempName(temp) in fs.names && fs.names[TempName(temp)] == inode && fs.inodes[inode] == seen
      && Private(fs, inode)
    case LinkTemp(temp, inode, seen) =>
      && TempName(temp) in fs.names && fs.names[TempName(temp)] == inode && fs.inodes[inode] == seen
      && Private(fs, inode) && Matches(sha, c, seen)
    case DropTemp(temp) => TempName(temp) in fs.names && Placed(sha, fs, installs, pid, c)
    case OpenBack => Placed(sha, fs, installs, pid, c)
    case ReadBack(inode, seen) =>
      var n := Target(sha, c);
      Placed(sha, fs, installs, pid, c) && fs.names[n] == inode && seen <= fs.Content(n)
    case RemoveBad => false
    case CleanTemp(temp) => TempName(temp) in fs.names
    case _ => true
  }

  ghost predicate CallOk(sha: Bytes -> Text, fs: Fs, installs: map<Text, Report>, pid: nat, c: Call)
    requires fs.Valid()
  {
    var n := |c.manifest.files|;
    && ValidManifest(c.manifest)
    && (c.pc.Finished? <==> c.index == n + 1)
    && c.index <= n + 1
    && c.ingested + c.alreadyPresent == (if c.index <= n then c.index else n)
    && (forall i :: 0 <= i < n && i < c.index ==> Stored(sha, fs.Public(), c.manifest.files[i]))
    && (c.pc.Finished? ==> ManifestName(sha(ManifestBytes(c.manifest))) in fs.names)
    && PcOk(sha, fs, installs, pid, c)
  }

  ghost predicate Inv(sha: Bytes -> Text, s: System) {
    && StoreOk(sha, s.fs)
    && (forall pid :: pid in s.calls ==> CallOk(sha, s.fs, s.installs, pid, s.calls[pid]))
    && (forall p, q :: p in s.calls && q in s.calls && p != q
                       && Holds(s.calls[p].pc) && Holds(s.calls[q].pc) ==>
          s.calls[p].pc.temp != s.calls[q].pc.temp)
    && (forall h :: h in s.installs ==> ObjectName(h) in s.fs.names)
    && (forall r :: r in s.reports ==> r.0 in s.installs && s.installs[r.0] == r.1)
  }

  // ---- what a step does to the file system ----

  /** Nothing published is changed or removed. */
  ghost predicate Keeps(fs: Fs, fs': Fs)
    requires fs.Valid() && fs'.Valid()
  {
    forall n :: n in fs.names && Published(n) ==>
      n in fs'.names && fs'.names[n] == fs.names[n] && fs'.Content(n) == fs.Content(n)
  }

  /** A step by the holder of one temporary name and its inode: every other temporary file is untouched,
      and what it publishes is its own inode. */
  ghost predicate OwnStep(fs: Fs, fs': Fs, temp: nat, inode: nat)
    requires fs.Valid() && fs'.Valid()
  {
    && Keeps(fs, fs')
    && (forall t :: t != temp && TempName(t) in fs.names ==>
          TempName(t) in fs'.names && fs'.names[TempName(t)] == fs.names[TempName(t)])
    && (forall i :: i in fs.inodes && i != inode ==> i in fs'.inodes && fs'.inodes[i] == fs.inodes[i])
    && (forall n :: n in fs'.names && Published(n) && n !in fs.names ==> fs'.names[n] == inode)
  }

  lemma KeepsTransitive(f: Fs, g: Fs, h: Fs)
    requires f.Valid() && g.Valid() && h.Valid() && Keeps(f, g) && Keeps(g, h)
    ensures Keeps(f, h)
  {
  }

  lemma StoredStays(sha: Bytes -> Text, fs: Fs, fs': Fs, e: FileEntry)
    requires fs.Valid() && fs'.Valid() && Keeps(fs, fs') && Stored(sha, fs.Public(), e)
    ensures Stored(sha, fs'.Public(), e)
  {
    assert Published(ObjectName(e.sha256));
  }

  lemma AddressStays(sha: Bytes -> Text, fs: Fs, fs': Fs, n: Name)
    requires fs.Valid() && fs'.Valid() && Keeps(fs, fs')
    requires n in fs.names && AddressOk(sha, fs, n)
    ensures Published(n) ==> AddressOk(sha, fs', n)
  {
    hide ManifestBytes, ValidManifest;
    if n.ManifestName? {
      var m :| ValidManifest(m) && ManifestBytes(m) == fs.Content(n) && AllStored(sha, fs.Public(), m.files);
      forall e | e in m.files
        ensures Stored(sha, fs'.Public(), e)
      {
        StoredStays(sha, fs, fs', e);
      }
      assert AllStored(sha, fs'.Public(), m.files);
    }
  }

  /** Another call's situation survives the step. */
  lemma OtherCallStays(sha: Bytes -> Text, fs: Fs, fs': Fs, temp: nat, inode: nat,
                       installs: map<Text, Report>, installs': map<Text, Report>, pid: nat, c: Call)
    requires fs.Valid() && fs'.Valid() && OwnStep(fs, fs', temp, inode)
    requires forall h :: h in installs ==> h in installs' && installs'[h] == installs[h]
    requires CallOk(sha, fs, installs, pid, c)
    requires Holds(c.pc) ==> c.pc.temp != temp
    requires Writes(c.pc) ==> c.pc.inode != inode
    ensures CallOk(sha, fs', installs', pid, c)
  {
    hide ManifestBytes, ValidManifest, Matches;
    var target := Target(sha, c);
    assert Published(target);
    forall i | 0 <= i < |c.manifest.files| && i < c.index
      ensures Stored(sha, fs'.Public(), c.manifest.files[i])
    {
      StoredStays(sha, fs, fs', c.manifest.files[i]);
    }
    if c.pc.Finished? {
      assert Published(ManifestName(sha(ManifestBytes(c.manifest))));
    }
  }

  // ---- the four file-system calls that change something ----

  lemma OldAddressesStay(sha: Bytes -> Text, fs: Fs, fs': Fs)
    requires StoreOk(sha, fs) && fs'.Valid() && Keeps(fs, fs')
    ensures forall n :: n in fs.names && n in fs'.names ==> AddressOk(sha, fs', n)
  {
    forall n | n in fs.names && n in fs'.names
      ensures AddressOk(sha, fs', n)
    {
      if Published(n) {
        AddressStays(sha, fs, fs', n);
      }
    }
  }

  lemma CreateStep(sha: Bytes -> Text, fs: Fs, temp: nat)
    requires StoreOk(sha, fs) && TempName(temp) !in fs.names
    ensures var fs' := fs.Create(TempName(temp));
            StoreOk(sha, fs') && OwnStep(fs, fs', temp, fs.next) && Private(fs', fs.next)
  {
    OldAddressesStay(sha, fs, fs.Create(TempName(temp)));
  }

  lemma AppendStep(sha: Bytes -> Text, fs: Fs, temp: nat, inode: nat, bytes: Bytes)
    requires StoreOk(sha, fs) && TempName(temp) in fs.names && fs.names[TempName(temp)] == inode && Private(fs, inode)
    ensures var fs' := fs.Append(inode, bytes);
            StoreOk(sha, fs') && OwnStep(fs, fs', temp, inode) && Private(fs', inode)
  {
    OldAddressesStay(sha, fs, fs.Append(inode, bytes));
  }

  lemma UnlinkStep(sha: Bytes -> Text, fs: Fs, temp: nat, inode: nat)
    requires StoreOk(sha, fs)
    ensures var fs' := fs.Unlink(TempName(temp));
            StoreOk(sha, fs') && OwnStep(fs, fs', temp, inode)
  {
    OldAddressesStay(sha, fs, fs.Unlink(TempName(temp)));
  }

  lemma LinkStep(sha: Bytes -> Text, fs: Fs, temp: nat, target: Name)
    requires StoreOk(sha, fs) && TempName(temp) in fs.names && Published(target) && target !in fs.names
    requires Private(fs, fs.names[TempName(temp)])
    requires AddressOk(sha, fs.Link(TempName(temp), target), target)
    ensures var fs' := fs.Link(TempName(temp), target);
            StoreOk(sha, fs') && OwnStep(fs, fs', temp, fs.names[TempName(temp)])
  {
    OldAddressesStay(sha, fs, fs.Link(TempName(temp), target));
  }

  // ---- the stepping call itself ----

  ghost predicate Sound(sha: Bytes -> Text, s: System, pid: nat) {
    StoreOk(sha, s.fs) && pid in s.calls && CallOk(sha, s.fs, s.installs, pid, s.calls[pid])
  }

  /** Everything one call's step must establish for the whole system to stay sound. */
  ghost predicate GoodStep(sha: Bytes -> Text, s: System, pid: nat, choice: Choice, temp: nat, inode: nat)
    requires s.fs.Valid() && pid in s.calls
  {
    var c := s.calls[pid];
    var s' := Step(sha, s, Run(pid, choice));
    && StoreOk(sha, s'.fs)
    && OwnStep(s.fs, s'.fs, temp, inode)
    && CallOk(sha, s'.fs, s'.installs, pid, s'.calls[pid])
    && (Holds(s'.calls[pid].pc) ==> s'.calls[pid].pc.temp == temp)
  }

  /** The step keeps what the call has already stored. */
  lemma EntriesStay(sha: Bytes -> Text, fs: Fs, fs': Fs, c: Call)
    requires fs.Valid() && fs'.Valid() && Keeps(fs, fs')
    requires forall i :: 0 <= i < |c.manifest.files| && i < c.index ==> Stored(sha, fs.Public(), c.manifest.files[i])
    ensures forall i :: 0 <= i < |c.manifest.files| && i < c.index ==> Stored(sha, fs'.Public(), c.manifest.files[i])
  {
    forall i | 0 <= i < |c.manifest.files| && i < c.index
      ensures Stored(sha, fs'.Public(), c.manifest.files[i])
    {
      StoredStays(sha, fs, fs', c.manifest.files[i]);
    }
  }

  lemma StepMakeTemp(sha: Bytes -> Text, s: System, pid: nat, temp: nat)
    requires Sound(sha, s, pid) && s.calls[pid].pc.MakeTemp? && TempName(temp) !in s.fs.names
    ensures GoodStep(sha, s, pid, Token(temp), temp, s.fs.next)
  {
    hide ManifestBytes, ValidManifest, AddressOk, Stored;
    var c := s.calls[pid];
    var fs' := s.fs.Create(TempName(temp));
    CreateStep(sha, s.fs, temp);
    EntriesStay(sha, s.fs, fs', c);
  }

  lemma StepChunk(sha: Bytes -> Text, s: System, pid: nat, bytes: Bytes)
    requires Sound(sha, s, pid) && s.calls[pid].pc.Copy?
    ensures GoodStep(sha, s, pid, Chunk(bytes), s.calls[pid].pc.temp, s.calls[pid].pc.inode)
  {
    hide ManifestBytes, ValidManifest, AddressOk, Stored;
    var c := s.calls[pid];
    var Copy(temp, inode, seen) := c.pc;
    AppendStep(sha, s.fs, temp, inode, bytes);
    EntriesStay(sha, s.fs, s.fs.Append(inode, bytes), c);
  }

  lemma StepUnlinkTemp(sha: Bytes -> Text, s: System, pid: nat, choice: Choice, inode: nat)
    requires Sound(sha, s, pid) && !choice.Raise?
    requires s.calls[pid].pc.DropTemp? || s.calls[pid].pc.CleanTemp?
    ensures GoodStep(sha, s, pid, choice, s.calls[pid].pc.temp, inode)
  {
    hide ManifestBytes, ValidManifest, AddressOk, Stored;
    var c := s.calls[pid];
    UnlinkStep(sha, s.fs, c.pc.temp, inode);
    EntriesStay(sha, s.fs, s.fs.Unlink(TempName(c.pc.temp)), c);
    assert Published(Target(sha, c));
  }

  /** At the moment of the link the file is complete: it hashes to its address, and a manifest's objects exist. */
  lemma LinkedAddressOk(sha: Bytes -> Text, fs: Fs, installs: map<Text, Report>, pid: nat, c: Call)
    requires StoreOk(sha, fs) && CallOk(sha, fs, installs, pid, c) && c.pc.LinkTemp? && Target(sha, c) !in fs.names
    ensures var fs' := fs.Link(TempName(c.pc.temp), Target(sha, c));
            fs'.Valid() && Target(sha, c) in fs'.names && AddressOk(sha, fs', Target(sha, c))
  {
    hide ManifestBytes, ValidManifest, Stored;
    var target := Target(sha, c);
    var fs' := fs.Link(TempName(c.pc.temp), target);
    assert Keeps(fs, fs');
    EntriesStay(sha, fs, fs', c);
    assert fs'.Content(target) == c.pc.seen;
    if AtManifest(c) {
      assert AllStored(sha, fs'.Public(), c.manifest.files);
    }
  }

  lemma StepLinkTemp(sha: Bytes -> Text, s: System, pid: nat, choice: Choice)
    requires Sound(sha, s, pid) && !choice.Raise? && s.calls[pid].pc.LinkTemp?
    requires Target(sha, s.calls[pid]) !in s.fs.names
    ensures GoodStep(sha, s, pid, choice, s.calls[pid].pc.temp, s.calls[pid].pc.inode)
  {
    hide ManifestBytes, ValidManifest, Stored, AddressOk, Matches;
    var c := s.calls[pid];
    var target := Target(sha, c);
    LinkedAddressOk(sha, s.fs, s.installs, pid, c);
    LinkStep(sha, s.fs, c.pc.temp, target);
    EntriesStay(sha, s.fs, s.fs.Link(TempName(c.pc.temp), target), c);
    assert s.fs.Link(TempName(c.pc.temp), target).Content(target) == c.pc.seen;
    MatchesStays(sha, c, At(c, DropTemp(c.pc.temp)), c.pc.seen);
  }

  lemma MatchesStays(sha: Bytes -> Text, c: Call, c': Call, data: Bytes)
    requires Matches(sha, c, data) && c'.manifest == c.manifest && c'.index == c.index
    ensures Matches(sha, c', data)
  {
  }

  /** A step that leaves the file system alone. */
  ghost predicate QuietStep(sha: Bytes -> Text, s: System, pid: nat, choice: Choice)
    requires s.fs.Valid() && pid in s.calls
  {
    var c := s.calls[pid];
    var s' := Step(sha, s, Run(pid, choice));
    && s'.fs == s.fs && s'.installs == s.installs
    && CallOk(sha, s.fs, s.installs, pid, s'.calls[pid])
    && (Holds(s'.calls[pid].pc) ==> Holds(c.pc) && s'.calls[pid].pc.temp == c.pc.temp)
    && (forall r :: r in s'.reports && r !in s.reports ==> r.0 in s.installs && s.installs[r.0] == r.1)
  }

  lemma StepRaise(sha: Bytes -> Text, s: System, pid: nat)
    requires Sound(sha, s, pid)
    ensures QuietStep(sha, s, pid, Raise)
  {
    hide ManifestBytes, ValidManifest, AddressOk, Stored;
  }

  lemma StepLook(sha: Bytes -> Text, s: System, pid: nat, choice: Choice)
    requires Sound(sha, s, pid) && !choice.Raise?
    requires s.calls[pid].pc.Look? || s.calls[pid].pc.OpenExisting? || s.calls[pid].pc.OpenBack?
    ensures QuietStep(sha, s, pid, choice)
  {
    hide ManifestBytes, ValidManifest, AddressOk, Stored;
  }

  /** A complete read whose comparison succeeds proves the entry stored. */
  lemma AdvanceOk(sha: Bytes -> Text, fs: Fs, installs: map<Text, Report>, pid: nat, c: Call, c': Call)
    requires fs.Valid() && CallOk(sha, fs, installs, pid, c) && (c.pc.ReadExisting? || c.pc.ReadBack?)
    requires Target(sha, c) in fs.names && Matches(sha, c, fs.Content(Target(sha, c)))
    requires c' == Advance(CountPresent(c)) || c' == Advance(CountIngested(c))
    ensures CallOk(sha, fs, installs, pid, c')
  {
    hide ManifestBytes, ValidManifest;
  }

  lemma StepReadExistingOk(sha: Bytes -> Text, s: System, pid: nat, size: nat)
    requires Sound(sha, s, pid) && s.calls[pid].pc.ReadExisting?
    ensures QuietStep(sha, s, pid, Go(size))
  {
    hide ManifestBytes, ValidManifest, AddressOk, Stored;
    var c := s.calls[pid];
    if |c.pc.seen| >= |s.fs.inodes[c.pc.inode]| {
      assert c.pc.seen == s.fs.Content(Target(sha, c));
      if Matches(sha, c, c.pc.seen) {
        AdvanceOk(sha, s.fs, s.installs, pid, c, Advance(CountPresent(c)));
      }
    }
  }

  /** Read-back finds the bytes that were linked: the comparison cannot fail. */
  lemma StepReadBackOk(sha: Bytes -> Text, s: System, pid: nat, size: nat)
    requires Sound(sha, s, pid) && s.calls[pid].pc.ReadBack?
    ensures QuietStep(sha, s, pid, Go(size))
  {
    hide ManifestBytes, ValidManifest, AddressOk, Stored;
    var c := s.calls[pid];
    if |c.pc.seen| >= |s.fs.inodes[c.pc.inode]| {
      assert c.pc.seen == s.fs.Content(Target(sha, c));
      AdvanceOk(sha, s.fs, s.installs, pid, c, Advance(CountIngested(c)));
    }
  }

  /** Does this choice make the call change the file system? */
  predicate Changes(sha: Bytes -> Text, fs: Fs, c: Call, choice: Choice) {
    && !choice.Raise?
    && match c.pc
       case MakeTemp => choice.Token? && TempName(choice.token) !in fs.names
       case Copy(_, _, _) => choice.Chunk?
       case LinkTemp(_, _, _) => Target(sha, c) !in fs.names
       case DropTemp(_) => true
       case CleanTemp(_) => true
       case _ => false
  }

  lemma StepQuiet(sha: Bytes -> Text, s: System, pid: nat, choice: Choice)
    requires Sound(sha, s, pid) && !Changes(sha, s.fs, s.calls[pid], choice)
    ensures QuietStep(sha, s, pid, choice)
  {
    hide ManifestBytes, ValidManifest, AddressOk, Stored;
    var c := s.calls[pid];
    if choice.Raise? {
      StepRaise(sha, s, pid);
    } else {
      match c.pc
      case ReadExisting(_, _, _) =>
        if choice.Go? {
          StepReadExistingOk(sha, s, pid, choice.size);
        }
      case ReadBack(_, _) =>
        if choice.Go? {
          StepReadBackOk(sha, s, pid, choice.size);
        }
      case Look => StepLook(sha, s, pid, choice);
      case OpenExisting(_) => StepLook(sha, s, pid, choice);
      case OpenBack => StepLook(sha, s, pid, choice);
      case _ =>
    }
  }

  // ---- the whole system ----

  lemma OthersStay(sha: Bytes -> Text, s: System, pid: nat, choice: Choice, temp: nat, inode: nat)
    requires Inv(sha, s) && pid in s.calls && GoodStep(sha, s, pid, choice, temp, inode)
    requires forall q :: q in s.calls && q != pid && Holds(s.calls[q].pc) ==> s.calls[q].pc.temp != temp
    requires forall q :: q in s.calls && q != pid && Writes(s.calls[q].pc) ==> s.calls[q].pc.inode != inode
    requires forall h :: h in s.installs ==> h in Step(sha, s, Run(pid, choice)).installs
                                             && Step(sha, s, Run(pid, choice)).installs[h] == s.installs[h]
    requires forall h :: h in Step(sha, s, Run(pid, choice)).installs ==>
                           ObjectName(h) in Step(sha, s, Run(pid, choice)).fs.names
    requires Step(sha, s, Run(pid, choice)).reports == s.reports
    ensures Inv(sha, Step(sha, s, Run(pid, choice)))
  {
    hide StepCall, AddressOk, CallOk, OwnStep, ManifestBytes, ValidManifest;
    var s' := Step(sha, s, Run(pid, choice));
    forall q | q in s'.calls
      ensures CallOk(sha, s'.fs, s'.installs, q, s'.calls[q])
    {
      if q != pid {
        OtherCallStays(sha, s.fs, s'.fs, temp, inode, s.installs, s'.installs, q, s.calls[q]);
      }
    }
  }

  /** No two calls write to one inode, or hold one temporary name. */
  lemma OwnersDiffer(sha: Bytes -> Text, s: System, p: nat, q: nat)
    requires Inv(sha, s) && p in s.calls && q in s.calls && p != q && Holds(s.calls[p].pc)
    ensures Holds(s.calls[q].pc) ==> s.calls[q].pc.temp != s.calls[p].pc.temp && TempName(s.calls[q].pc.temp) in s.fs.names
    ensures Writes(s.calls[p].pc) && Writes(s.calls[q].pc) ==> s.calls[q].pc.inode != s.calls[p].pc.inode
    ensures Writes(s.calls[q].pc) ==> s.calls[q].pc.inode < s.fs.next
  {
    hide ManifestBytes, ValidManifest, Matches, AddressOk;
    assert CallOk(sha, s.fs, s.installs, p, s.calls[p]);
    assert CallOk(sha, s.fs, s.installs, q, s.calls[q]);
  }

  lemma FreshTemp(sha: Bytes -> Text, s: System, q: nat, temp: nat)
    requires Inv(sha, s) && q in s.calls && TempName(temp) !in s.fs.names
    ensures Holds(s.calls[q].pc) ==> s.calls[q].pc.temp != temp
    ensures Writes(s.calls[q].pc) ==> s.calls[q].pc.inode != s.fs.next
  {
    hide ManifestBytes, ValidManifest, Matches, AddressOk;
    assert CallOk(sha, s.fs, s.installs, q, s.calls[q]);
  }

  lemma ChangingStepKeepsInv(sha: Bytes -> Text, s: System, pid: nat, choice: Choice)
    requires Inv(sha, s) && pid in s.calls && Changes(sha, s.fs, s.calls[pid], choice)
    ensures Inv(sha, Step(sha, s, Run(pid, choice))) && Keeps(s.fs, Step(sha, s, Run(pid, choice)).fs)
  {
    hide ManifestBytes, ValidManifest, Matches, AddressOk, CallOk, StoreOk;
    var c := s.calls[pid];
    assert Sound(sha, s, pid);
    match c.pc
    case MakeTemp =>
      StepMakeTemp(sha, s, pid, choice.token);
      forall q | q in s.calls {
        FreshTemp(sha, s, q, choice.token);
      }
      OthersStay(sha, s, pid, choice, choice.token, s.fs.next);
    case Copy(temp, inode, seen) =>
      StepChunk(sha, s, pid, choice.bytes);
      forall q | q in s.calls && q != pid {
        OwnersDiffer(sha, s, pid, q);
      }
      OthersStay(sha, s, pid, choice, temp, inode);
    case LinkTemp(temp, inode, seen) =>
      StepLinkTemp(sha, s, pid, choice);
      forall q | q in s.calls && q != pid {
        OwnersDiffer(sha, s, pid, q);
      }
      OthersStay(sha, s, pid, choice, temp, inode);
    case DropTemp(temp) =>
      StepUnlinkTemp(sha, s, pid, choice, s.fs.next);
      forall q | q in s.calls && q != pid {
        OwnersDiffer(sha, s, pid, q);
      }
      OthersStay(sha, s, pid, choice, temp, s.fs.next);
    case CleanTemp(temp) =>
      StepUnlinkTemp(sha, s, pid, choice, s.fs.next);
      forall q | q in s.calls && q != pid {
        OwnersDiffer(sha, s, pid, q);
      }
      OthersStay(sha, s, pid, choice, temp, s.fs.next);
  }

  lemma StartKeepsInv(sha: Bytes -> Text, s: System, pid: nat, manifest: Manifest)
    requires Inv(sha, s)
    ensures Inv(sha, Step(sha, s, Start(pid, manifest)))
  {
    hide ManifestBytes, ValidManifest, Matches, AddressOk, StoreOk;
  }

  lemma QuietStepKeepsInv(sha: Bytes -> Text, s: System, pid: nat, choice: Choice)
    requires Inv(sha, s) && pid in s.calls && !Changes(sha, s.fs, s.calls[pid], choice)
    ensures Inv(sha, Step(sha, s, Run(pid, choice))) && Step(sha, s, Run(pid, choice)).fs == s.fs
  {
    hide ManifestBytes, ValidManifest, Matches, AddressOk, CallOk, StoreOk, StepCall;
    assert Sound(sha, s, pid);
    StepQuiet(sha, s, pid, choice);
  }

  /** Every action of the scheduler keeps the invariant and everything published. */
  lemma StepKeepsInv(sha: Bytes -> Text, s: System, a: Action)
    requires Inv(sha, s)
    ensures Inv(sha, Step(sha, s, a)) && Keeps(s.fs, Step(sha, s, a).fs)
  {
    hide ManifestBytes, ValidManifest, Matches, AddressOk, CallOk, StepCall;
    match a
    case Start(pid, manifest) => StartKeepsInv(sha, s, pid, manifest);
    case Run(pid, choice) =>
      if pid in s.calls {
        if Changes(sha, s.fs, s.calls[pid], choice) {
          ChangingStepKeepsInv(sha, s, pid, choice);
        } else {
          QuietStepKeepsInv(sha, s, pid, choice);
        }
      }
  }

  lemma {:induction false} RunKeepsInv(sha: Bytes -> Text, s: System, schedule: seq<Action>)
    requires Inv(sha, s)
    ensures Inv(sha, After(sha, s, schedule)) && Keeps(s.fs, After(sha, s, schedule).fs)
    decreases |schedule|
  {
    hide Inv, Step;
    if schedule != [] {
      StepKeepsInv(sha, s, schedule[0]);
      RunKeepsInv(sha, Step(sha, s, schedule[0]), schedule[1..]);
    }
  }
}
