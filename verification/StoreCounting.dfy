/** What the counters of concurrent ingest calls say, where a call that lost a link ends, and what a raised error
    leaves behind. */
module StoreCounting {
  import opened Wrappers
  import opened Texts
  import opened FileSystem
  import opened Manifest
  import opened StoreChecks
  import opened StoreProtocol
  import opened StoreSafety
  import opened StoreTheorems
  import opened StoreAgreement
  import Ingestion

  // ---- counters, reports and links ----

  function ReportsOf(reports: set<(Text, Report)>, pid: nat): set<(Text, Report)> {
    set r | r in reports && r.1.pid == pid
  }

  /** The entry a report is about is one of the call's, and names this address. */
  predicate IsEntry(calls: map<nat, Call>, h: Text, r: Report) {
    && r.pid in calls && r.index < |calls[r.pid].manifest.files|
    && calls[r.pid].manifest.files[r.index].sha256 == h
  }

  ghost predicate ReportsOk(s: System) {
    forall r :: r in s.reports ==> IsEntry(s.calls, r.0, r.1) && r.1.index < s.calls[r.1.pid].index
  }

  /** A call has linked the file of the entry it is at, and has not reported it. */
  predicate HasLinked(pc: Pc) {
    pc.DropTemp? || pc.OpenBack? || pc.ReadBack? || pc.CleanTemp? || pc.Failed?
  }

  /** Whoever linked an address has reported it, unless it is still at that entry or failed there. */
  ghost predicate InstallsOk(s: System) {
    forall h :: h in s.installs ==>
      var r := s.installs[h];
      && IsEntry(s.calls, h, r) && r.index <= s.calls[r.pid].index
      && (r.index < s.calls[r.pid].index ==> (h, r) in s.reports)
      && (r.index == s.calls[r.pid].index ==> HasLinked(s.calls[r.pid].pc))
  }

  ghost predicate CountersOk(s: System) {
    forall pid :: pid in s.calls ==> s.calls[pid].ingested == |ReportsOf(s.reports, pid)|
  }

  /** The object addresses in use are the ones of the start and the ones linked since. */
  ghost predicate LinksOk(fs: Fs, s: System) {
    && (forall h :: ObjectName(h) in s.fs.names <==> ObjectName(h) in fs.names || h in s.installs)
    && (forall h :: h in s.installs ==> ObjectName(h) !in fs.names)
  }

  ghost predicate Accounted(fs: Fs, s: System) {
    ReportsOk(s) && InstallsOk(s) && CountersOk(s) && LinksOk(fs, s)
  }

  /** A call stays at its entry, or goes on to the next: it counts an entry exactly once, as ingested exactly when it
      reports, and it never passes an entry it has linked without a report. */
  lemma CallOutline(sha: Bytes -> Text, fs: Fs, c: Call, choice: Choice)
    ensures var r := StepCall(sha, fs, c, choice);
            && r.1.manifest == c.manifest
            && (r.1.index == c.index ==>
                  && !r.2.Reported? && r.1.ingested == c.ingested && r.1.alreadyPresent == c.alreadyPresent
                  && (HasLinked(c.pc) && !c.pc.RemoveBad? && !r.1.pc.RemoveBad? ==> HasLinked(r.1.pc))
                  && (r.2.Installed? ==> c.pc.LinkTemp? && HasLinked(r.1.pc)))
            && (r.1.index != c.index ==>
                  && r.1.index == c.index + 1
                  && ((r.2.Reported? && c.pc.ReadBack? && r.1 == Advance(CountIngested(c)))
                      || (r.2.Quiet? && c.pc.ReadExisting? && r.1 == Advance(CountPresent(c)))))
  {
    hide Matches, ManifestBytes;
  }

  lemma AddressOutline(sha: Bytes -> Text, fs: Fs, c: Call, choice: Choice)
    requires !c.pc.RemoveBad?
    ensures var r := StepCall(sha, fs, c, choice);
            && (r.2.Installed? ==> Target(sha, c) !in fs.names)
            && forall n: FileSystem.Name :: !n.TempName? ==> (n in r.0.names <==> n in fs.names || (r.2.Installed? && n == Target(sha, c)))
  {
    hide Matches, ManifestBytes;
  }

  lemma ReportAdds(reports: set<(Text, Report)>, h: Text, r: Report, pid: nat)
    requires (h, r) !in reports
    ensures |ReportsOf(reports + {(h, r)}, pid)| == |ReportsOf(reports, pid)| + if r.pid == pid then 1 else 0
  {
    if r.pid == pid {
      assert ReportsOf(reports + {(h, r)}, pid) == ReportsOf(reports, pid) + {(h, r)};
    } else {
      assert ReportsOf(reports + {(h, r)}, pid) == ReportsOf(reports, pid);
    }
  }

  /** The call has stayed at its entry, with the same counters. */
  ghost predicate Stayed(s: System, s': System, pid: nat, c': Call) {
    && pid in s.calls && s'.calls == s.calls[pid := c'] && s'.reports == s.reports
    && c'.index == s.calls[pid].index && c'.manifest == s.calls[pid].manifest && c'.ingested == s.calls[pid].ingested
    && (HasLinked(s.calls[pid].pc) ==> HasLinked(c'.pc))
  }

  lemma StayedQuietly(fs: Fs, s: System, s': System, pid: nat, c': Call)
    requires Accounted(fs, s) && Stayed(s, s', pid, c') && s'.installs == s.installs
    requires forall h :: ObjectName(h) in s'.fs.names <==> ObjectName(h) in s.fs.names
    ensures Accounted(fs, s')
  {
    hide ReportsOf, HasLinked;
  }

  lemma StayedLinking(fs: Fs, s: System, s': System, pid: nat, c': Call, h: Text)
    requires Accounted(fs, s) && Stayed(s, s', pid, c') && HasLinked(c'.pc)
    requires s'.installs == s.installs[h := Report(pid, c'.index)] && IsEntry(s'.calls, h, Report(pid, c'.index))
    requires ObjectName(h) !in s.fs.names
    requires forall g :: ObjectName(g) in s'.fs.names <==> ObjectName(g) in s.fs.names || g == h
    ensures Accounted(fs, s')
  {
    hide ReportsOf, HasLinked;
  }

  lemma StayingStep(sha: Bytes -> Text, fs: Fs, s: System, pid: nat, choice: Choice)
    requires Accounted(fs, s) && pid in s.calls && !s.calls[pid].pc.RemoveBad?
    requires var r := StepCall(sha, s.fs, s.calls[pid], choice); !r.1.pc.RemoveBad? && r.1.index == s.calls[pid].index
    ensures Accounted(fs, Step(sha, s, Run(pid, choice)))
  {
    var c := s.calls[pid];
    CallOutline(sha, s.fs, c, choice);
    AddressOutline(sha, s.fs, c, choice);
    var r := StepCall(sha, s.fs, c, choice);
    hide StepCall, Accounted, HasLinked, ManifestBytes;
    var s' := Step(sha, s, Run(pid, choice));
    if r.2.Installed? && !AtManifest(c) {
      StayedLinking(fs, s, s', pid, r.1, c.manifest.files[c.index].sha256);
    } else {
      StayedQuietly(fs, s, s', pid, r.1);
    }
  }

  /** The call has passed its entry. */
  ghost predicate Passed(s: System, s': System, pid: nat, c': Call) {
    && pid in s.calls && s'.calls == s.calls[pid := c'] && s'.installs == s.installs
    && c'.index == s.calls[pid].index + 1 && c'.manifest == s.calls[pid].manifest
    && (forall h :: ObjectName(h) in s'.fs.names <==> ObjectName(h) in s.fs.names)
  }

  /** It has found its file there already, or was at the manifest. */
  lemma PassedQuietly(fs: Fs, s: System, s': System, pid: nat, c': Call)
    requires Accounted(fs, s) && Passed(s, s', pid, c') && s'.reports == s.reports
    requires c'.ingested == s.calls[pid].ingested
    requires AtManifest(s.calls[pid]) || !HasLinked(s.calls[pid].pc)
    ensures Accounted(fs, s')
  {
    hide ReportsOf, HasLinked;
  }

  lemma PassedCounters(s: System, s': System, pid: nat, c': Call)
    requires ReportsOk(s) && CountersOk(s) && Passed(s, s', pid, c') && !AtManifest(s.calls[pid])
    requires s'.reports == s.reports + {(s.calls[pid].manifest.files[s.calls[pid].index].sha256,
                                         Report(pid, s.calls[pid].index))}
    requires c'.ingested == s.calls[pid].ingested + 1
    ensures CountersOk(s')
  {
    var h, r := s.calls[pid].manifest.files[s.calls[pid].index].sha256, Report(pid, s.calls[pid].index);
    assert (h, r) !in s.reports;
    forall q | q in s'.calls
      ensures s'.calls[q].ingested == |ReportsOf(s'.reports, q)|
    {
      ReportAdds(s.reports, h, r, q);
    }
  }

  lemma PassedReports(s: System, s': System, pid: nat, c': Call)
    requires ReportsOk(s) && InstallsOk(s) && Passed(s, s', pid, c') && !AtManifest(s.calls[pid])
    requires s'.reports == s.reports + {(s.calls[pid].manifest.files[s.calls[pid].index].sha256,
                                         Report(pid, s.calls[pid].index))}
    ensures ReportsOk(s') && InstallsOk(s')
  {
    hide HasLinked;
  }

  /** It has stored its file itself. */
  lemma PassedReporting(fs: Fs, s: System, s': System, pid: nat, c': Call)
    requires Accounted(fs, s) && Passed(s, s', pid, c') && !AtManifest(s.calls[pid])
    requires s'.reports == s.reports + {(s.calls[pid].manifest.files[s.calls[pid].index].sha256,
                                         Report(pid, s.calls[pid].index))}
    requires c'.ingested == s.calls[pid].ingested + 1
    ensures Accounted(fs, s')
  {
    PassedCounters(s, s', pid, c');
    PassedReports(s, s', pid, c');
    hide CountersOk, ReportsOk, InstallsOk;
  }

  lemma AdvancingStep(sha: Bytes -> Text, fs: Fs, s: System, pid: nat, choice: Choice)
    requires Accounted(fs, s) && pid in s.calls && !s.calls[pid].pc.RemoveBad?
    requires StepCall(sha, s.fs, s.calls[pid], choice).1.index != s.calls[pid].index
    ensures Accounted(fs, Step(sha, s, Run(pid, choice)))
  {
    var c := s.calls[pid];
    CallOutline(sha, s.fs, c, choice);
    AddressOutline(sha, s.fs, c, choice);
    var c' := StepCall(sha, s.fs, c, choice).1;
    hide StepCall, Accounted;
    var s' := Step(sha, s, Run(pid, choice));
    if StepCall(sha, s.fs, c, choice).2.Reported? && !AtManifest(c) {
      PassedReporting(fs, s, s', pid, c');
    } else {
      PassedQuietly(fs, s, s', pid, c');
    }
  }

  lemma StartAccounts(sha: Bytes -> Text, fs: Fs, s: System, pid: nat, manifest: Manifest)
    requires Accounted(fs, s)
    ensures Accounted(fs, Step(sha, s, Start(pid, manifest)))
  {
    hide ValidManifest;
    if pid !in s.calls {
      assert ReportsOf(s.reports, pid) == {};
    }
    hide ReportsOf, HasLinked, LinksOk;
  }

  lemma CallStays(sha: Bytes -> Text, s: System, pid: nat, choice: Choice)
    requires pid in s.calls
    ensures pid in Step(sha, s, Run(pid, choice)).calls
    ensures Step(sha, s, Run(pid, choice)).calls[pid] == StepCall(sha, s.fs, s.calls[pid], choice).1
  {
    hide StepCall;
  }

  lemma StepAccounts(sha: Bytes -> Text, fs: Fs, s: System, a: Action)
    requires Inv(sha, s) && Accounted(fs, s)
    ensures Accounted(fs, Step(sha, s, a))
  {
    hide Inv, Accounted, StepCall, Step;
    StepKeepsInv(sha, s, a);
    match a
    case Start(pid, manifest) => StartAccounts(sha, fs, s, pid, manifest);
    case Run(pid, choice) =>
      if pid in s.calls {
        CallStays(sha, s, pid, choice);
        NeverRemoving(sha, s, pid);
        NeverRemoving(sha, Step(sha, s, a), pid);
        if StepCall(sha, s.fs, s.calls[pid], choice).1.index == s.calls[pid].index {
          StayingStep(sha, fs, s, pid, choice);
        } else {
          AdvancingStep(sha, fs, s, pid, choice);
        }
      } else {
        NoCall(sha, s, pid, choice);
      }
  }

  lemma NoCall(sha: Bytes -> Text, s: System, pid: nat, choice: Choice)
    requires pid !in s.calls
    ensures Step(sha, s, Run(pid, choice)) == s
  {
  }

  lemma NeverRemoving(sha: Bytes -> Text, s: System, pid: nat)
    requires Inv(sha, s) && pid in s.calls
    ensures !s.calls[pid].pc.RemoveBad?
  {
    assert s.fs.Valid();
    hide StoreOk, Matches, ManifestBytes, ValidManifest;
    assert CallOk(sha, s.fs, s.installs, pid, s.calls[pid]);
  }

  lemma {:induction false} RunAccounts(sha: Bytes -> Text, fs: Fs, s: System, schedule: seq<Action>)
    requires Inv(sha, s) && Accounted(fs, s)
    ensures Accounted(fs, After(sha, s, schedule))
    decreases |schedule|
  {
    hide Inv, Step, Accounted;
    if schedule != [] {
      StepKeepsInv(sha, s, schedule[0]);
      StepAccounts(sha, fs, s, schedule[0]);
      RunAccounts(sha, fs, Step(sha, s, schedule[0]), schedule[1..]);
    }
  }

  lemma AccountedFromBoot(sha: Bytes -> Text, fs: Fs, schedule: seq<Action>)
    requires StoreOk(sha, fs)
    ensures Accounted(fs, After(sha, Boot(fs), schedule)) && Inv(sha, After(sha, Boot(fs), schedule))
  {
    BootInv(sha, fs);
    RunKeepsInv(sha, Boot(fs), schedule);
    hide Inv, After, StoreOk;
    RunAccounts(sha, fs, Boot(fs), schedule);
  }

  // ---- the counters of all calls together ----

  /** In every reachable state a call's `ingested` counter is the number of addresses it reported as ingested. */
  lemma CounterCountsReports(sha: Bytes -> Text, fs: Fs, schedule: seq<Action>, pid: nat)
    requires StoreOk(sha, fs) && pid in After(sha, Boot(fs), schedule).calls
    ensures var s := After(sha, Boot(fs), schedule); s.calls[pid].ingested == |ReportsOf(s.reports, pid)|
  {
    AccountedFromBoot(sha, fs, schedule);
    hide Inv, After, StoreOk, ReportsOk, InstallsOk, LinksOk;
  }

  /** The sum of the `ingested` counters of the calls below `n`. */
  function TotalIngested(calls: map<nat, Call>, n: nat): nat {
    if n == 0 then 0 else TotalIngested(calls, n - 1) + if n - 1 in calls then calls[n - 1].ingested else 0
  }

  function ReportsBelow(reports: set<(Text, Report)>, n: nat): set<(Text, Report)> {
    set r | r in reports && r.1.pid < n
  }

  lemma BelowStep(reports: set<(Text, Report)>, n: nat)
    ensures |ReportsBelow(reports, n + 1)| == |ReportsBelow(reports, n)| + |ReportsOf(reports, n)|
    ensures |ReportsBelow(reports, 0)| == 0
  {
    assert ReportsBelow(reports, n + 1) == ReportsBelow(reports, n) + ReportsOf(reports, n);
    assert ReportsBelow(reports, 0) == {};
  }

  lemma CountedBy(s: System, pid: nat)
    requires CountersOk(s) && ReportsOk(s)
    ensures |ReportsOf(s.reports, pid)| == if pid in s.calls then s.calls[pid].ingested else 0
  {
    if pid !in s.calls {
      assert ReportsOf(s.reports, pid) == {};
    }
  }

  lemma {:induction false} TotalCountsReports(s: System, n: nat)
    requires CountersOk(s) && ReportsOk(s)
    ensures TotalIngested(s.calls, n) == |ReportsBelow(s.reports, n)|
  {
    hide CountersOk, ReportsOk, ReportsOf, ReportsBelow;
    if n == 0 {
      BelowStep(s.reports, 0);
    } else {
      TotalCountsReports(s, n - 1);
      BelowStep(s.reports, n - 1);
      CountedBy(s, n - 1);
    }
  }

  /** The object addresses that came into use since the start. */
  function NewObjects(fs: Fs, fs': Fs): set<FileSystem.Name> {
    set n | n in fs'.names && n.ObjectName? && n !in fs.names
  }

  function AddressesOf(reports: set<(Text, Report)>): set<FileSystem.Name> {
    set r | r in reports :: ObjectName(r.0)
  }

  /** Reports about different addresses, so many addresses. */
  lemma {:induction false} AddressesOfCount(reports: set<(Text, Report)>)
    requires forall r, q :: r in reports && q in reports && r.0 == q.0 ==> r == q
    ensures |AddressesOf(reports)| == |reports|
  {
    if reports != {} {
      var r :| r in reports;
      AddressesOfCount(reports - {r});
      assert AddressesOf(reports) == AddressesOf(reports - {r}) + {ObjectName(r.0)};
    }
  }

  lemma SubsetCount<T>(a: set<T>, b: set<T>)
    requires a <= b
    ensures |a| <= |b|
  {
    assert b == a + (b - a);
  }

  predicate AllFinished(s: System, n: nat) {
    forall pid :: pid in s.calls ==> pid < n && s.calls[pid].pc.Finished?
  }

  /** The addresses the reports below `n` are about, and that they are all that came into use when all have finished. */
  lemma ReportsCoverObjects(fs: Fs, s: System, n: nat)
    requires ReportsOk(s) && InstallsOk(s) && LinksOk(fs, s)
    requires forall r :: r in s.reports ==> r.0 in s.installs
    ensures AddressesOf(ReportsBelow(s.reports, n)) <= NewObjects(fs, s.fs)
    ensures AllFinished(s, n) ==> AddressesOf(ReportsBelow(s.reports, n)) == NewObjects(fs, s.fs)
  {
    var addresses := AddressesOf(ReportsBelow(s.reports, n));
    if AllFinished(s, n) {
      forall a | a in NewObjects(fs, s.fs)
        ensures a in addresses
      {
        var h := a.sha256;
        assert ObjectName(h) == a && h in s.installs;
        assert (h, s.installs[h]) in ReportsBelow(s.reports, n);
      }
    }
  }

  /** All calls together never count more entries as ingested than object addresses came into use, and exactly as many
      when every call has finished. */
  lemma TotalIngestedIsNewObjects(sha: Bytes -> Text, fs: Fs, schedule: seq<Action>, n: nat)
    requires StoreOk(sha, fs)
    ensures var s := After(sha, Boot(fs), schedule);
            && TotalIngested(s.calls, n) <= |NewObjects(fs, s.fs)|
            && (AllFinished(s, n) ==> TotalIngested(s.calls, n) == |NewObjects(fs, s.fs)|)
  {
    AccountedFromBoot(sha, fs, schedule);
    var s := After(sha, Boot(fs), schedule);
    assert forall r :: r in s.reports ==> r.0 in s.installs && s.installs[r.0] == r.1;
    hide After, Inv, TotalIngested, AllFinished, NewObjects, CountersOk, ReportsOk, InstallsOk, LinksOk;
    TotalCountsReports(s, n);
    ReportsCoverObjects(fs, s, n);
    AddressesOfCount(ReportsBelow(s.reports, n));
    hide AddressesOf;
    SubsetCount(AddressesOf(ReportsBelow(s.reports, n)), NewObjects(fs, s.fs));
  }

  // ---- where a call that lost the link ends ----

  /** Left alone, a call that finds its address taken when it links reads what is there, and goes on to its next entry
      counting this one as already present, or fails when the file is another one. */
  lemma LoserSteps(sha: Bytes -> Text, fs: Fs, c: Call, token: nat, inode: nat, data: Bytes)
    requires fs.Valid() && Target(sha, c) in fs.names
    ensures var found := fs.Content(Target(sha, c));
            Steps(sha, fs, At(c, LinkTemp(token, inode, data)), [Go(0), Go(0)] + WholeRead(found))
            == (fs, if Matches(sha, c, found) then Advance(CountPresent(c)) else At(c, Failed))
  {
    var n := Target(sha, c);
    var found := fs.Content(n);
    Relabelled(sha, c, LinkTemp(token, inode, data), found);
    Relabelled(sha, c, OpenExisting(true), found);
    ReadExistingPhase(sha, fs, c, fs.names[n], found, true);
    hide Matches, ManifestBytes, Target, AtManifest, WholeRead;
    OneStep(sha, fs, At(c, LinkTemp(token, inode, data)), Go(0), [Go(0)] + WholeRead(found));
    OneStep(sha, fs, At(c, OpenExisting(true)), Go(0), WholeRead(found));
    assert [Go(0)] + ([Go(0)] + WholeRead(found)) == [Go(0), Go(0)] + WholeRead(found);
  }

  /** That is the outcome of the single call when a rival links first. */
  lemma LoserAgrees(sha: Bytes -> Text, fs: Fs, c: Call, token: nat, inode: nat, data: Bytes, store: Contents,
                    disk: Ingestion.Disk)
    requires fs.Valid() && Target(sha, c) in fs.names && Target(sha, c) !in store
    requires !AtManifest(c) && Matches(sha, c, data)
    ensures var found := fs.Content(Target(sha, c));
            var e := c.manifest.files[c.index];
            var o := Ingestion.IngestObject(sha, store, Some(data), e.sha256, e.sizeBytes, Ingestion.Way(disk, Some(found)));
            && o.1 == store[Target(sha, c) := found]
            && Steps(sha, fs, At(c, LinkTemp(token, inode, data)), [Go(0), Go(0)] + WholeRead(found)).1 == Counted(c, o.0)
  {
    LoserSteps(sha, fs, c, token, inode, data);
    hide Steps, WholeRead, Ingestion.Spool, ManifestBytes;
  }

  /** A call whose address holds the file it wants, on its way to finding it. */
  ghost predicate Finding(sha: Bytes -> Text, fs: Fs, c: Call) {
    && (c.pc.LinkTemp? || c.pc.OpenExisting? || c.pc.ReadExisting?)
    && fs.Valid() && Target(sha, c) in fs.names && Matches(sha, c, fs.Content(Target(sha, c)))
  }

  /** Unless one of its own file-system calls raises, it keeps on, or goes to the next entry counting this one as
      already present. */
  lemma FindingStep(sha: Bytes -> Text, s: System, pid: nat, choice: Choice)
    requires Inv(sha, s) && pid in s.calls && Finding(sha, s.fs, s.calls[pid]) && !choice.Raise?
    ensures var r := StepCall(sha, s.fs, s.calls[pid], choice);
            && r.0 == s.fs
            && (r.1 == Advance(CountPresent(s.calls[pid]))
                || (r.1 == At(s.calls[pid], r.1.pc) && Finding(sha, s.fs, r.1)))
  {
    var c := s.calls[pid];
    assert CallOk(sha, s.fs, s.installs, pid, c);
    var r := StepCall(sha, s.fs, c, choice);
    Relabelled(sha, c, r.1.pc, s.fs.Content(Target(sha, c)));
    hide StoreOk, AddressOk, Matches, ManifestBytes, ValidManifest, Target, AtManifest, Stored;
    if c.pc.ReadExisting? && |c.pc.seen| >= |s.fs.inodes[c.pc.inode]| {
      assert c.pc.seen == s.fs.Content(Target(sha, c));
    }
  }

  lemma FindingKept(sha: Bytes -> Text, fs: Fs, fs': Fs, c: Call)
    requires fs.Valid() && fs'.Valid() && Keeps(fs, fs') && Finding(sha, fs, c)
    ensures Finding(sha, fs', c)
  {
    assert Published(Target(sha, c));
    hide Matches, ManifestBytes;
  }

  lemma OthersUntouched(sha: Bytes -> Text, s: System, pid: nat, a: Action)
    requires pid in s.calls && (a.Run? ==> a.pid != pid)
    ensures pid in Step(sha, s, a).calls && Step(sha, s, a).calls[pid] == s.calls[pid]
  {
    hide StepCall;
  }

  lemma OthersKeepFinding(sha: Bytes -> Text, s: System, pid: nat, a: Action)
    requires Inv(sha, s) && pid in s.calls && Finding(sha, s.fs, s.calls[pid]) && (a.Run? ==> a.pid != pid)
    ensures var s' := Step(sha, s, a);
            pid in s'.calls && s'.calls[pid] == s.calls[pid] && Finding(sha, s'.fs, s'.calls[pid])
  {
    hide Step, CallOk, AddressOk, Finding;
    StepKeepsInv(sha, s, a);
    OthersUntouched(sha, s, pid, a);
    FindingKept(sha, s.fs, Step(sha, s, a).fs, s.calls[pid]);
  }

  /** The call still looks for its file, at the same entry and with the same counters. */
  ghost predicate StillFinding(sha: Bytes -> Text, s: System, pid: nat, c: Call) {
    pid in s.calls && Finding(sha, s.fs, s.calls[pid]) && s.calls[pid] == At(c, s.calls[pid].pc)
  }

  predicate CountedPresent(s: System, pid: nat, c: Call) {
    pid in s.calls && s.calls[pid] == Advance(CountPresent(c))
  }

  lemma FinderStep(sha: Bytes -> Text, s: System, pid: nat, c: Call, a: Action)
    requires Inv(sha, s) && StillFinding(sha, s, pid, c) && a != Run(pid, Raise)
    ensures StillFinding(sha, Step(sha, s, a), pid, c) || CountedPresent(Step(sha, s, a), pid, c)
  {
    if a.Run? && a.pid == pid {
      CallStays(sha, s, pid, a.choice);
      FindingStep(sha, s, pid, a.choice);
      hide StepCall, Inv, Finding;
    } else {
      OthersKeepFinding(sha, s, pid, a);
      hide Step, Inv, Finding;
    }
  }

  /** In every run in which none of its own file-system calls raises, a call whose address holds the file it wants when
      it links or opens is never refused: it is still reading, or has gone on with this entry counted as present. */
  lemma {:induction false} FinderCountsPresent(sha: Bytes -> Text, s: System, pid: nat, c: Call, schedule: seq<Action>)
    requires Inv(sha, s) && StillFinding(sha, s, pid, c) && Run(pid, Raise) !in schedule
    ensures StillFinding(sha, After(sha, s, schedule), pid, c)
            || exists k :: 0 <= k <= |schedule| && CountedPresent(After(sha, s, schedule[..k]), pid, c)
    decreases |schedule|
  {
    hide Inv, Step, StillFinding, CountedPresent;
    if schedule != [] {
      var s1 := Step(sha, s, schedule[0]);
      FinderStep(sha, s, pid, c, schedule[0]);
      if StillFinding(sha, s1, pid, c) {
        StepKeepsInv(sha, s, schedule[0]);
        FinderCountsPresent(sha, s1, pid, c, schedule[1..]);
        if k :| 0 <= k <= |schedule| - 1 && CountedPresent(After(sha, s1, schedule[1..][..k]), pid, c) {
          assert schedule[..k + 1][1..] == schedule[1..][..k] && schedule[..k + 1][0] == schedule[0];
        }
      } else {
        assert schedule[..1][1..] == [] && schedule[..1][0] == schedule[0];
        assert After(sha, s, schedule[..1]) == s1;
      }
    }
  }

  // ---- raised errors and temporary files ----

  /** A raised error stores and counts nothing, and ends the call at its entry, once its temporary file is dealt with. */
  lemma RaisedFails(sha: Bytes -> Text, fs: Fs, c: Call)
    ensures var r := StepCall(sha, fs, c, Raise);
            && r.0 == fs && r.2.Quiet?
            && (if c.pc.Finished? then r.1 == c
                else if Holds(c.pc) && !c.pc.CleanTemp? then r.1 == At(c, CleanTemp(c.pc.temp))
                else r.1 == At(c, Failed))
  {
  }

  /** A call lets go of its temporary file only by removing it, except when it lost the link or the removal raised. */
  lemma TempsAreRemoved(sha: Bytes -> Text, fs: Fs, c: Call, choice: Choice)
    requires Holds(c.pc)
    ensures var r := StepCall(sha, fs, c, choice);
            (Holds(r.1.pc) && r.1.pc.temp == c.pc.temp)
            || TempName(c.pc.temp) !in r.0.names
            || (c.pc.LinkTemp? && Target(sha, c) in fs.names && r.1.pc == OpenExisting(true))
            || (c.pc.CleanTemp? && choice.Raise?)
  {
    hide Matches, ManifestBytes, Target;
  }
}
