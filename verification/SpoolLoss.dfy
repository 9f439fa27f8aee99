/** What a host loss can take from a spool: exactly when it takes a line, and the runs in
    which it does. */
module SpoolLoss {
  import opened Utf8
  import opened Values
  import opened SpoolFile
  import opened SpoolLog
  import opened LineSafety
  import opened Spool
  import opened SpoolSafety
  import opened Durability

  // ---- When the lines are safe -------------------------------------------------------

  /** Neither directory entry can be forgotten. */
  predicate Anchored(d: Disk) {
    d.events.Durable? && d.spool.Durable?
  }

  ghost predicate LosesNoLine(mode: Mode, s: State) {
    forall e: Event | e.LoseHost? && Enabled(s, e) ::
      Lines(Cached(Do(mode, s, e).disk.file)) == Lines(Cached(s.disk.file))
  }

  /** A host loss in this state takes no complete line, whatever it leaves, exactly when no
      unsynced operation touches a complete line and the file, if it has a line at all, can
      be reached through durable entries. */
  lemma LosesNoLineIff(mode: Mode, s: State)
    requires Inv(mode, s)
    ensures LosesNoLine(mode, s) <==>
      Settled(s.disk.file.durable, s.disk.file.pending) && (Lines(Cached(s.disk.file)) == [] || Anchored(s.disk))
  {
    var f := s.disk.file;
    SettledCached(f);
    if !Settled(f.durable, f.pending) {
      LossShows(mode, s);
    } else if Lines(Cached(f)) == [] || Anchored(s.disk) {
      forall e: Event | e.LoseHost? && Enabled(s, e)
        ensures Lines(Cached(Do(mode, s, e).disk.file)) == Lines(Cached(f))
      {
        LossLeaves(mode, s, e);
      }
    } else {
      EntryLost(mode, s);
    }
  }

  /** What is left repairs to the same content. */
  lemma LossLeaves(mode: Mode, s: State, e: Event)
    requires e.LoseHost? && Enabled(s, e) && (Lines(Cached(s.disk.file)) == [] || Anchored(s.disk))
    requires AllRepairTo(s.disk.file.durable, s.disk.file.pending, Repaired(Cached(s.disk.file)))
    ensures Lines(Cached(Do(mode, s, e).disk.file)) == Lines(Cached(s.disk.file))
  {
    LinesDetermine(e.left, Cached(s.disk.file));
  }

  lemma LossShows(mode: Mode, s: State)
    requires EntriesInv(mode, s)
    requires !AllRepairTo(s.disk.file.durable, s.disk.file.pending, Repaired(Cached(s.disk.file)))
    ensures !LosesNoLine(mode, s)
  {
    var f := s.disk.file;
    var x :| Survives(f.durable, f.pending, x) && Repaired(x) != Repaired(Cached(f));
    var e := LoseHost(true, true, x);
    LinesDetermine(x, Cached(f));
    assert Enabled(s, e) && Cached(Do(mode, s, e).disk.file) == x;
  }

  lemma EntryLost(mode: Mode, s: State)
    requires EntriesInv(mode, s) && Lines(Cached(s.disk.file)) != [] && !Anchored(s.disk)
    ensures !LosesNoLine(mode, s)
  {
    var e := LoseHost(s.disk.events.Durable?, false, []);
    assert Enabled(s, e) && Lines(Cached(Do(mode, s, e).disk.file)) == [];
  }

  /** A crash may come in every state: the death of a writer wherever it is, with any part of
      a line it was writing in the file, and a host loss that leaves any surviving image, or
      no file wherever an entry was not durable. */
  lemma CrashesAnywhere(s: State, k: nat, x: ByteString)
    ensures !s.pc.Idle? ==> Enabled(s, Die)
    ensures s.pc.Writing? && k <= |Line(s.pc.record)| ==> Enabled(s, DieWriting(k)) && Enabled(s, WriteFails(k))
    ensures !s.disk.events.Absent? && !s.disk.spool.Absent? && Survives(s.disk.file.durable, s.disk.file.pending, x) ==>
      Enabled(s, LoseHost(true, true, x))
    ensures !s.disk.events.Durable? ==> Enabled(s, LoseHost(false, false, []))
    ensures s.disk.events.Durable? && !s.disk.spool.Durable? ==> Enabled(s, LoseHost(true, false, []))
  {
  }

  // ---- Reachable states --------------------------------------------------------------

  ghost predicate Reachable(mode: Mode, s: State) {
    exists es :: Legal(mode, Init(), es) && Run(mode, Init(), es) == s
  }

  lemma ReachInit(mode: Mode)
    ensures Reachable(mode, Init())
  {
    assert Legal(mode, Init(), []) && Run(mode, Init(), []) == Init();
  }

  lemma Reach(mode: Mode, s: State, e: Event)
    requires Reachable(mode, s) && Enabled(s, e)
    ensures Reachable(mode, Do(mode, s, e))
  {
    var es :| Legal(mode, Init(), es) && Run(mode, Init(), es) == s;
    RunSnoc(mode, Init(), es, e);
  }

  /** The disk once an Open has committed both entries. */
  function Committed(mode: Mode, d: Disk): Disk {
    d.(events := SyncedEntry(mode, Made(d.events)), spool := SyncedEntry(mode, Made(d.spool)))
  }

  lemma ReachEntries(mode: Mode, s: State)
    requires Reachable(mode, s) && s.pc.Idle?
    ensures Reachable(mode, s.(pc := EntrySynced, disk := Committed(mode, s.disk)))
  {
    var d1 := s.disk.(events := Made(s.disk.events));
    var d2 := d1.(events := SyncedEntry(mode, d1.events));
    var d3 := d2.(spool := Made(d2.spool));
    Reach(mode, s, Acquire);
    Reach(mode, s.(pc := Guarded), MkdirEvents);
    Reach(mode, s.(pc := DirMade, disk := d1), SyncRoot);
    Reach(mode, s.(pc := RootSynced, disk := d2), OpenEvents);
    Reach(mode, s.(pc := FileOpen, disk := d3), SyncEvents);
  }

  /** Open over an empty or newline-terminated file. */
  lemma ReachReady(mode: Mode, s: State)
    requires Reachable(mode, s) && s.pc.Idle? && Framed(Cached(s.disk.file))
    ensures Reachable(mode, State(Committed(mode, s.disk), Ready, Opened(s.log)))
  {
    var s1 := s.(pc := EntrySynced, disk := Committed(mode, s.disk));
    var img := Cached(s.disk.file);
    ReachEntries(mode, s);
    Reach(mode, s1, Stat);
    if img != [] {
      Reach(mode, s1.(pc := Sized(|img|)), ReadLast);
    }
  }

  lemma ReachWritten(mode: Mode, s: State, r: ByteString)
    requires Reachable(mode, s) && s.pc.Ready? && s.log != [] && Framable(r)
    ensures Reachable(mode, State(s.disk.(file := Pend(s.disk.file, Write(Line(r)))), Written(r), Submitted(s.log, r)))
  {
    Reach(mode, s, Submit(r));
    Reach(mode, s.(pc := Writing(r), log := Submitted(s.log, r)), WriteLine);
  }

  // ---- Runs that lose a line ---------------------------------------------------------

  /** The disk with one line that was written and never synced. */
  function Unsynced(entry: Entry, r: ByteString): Disk {
    Disk(entry, entry, File([], [Write(Line(r))]))
  }

  function EntryOf(mode: Mode): Entry {
    SyncedEntry(mode, Volatile)
  }

  lemma UnsyncedLines(entry: Entry, r: ByteString)
    requires Framable(r)
    ensures Cached(Unsynced(entry, r).file) == Line(r) && Framed(Line(r)) && Lines(Line(r)) == [r] && Lines([]) == []
  {
    CachedDo(File([], []), Write(Line(r)));
    assert [] + [Write(Line(r))] == [Write(Line(r))];
    assert [] + Line(r) == Line(r);
    FramableNoLF(r);
    LinesStep([], r);
    assert Lines([]) + [r] == [r];
  }

  lemma ReachFirstLine(mode: Mode, r: ByteString)
    requires Framable(r)
    ensures Reachable(mode, State(Unsynced(EntryOf(mode), r), Written(r), [Incarnation([], Just(r))]))
  {
    var d := Committed(mode, Init().disk);
    ReachInit(mode);
    ReachReady(mode, Init());
    assert Opened([]) == [Incarnation([], Nothing)] && Submitted(Opened([]), r) == [Incarnation([], Just(r))];
    ReachWritten(mode, State(d, Ready, Opened([])), r);
    assert d.file.pending + [Write(Line(r))] == [Write(Line(r))];
  }

  /** Open can succeed over a complete line that is not durable: the run is an append whose
      sync fails, Close, and Open again, which finds a newline at the end and does not sync.
      A host loss then takes the line. */
  lemma OpenLeavesLineUnsynced(r: ByteString)
    requires Framable(r)
    ensures var s := State(Unsynced(Durable, r), Ready, [Incarnation([], Just(r)), Incarnation([], Nothing)]);
      var e := LoseHost(true, true, []);
      && Reachable(Mode.HostLoss, s) && Lines(Cached(s.disk.file)) == [r]
      && Enabled(s, e) && Lines(Cached(Do(Mode.HostLoss, s, e).disk.file)) == []
  {
    var m := Mode.HostLoss;
    var d, log := Unsynced(Durable, r), [Incarnation([], Just(r))];
    UnsyncedLines(Durable, r);
    ReachFirstLine(m, r);
    Reach(m, State(d, Written(r), log), SyncFails);
    Reach(m, State(d, Broken, log), CloseEvents);
    Reach(m, State(d, Closing, log), Release);
    ReachReady(m, State(d, Idle, log));
    assert Opened(log) == [Incarnation([], Just(r)), Incarnation([], Nothing)];
    assert Committed(m, d) == d;
  }

  /** At process-crash strength a host loss can take an acknowledged record: the run is a
      first Open and one successful append. */
  lemma ProcessCrashLosesOnHostLoss(r: ByteString)
    requires Framable(r)
    ensures exists es ::
      (Legal(Mode.ProcessCrash, Init(), es)
       && AckedIn(Mode.ProcessCrash, Init(), es) == [r]
       && Lines(Cached(Run(Mode.ProcessCrash, Init(), es).disk.file)) == [])
  {
    var m, done := Mode.ProcessCrash, [Incarnation([r], Nothing)];
    FirstAcknowledged(r);
    var e := LoseHost(false, false, []);
    Reach(m, State(Unsynced(Volatile, r), Ready, done), e);
    var s := State(Disk(Absent, Absent, File([], [])), Idle, done);
    var es :| Legal(m, Init(), es) && Run(m, Init(), es) == s;
    AckedAreLogged(m, Init(), es);
    OneAcked(r);
    assert [] + AckedIn(m, Init(), es) == AckedIn(m, Init(), es);
  }

  lemma FirstAcknowledged(r: ByteString)
    requires Framable(r)
    ensures Reachable(Mode.ProcessCrash, State(Unsynced(Volatile, r), Ready, [Incarnation([r], Nothing)]))
  {
    var log := [Incarnation([], Just(r))];
    ReachFirstLine(Mode.ProcessCrash, r);
    OneAcked(r);
    Reach(Mode.ProcessCrash, State(Unsynced(Volatile, r), Written(r), log), SyncLine);
  }

  lemma OneAcked(r: ByteString)
    ensures Acknowledged([Incarnation([], Just(r))]) == [Incarnation([r], Nothing)]
    ensures AllAcked([Incarnation([r], Nothing)]) == [r]
  {
    var log := [Incarnation([r], Nothing)];
    assert [] + [r] == [r];
    assert log[..0] == [] && AllAcked(log) == AllAcked([]) + [r];
  }

  /** Repair need not converge: after such an Open the process dies in the middle of its
      next write, another Open cuts the fragment off, and a host loss before the sync of the
      cut takes the complete line with it. */
  lemma RepairNeedNotConverge(r: ByteString, q: ByteString)
    requires Framable(r) && Framable(q)
    ensures exists s: State ::
      (Reachable(Mode.HostLoss, s) && s.pc.Truncated? && Cached(s.disk.file) == Line(r)
       && Enabled(s, LoseHost(true, true, []))
       && Repaired(Cached(Do(Mode.HostLoss, s, LoseHost(true, true, [])).disk.file)) == [])
  {
    var m := Mode.HostLoss;
    var s := State(Unsynced(Durable, r), Ready, [Incarnation([], Just(r)), Incarnation([], Nothing)]);
    UnsyncedLines(Durable, r);
    OpenLeavesLineUnsynced(r);
    Reach(m, s, Submit(q));
    var s1 := s.(pc := Writing(q), log := Submitted(s.log, q));
    Reach(m, s1, DieWriting(1));
    var torn := s.disk.(file := Pend(s.disk.file, Write(Line(q)[..1])));
    CachedDo(s.disk.file, Write(Line(q)[..1]));
    var s2 := State(torn, Idle, s1.log);
    TornImage(r, q);
    ReachCut(m, s2, |Line(r)|);
    var s3 := State(torn.(file := Pend(torn.file, Truncate(|Line(r)|))), Truncated, s1.log);
    CachedDo(torn.file, Truncate(|Line(r)|));
    assert Committed(m, torn) == torn;
    assert (Line(r) + Line(q)[..1])[..|Line(r)|] == Line(r);
    assert Reachable(m, s3) && Survives([], s3.disk.file.pending, []);
    assert Enabled(s3, LoseHost(true, true, []));
  }

  lemma TornImage(r: ByteString, q: ByteString)
    requires Framable(r) && Framable(q)
    ensures var img := Line(r) + Line(q)[..1]; !Framed(img) && Repaired(img) == Line(r)
  {
    FramableNoLF(q);
    assert Line(q)[0] == q[0] && q[0] in q;
    assert Line(q)[..1] == [q[0]];
    RepairedOver(Line(r), [q[0]]);
  }

  /** Open over a torn tail up to the cut. */
  lemma ReachCut(mode: Mode, s: State, n: nat)
    requires Reachable(mode, s) && s.pc.Idle? && !Framed(Cached(s.disk.file))
    requires n == |Repaired(Cached(s.disk.file))|
    ensures var d := Committed(mode, s.disk);
      Reachable(mode, State(d.(file := Pend(d.file, Truncate(n))), Truncated, s.log))
  {
    var s1 := s.(pc := EntrySynced, disk := Committed(mode, s.disk));
    var img := Cached(s.disk.file);
    ReachEntries(mode, s);
    Reach(mode, s1, Stat);
    Reach(mode, s1.(pc := Sized(|img|)), ReadLast);
    Reach(mode, s1.(pc := Scanning(|img|)), ReadChunk(|img|));
    ChunkStep(img, |img|, |img|);
    Reach(mode, s1.(pc := Scanned(n - 1)), TruncateTail);
  }
}
