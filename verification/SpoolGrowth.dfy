/** The spool only grows behind an acknowledgement: no byte that was in the file when an
    append returned success ever changes or moves. */
module SpoolGrowth {
  import opened Utf8
  import opened SpoolFile
  import opened SpoolLog
  import opened Spool
  import opened SpoolSafety
  import opened Durability

  /** The file begins with p, and at host-loss strength so does whatever may be left of it. */
  ghost predicate BeginsWith(mode: Mode, f: File, p: ByteString) {
    p <= Cached(f) && (mode.HostLoss? ==> forall x | Survives(f.durable, f.pending, x) :: p <= x)
  }

  ghost predicate Rooted(mode: Mode, d: Disk, p: ByteString) {
    BeginsWith(mode, d.file, p) && (mode.HostLoss? ==> d.events.Durable? && d.spool.Durable?)
  }

  lemma PendKeeps(mode: Mode, f: File, p: ByteString, op: FileOp)
    requires BeginsWith(mode, f, p) && (op.Truncate? ==> |p| <= op.length)
    ensures BeginsWith(mode, Pend(f, op), p)
  {
    CachedDo(f, op);
    if mode.HostLoss? {
      forall x | Survives(f.durable, f.pending + [op], x) ensures p <= x {
        SurvivesDo(f.durable, f.pending, op, x);
      }
    }
  }

  lemma SyncKeeps(mode: Mode, f: File, p: ByteString)
    requires BeginsWith(mode, f, p)
    ensures BeginsWith(mode, SyncedFile(mode, f), p)
  {
  }

  /** Steps that leave the file alone never un-anchor it. */
  lemma EntriesKeep(mode: Mode, s: State, e: Event, p: ByteString)
    requires Enabled(s, e) && Rooted(mode, s.disk, p) && Do(mode, s, e).disk.file == s.disk.file && !e.LoseHost?
    ensures Rooted(mode, Do(mode, s, e).disk, p)
  {
  }

  lemma CutKeeps(mode: Mode, s: State, p: ByteString)
    requires PcInv(s) && Enabled(s, TruncateTail) && Rooted(mode, s.disk, p) && Framed(p)
    ensures Rooted(mode, Do(mode, s, TruncateTail).disk, p)
  {
    PrefixRepaired(p, Cached(s.disk.file));
    PendKeeps(mode, s.disk.file, p, Truncate(s.pc.newline + 1));
  }

  lemma WriteKeeps(mode: Mode, s: State, e: Event, p: ByteString)
    requires Enabled(s, e) && (e.WriteLine? || e.WriteFails? || e.DieWriting?) && Rooted(mode, s.disk, p)
    ensures Rooted(mode, Do(mode, s, e).disk, p)
  {
    var line := Line(s.pc.record);
    PendKeeps(mode, s.disk.file, p, Write(if e.WriteLine? then line else line[..e.written]));
  }

  lemma StepKeepsPrefix(mode: Mode, s: State, e: Event, p: ByteString)
    requires Inv(mode, s) && Enabled(s, e) && (mode.HostLoss? || !e.LoseHost?)
    requires Rooted(mode, s.disk, p) && Framed(p)
    ensures Rooted(mode, Do(mode, s, e).disk, p)
  {
    if e.TruncateTail? { CutKeeps(mode, s, p); }
    else if e.WriteLine? || e.WriteFails? || e.DieWriting? { WriteKeeps(mode, s, e, p); }
    else if e.SyncLine? || e.SyncRepair? { SyncKeeps(mode, s.disk.file, p); }
    else if e.LoseHost? { assert forall x | Survives(e.left, [], x) :: x == e.left; }
    else { EntriesKeep(mode, s, e, p); }
  }

  lemma {:induction false} RunKeepsPrefix(mode: Mode, s: State, es: seq<Event>, p: ByteString)
    requires Inv(mode, s) && Legal(mode, s, es) && Covered(mode, es)
    requires Rooted(mode, s.disk, p) && Framed(p)
    ensures Rooted(mode, Run(mode, s, es).disk, p)
    decreases |es|
  {
    if es != [] {
      StepKeepsInv(mode, s, es[0]);
      StepKeepsPrefix(mode, s, es[0], p);
      RunKeepsPrefix(mode, Do(mode, s, es[0]), es[1..], p);
    }
  }

  /** The file as an append's success left it: complete, and at host-loss strength all there
      is to survive. */
  lemma AckedImage(mode: Mode, s: State)
    requires Inv(mode, s) && Enabled(s, SyncLine)
    ensures var d := Do(mode, s, SyncLine).disk; Framed(Cached(d.file)) && Rooted(mode, d, Cached(d.file))
  {
    EndsWithTailFaithful(Cached(s.disk.file), s.log);
    SyncedBegins(mode, s.disk.file);
    EntriesRooted(mode, s);
  }

  lemma SyncedBegins(mode: Mode, f: File)
    ensures Cached(SyncedFile(mode, f)) == Cached(f) && (mode.HostLoss? ==> BeginsWith(mode, SyncedFile(mode, f), Cached(f)))
  {
    assert forall x | Survives(Cached(f), [], x) :: x == Cached(f);
  }

  lemma EntriesRooted(mode: Mode, s: State)
    requires EntriesInv(mode, s) && Enabled(s, SyncLine)
    ensures Do(mode, s, SyncLine).disk == s.disk.(file := SyncedFile(mode, s.disk.file))
    ensures mode.HostLoss? ==> s.disk.events.Durable? && s.disk.spool.Durable?
  {
  }

  /** Whatever follows a successful append, through any failures, reopens and crashes, the
      whole file as it then was stays, byte for byte, the beginning of the file, and its
      lines stay the first lines. */
  lemma AcknowledgedFileStays(mode: Mode, es: seq<Event>, more: seq<Event>)
    requires Legal(mode, Init(), es + ([SyncLine] + more)) && Covered(mode, es) && Covered(mode, more)
    ensures Legal(mode, Init(), es)
    ensures var s := Run(mode, Init(), es);
      && Enabled(s, SyncLine) && Legal(mode, Do(mode, s, SyncLine), more)
      && Run(mode, Init(), es + ([SyncLine] + more)) == Run(mode, Do(mode, s, SyncLine), more)
      && Keeps(Do(mode, s, SyncLine).disk.file, Run(mode, Do(mode, s, SyncLine), more).disk.file)
  {
    RunConcat(mode, Init(), es, [SyncLine] + more);
    InitInv(mode);
    RunKeepsInv(mode, Init(), es);
    var s := Run(mode, Init(), es);
    assert ([SyncLine] + more)[0] == SyncLine && ([SyncLine] + more)[1..] == more;
    AckedThen(mode, s, more);
  }

  /** All of the first file stays at the beginning of the second, and so do its lines. */
  ghost predicate Keeps(f: File, later: File) {
    Cached(f) <= Cached(later) && Lines(Cached(f)) <= Lines(Cached(later))
  }

  lemma AckedThen(mode: Mode, s: State, more: seq<Event>)
    requires Inv(mode, s) && Enabled(s, SyncLine) && Legal(mode, Do(mode, s, SyncLine), more) && Covered(mode, more)
    ensures Keeps(Do(mode, s, SyncLine).disk.file, Run(mode, Do(mode, s, SyncLine), more).disk.file)
  {
    var s1 := Do(mode, s, SyncLine);
    AckedImage(mode, s);
    StepKeepsInv(mode, s, SyncLine);
    RunKeepsPrefix(mode, s1, more, Cached(s1.disk.file));
    LinesGrow(Cached(s1.disk.file), Cached(Run(mode, s1, more).disk.file));
  }
}
