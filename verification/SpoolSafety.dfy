/** The spool's invariant over every run, and what it means for the lines in the file. */
module SpoolSafety {
  import opened Utf8
  import opened Values
  import opened SpoolFile
  import opened SpoolLog
  import opened LineSafety
  import opened Spool
  import opened Durability

  // ---- Steps that leave the file and the history alone -------------------------------

  predicate Quiet(e: Event) {
    e.Acquire? || e.MkdirEvents? || e.SyncRoot? || e.OpenEvents? || e.SyncEvents? || e.OpenFails?
    || e.SyncFails? || e.CloseEvents? || e.Release? || e.Die?
  }

  lemma QuietKeepsFile(mode: Mode, s: State, e: Event)
    requires Enabled(s, e) && Quiet(e)
    ensures Do(mode, s, e).disk.file == s.disk.file && Do(mode, s, e).log == s.log && PcInv(Do(mode, s, e))
  {
  }

  lemma QuietKeepsEntries(mode: Mode, s: State, e: Event)
    requires EntriesInv(mode, s) && Enabled(s, e) && Quiet(e)
    ensures EntriesInv(mode, Do(mode, s, e))
  {
  }

  lemma QuietStep(mode: Mode, s: State, e: Event)
    requires Inv(mode, s) && Enabled(s, e) && Quiet(e)
    ensures Inv(mode, Do(mode, s, e))
  {
    QuietKeepsFile(mode, s, e);
    QuietKeepsEntries(mode, s, e);
  }

  lemma ReadStep(mode: Mode, s: State, e: Event)
    requires Inv(mode, s) && Enabled(s, e) && e.ReadChunk?
    ensures Inv(mode, Do(mode, s, e))
  {
    ChunkStep(Cached(s.disk.file), s.pc.end, e.chunk);
    assert Do(mode, s, e) == s.(pc := AfterChunk(Cached(s.disk.file), s.pc.end, e.chunk));
  }

  /** Reading one chunk keeps the scan's knowledge: it finds the last newline or moves back. */
  lemma ChunkStep(img: ByteString, end: nat, chunk: nat)
    requires 0 < chunk && 0 < end <= |img| && forall i | end <= i < |img| :: img[i] != LF
    ensures match AfterChunk(img, end, chunk)
      case Scanned(newline) => newline + 1 == |Repaired(img)|
      case Scanning(start) => 0 < start < end && forall i | start <= i < |img| :: img[i] != LF
      case _ => false
  {
    var start := if end <= chunk then 0 else end - chunk;
    var index := NewlineBefore(img, start, end);
    if index >= 0 || start == 0 {
      RepairedAt(img, index + 1);
    }
  }

  // ---- Opening -----------------------------------------------------------------------

  /** A new incarnation contributes nothing yet. */
  lemma OpenedStep(mode: Mode, f: File, log: Log)
    requires FileInv(mode, f, log)
    ensures FileInv(mode, f, Opened(log))
    ensures Opened(log) != [] && Last(Opened(log)) == Incarnation([], Nothing)
  {
    FaithfulOpened(Cached(f), log);
    if mode.HostLoss? {
      forall img | Survives(f.durable, f.pending, img) ensures Faithful(img, Opened(log)) {
        FaithfulOpened(img, log);
      }
    }
  }

  lemma StatStep(mode: Mode, s: State, e: Event)
    requires Inv(mode, s) && Enabled(s, e) && (e.Stat? || e.ReadLast?)
    ensures Inv(mode, Do(mode, s, e))
  {
    var img := Cached(s.disk.file);
    if img == [] || (e.ReadLast? && img[s.pc.size - 1] == LF) {
      OpenedStep(mode, s.disk.file, s.log);
      ReadyInv(mode, s, Do(mode, s, e));
    } else if e.ReadLast? {
      assert Do(mode, s, e) == s.(pc := Scanning(|img|));
    } else {
      assert Do(mode, s, e) == s.(pc := Sized(|img|));
    }
  }

  /** A framed file is ready for appends. */
  lemma ReadyInv(mode: Mode, s: State, s1: State)
    requires Inv(mode, s) && (s.pc.EntrySynced? || s.pc.Sized?) && Framed(Cached(s.disk.file))
    requires s1 == s.(pc := Ready, log := Opened(s.log))
    requires FileInv(mode, s.disk.file, s1.log)
    ensures Inv(mode, s1)
  {
  }

  /** Repairing a faithful image leaves the same lines. */
  lemma RepairedFaithful(img: ByteString, log: Log)
    requires Faithful(img, log)
    ensures Faithful(Repaired(img), log)
  {
    RepairIdempotent(img);
  }

  lemma TruncateStep(mode: Mode, s: State, e: Event)
    requires Inv(mode, s) && Enabled(s, e) && e.TruncateTail?
    ensures Inv(mode, Do(mode, s, e))
  {
    TruncatedFile(mode, s.disk.file, s.log, s.pc.newline + 1);
    CutKeepsEntries(mode, s);
  }

  lemma CutKeepsEntries(mode: Mode, s: State)
    requires EntriesInv(mode, s) && Enabled(s, TruncateTail)
    ensures EntriesInv(mode, Do(mode, s, TruncateTail))
  {
  }

  /** Cutting the torn tail off loses no line, in the cache or after a host loss. */
  lemma TruncatedFile(mode: Mode, f: File, log: Log, n: nat)
    requires FileInv(mode, f, log) && n == |Repaired(Cached(f))|
    ensures FileInv(mode, Pend(f, Truncate(n)), log)
    ensures Cached(Pend(f, Truncate(n))) == Repaired(Cached(f))
  {
    var op := Truncate(n);
    CachedDo(f, op);
    assert Cached(f)[..n] == Repaired(Cached(f));
    RepairedFaithful(Cached(f), log);
    if mode.HostLoss? {
      forall x | Survives(f.durable, f.pending + [op], x) ensures Faithful(x, log) {
        SurvivesDo(f.durable, f.pending, op, x);
      }
    }
  }

  /** A sync makes the cached image the only one a host loss can leave. */
  lemma SyncedStep(mode: Mode, f: File, log: Log)
    requires FileInv(mode, f, log)
    ensures Cached(SyncedFile(mode, f)) == Cached(f) && FileInv(mode, SyncedFile(mode, f), log)
  {
  }

  lemma RepairStep(mode: Mode, s: State, e: Event)
    requires Inv(mode, s) && Enabled(s, e) && e.SyncRepair?
    ensures Inv(mode, Do(mode, s, e))
  {
    SyncedStep(mode, s.disk.file, s.log);
    OpenedStep(mode, SyncedFile(mode, s.disk.file), s.log);
  }

  // ---- Appending ---------------------------------------------------------------------

  lemma SubmitStep(mode: Mode, s: State, e: Event)
    requires Inv(mode, s) && Enabled(s, e) && e.Submit?
    ensures Inv(mode, Do(mode, s, e))
  {
    var f, r := s.disk.file, e.record;
    FramableNoLF(r);
    SubmittedLog(s.log, r);
    FaithfulSubmitted(Cached(f), s.log, r);
    if mode.HostLoss? {
      forall img | Survives(f.durable, f.pending, img) ensures Faithful(img, Submitted(s.log, r)) {
        FaithfulSubmitted(img, s.log, r);
      }
    }
  }

  lemma SubmittedLog(log: Log, r: ByteString)
    requires LineFree(log) && log != [] && LF !in r
    ensures LineFree(Submitted(log, r)) && Last(Submitted(log, r)).tail == Just(r) && Submitted(log, r) != []
  {
  }

  /** Writing any part of the line, the whole of it included. */
  lemma WriteStep(mode: Mode, s: State, k: nat)
    requires Inv(mode, s) && s.pc.Writing? && k <= |Line(s.pc.record)|
    ensures var f1 := Pend(s.disk.file, Write(Line(s.pc.record)[..k]));
      Cached(f1) == Cached(s.disk.file) + Line(s.pc.record)[..k] && FileInv(mode, f1, s.log)
  {
    var f, line := s.disk.file, Line(s.pc.record);
    var op := Write(line[..k]);
    CachedDo(f, op);
    PartOfLine(Cached(f), s.log, k);
    if mode.HostLoss? {
      forall x | Survives(f.durable, f.pending + [op], x) ensures Faithful(x, s.log) {
        SurvivesDo(f.durable, f.pending, op, x);
        if CutWrite(Cached(f), op, x) {
          CutLine(Cached(f), s.log, k, x);
        }
      }
    }
  }

  /** A line cut once by the write and once more by the loss. */
  lemma CutLine(img: ByteString, log: Log, k: nat, x: ByteString)
    requires log != [] && Last(log).tail.Just? && Framed(img) && LF !in Last(log).tail.record
    requires FaithfulWithout(img, log) && k <= |Line(Last(log).tail.record)|
    requires CutWrite(img, Write(Line(Last(log).tail.record)[..k]), x)
    ensures Faithful(x, log)
  {
    var line := Line(Last(log).tail.record);
    var j :| 0 <= j <= k && x == img + line[..k][..j];
    assert line[..k][..j] == line[..j];
    PartOfLine(img, log, j);
  }

  lemma AppendKeepsEntries(mode: Mode, s: State, e: Event)
    requires EntriesInv(mode, s) && Enabled(s, e) && (e.WriteLine? || e.WriteFails? || e.DieWriting?)
    ensures EntriesInv(mode, Do(mode, s, e))
  {
  }

  lemma AppendStep(mode: Mode, s: State, e: Event)
    requires Inv(mode, s) && Enabled(s, e) && (e.WriteLine? || e.WriteFails? || e.DieWriting?)
    ensures Inv(mode, Do(mode, s, e))
  {
    AppendKeepsEntries(mode, s, e);
    var line := Line(s.pc.record);
    assert line[..|line|] == line;
    WriteStep(mode, s, if e.WriteLine? then |line| else e.written);
    if e.WriteLine? {
      WholeLine(Cached(s.disk.file), s.log);
    }
  }

  lemma AckStep(mode: Mode, s: State, e: Event)
    requires Inv(mode, s) && Enabled(s, e) && e.SyncLine?
    ensures Inv(mode, Do(mode, s, e))
  {
    AckKeepsEntries(mode, s);
    AckedFile(mode, s.disk.file, s.log);
    AcknowledgedLog(s.log);
  }

  lemma AckKeepsEntries(mode: Mode, s: State)
    requires EntriesInv(mode, s) && Enabled(s, SyncLine)
    ensures EntriesInv(mode, Do(mode, s, SyncLine))
  {
  }

  lemma AckedFile(mode: Mode, f: File, log: Log)
    requires LineFree(log) && EndsWithTail(Cached(f), log) && Last(log).tail.Just?
    ensures FileInv(mode, SyncedFile(mode, f), Acknowledged(log)) || !mode.HostLoss?
    ensures Faithful(Cached(f), Acknowledged(log)) && Framed(Cached(f)) && Cached(SyncedFile(mode, f)) == Cached(f)
  {
    EndsWithTailFaithful(Cached(f), log);
    AcknowledgedFaithful(Cached(f), log);
    AcknowledgedLog(log);
  }

  lemma AcknowledgedLog(log: Log)
    requires LineFree(log) && log != [] && Last(log).tail.Just?
    ensures LineFree(Acknowledged(log)) && Acknowledged(log) != [] && Last(Acknowledged(log)).tail.Nothing?
  {
  }

  // ---- Host loss ---------------------------------------------------------------------

  lemma LossStep(mode: Mode, s: State, e: Event)
    requires Inv(mode, s) && Enabled(s, e) && e.LoseHost? && mode.HostLoss?
    ensures Inv(mode, Do(mode, s, e))
  {
    assert forall img | Survives(e.left, [], img) :: img == e.left;
    if !e.spoolStays {
      assert s.log == [];
      InitInv(mode);
    }
  }

  /** Every step keeps the invariant; below host-loss mode, every step but a host loss. */
  lemma StepKeepsInv(mode: Mode, s: State, e: Event)
    requires Inv(mode, s) && Enabled(s, e) && (mode.HostLoss? || !e.LoseHost?)
    ensures Inv(mode, Do(mode, s, e))
  {
    if Quiet(e) { QuietStep(mode, s, e); }
    else if e.ReadChunk? { ReadStep(mode, s, e); }
    else if e.Stat? || e.ReadLast? { StatStep(mode, s, e); }
    else if e.TruncateTail? { TruncateStep(mode, s, e); }
    else if e.SyncRepair? { RepairStep(mode, s, e); }
    else if e.Submit? { SubmitStep(mode, s, e); }
    else if e.SyncLine? { AckStep(mode, s, e); }
    else if e.LoseHost? { LossStep(mode, s, e); }
    else { AppendStep(mode, s, e); }
  }

  /** A spool may go on at process-crash strength what it began at host-loss strength. */
  lemma ModeMayWeaken(s: State)
    requires Inv(Mode.HostLoss, s)
    ensures Inv(Mode.ProcessCrash, s)
  {
  }

  /** What the mode was probed to survive happens in the run, and nothing worse. */
  predicate Covered(mode: Mode, es: seq<Event>) {
    mode.HostLoss? || forall i | 0 <= i < |es| :: !es[i].LoseHost?
  }

  lemma {:induction false} RunKeepsInv(mode: Mode, s: State, es: seq<Event>)
    requires Inv(mode, s) && Legal(mode, s, es) && Covered(mode, es)
    ensures Inv(mode, Run(mode, s, es))
    decreases |es|
  {
    if es != [] {
      StepKeepsInv(mode, s, es[0]);
      RunKeepsInv(mode, Do(mode, s, es[0]), es[1..]);
    }
  }

  // ---- The laws ----------------------------------------------------------------------

  /** Over every run, the complete lines of the spool are, incarnation by incarnation, the
      acknowledged records in order followed by at most one submitted record in doubt. */
  lemma LinesAreKept(mode: Mode, es: seq<Event>)
    requires Legal(mode, Init(), es) && Covered(mode, es)
    ensures var s := Run(mode, Init(), es);
      exists keep: seq<bool> :: |keep| == |s.log| && Lines(Cached(s.disk.file)) == Kept(s.log, keep)
  {
    InitInv(mode);
    RunKeepsInv(mode, Init(), es);
    var s := Run(mode, Init(), es);
    FaithfulLines(Cached(s.disk.file), s.log);
  }

  /** The records whose appends returned success in a run, in that order. */
  ghost function AckedIn(mode: Mode, s: State, es: seq<Event>): seq<ByteString>
    requires Legal(mode, s, es)
    decreases |es|
  {
    if es == [] then []
    else
      (if es[0].SyncLine? then [Last(s.log).tail.record] else [])
      + AckedIn(mode, Do(mode, s, es[0]), es[1..])
  }

  /** The records given to Append in a run. */
  predicate SubmittedIn(es: seq<Event>, r: ByteString) {
    Submit(r) in es
  }

  function AllAcked(log: Log): seq<ByteString> {
    if log == [] then [] else AllAcked(log[..|log| - 1]) + log[|log| - 1].acked
  }

  predicate Recorded(log: Log, r: ByteString) {
    exists i | 0 <= i < |log| :: r in log[i].acked || log[i].tail == Just(r)
  }

  lemma AckedStep(mode: Mode, s: State, e: Event)
    requires Enabled(s, e)
    ensures AllAcked(Do(mode, s, e).log) == AllAcked(s.log) + if e.SyncLine? then [Last(s.log).tail.record] else []
  {
    var l1 := Do(mode, s, e).log;
    if l1 != s.log {
      var n := |s.log| - 1;
      if l1 == Opened(s.log) {
        assert l1[..|s.log|] == s.log;
      } else {
        assert l1[..n] == s.log[..n];
      }
    }
  }

  lemma AssocRecords(a: seq<ByteString>, b: seq<ByteString>, c: seq<ByteString>)
    ensures a + (b + c) == (a + b) + c
  {
  }

  lemma {:induction false} AckedAreLogged(mode: Mode, s: State, es: seq<Event>)
    requires Legal(mode, s, es)
    ensures AllAcked(Run(mode, s, es).log) == AllAcked(s.log) + AckedIn(mode, s, es)
    decreases |es|
  {
    if es == [] {
      assert AllAcked(s.log) + [] == AllAcked(s.log);
    } else {
      var s1 := Do(mode, s, es[0]);
      AckedStep(mode, s, es[0]);
      AckedAreLogged(mode, s1, es[1..]);
      AssocRecords(AllAcked(s.log), if es[0].SyncLine? then [Last(s.log).tail.record] else [], AckedIn(mode, s1, es[1..]));
    }
  }

  lemma RecordedStep(mode: Mode, s: State, e: Event, r: ByteString)
    requires Enabled(s, e) && Recorded(Do(mode, s, e).log, r)
    ensures Recorded(s.log, r) || e == Submit(r)
  {
    var l0, l1 := s.log, Do(mode, s, e).log;
    var i :| 0 <= i < |l1| && (r in l1[i].acked || l1[i].tail == Just(r));
    if l1 != l0 && i == |l1| - 1 && l1 != Opened(l0) {
      assert l1[i].acked == Last(l0).acked || l1[i].acked == Last(l0).acked + [Last(l0).tail.record];
      assert e != Submit(r) ==> r in l0[i].acked || l0[i].tail == Just(r);
    } else if i < |l0| {
      assert r in l0[i].acked || l0[i].tail == Just(r);
    }
  }

  lemma {:induction false} RecordedWasSubmitted(mode: Mode, s: State, es: seq<Event>, r: ByteString)
    requires Legal(mode, s, es) && Recorded(Run(mode, s, es).log, r)
    ensures Recorded(s.log, r) || SubmittedIn(es, r)
    decreases |es|
  {
    if es != [] {
      RecordedWasSubmitted(mode, Do(mode, s, es[0]), es[1..], r);
      if Recorded(Do(mode, s, es[0]).log, r) {
        RecordedStep(mode, s, es[0], r);
      } else {
        assert Submit(r) in es[1..];
      }
    }
  }

  /** a can be had from b by deleting elements. */
  predicate Subsequence<T(==)>(a: seq<T>, b: seq<T>)
    decreases |b|
  {
    if b == [] then a == []
    else Subsequence(a, b[..|b| - 1]) || (a != [] && a[|a| - 1] == b[|b| - 1] && Subsequence(a[..|a| - 1], b[..|b| - 1]))
  }

  lemma {:induction false} SubsequenceExtend(a: seq<ByteString>, b: seq<ByteString>, c: seq<ByteString>)
    requires Subsequence(a, b)
    ensures Subsequence(a + c, b + c)
    decreases |c|
  {
    if c == [] {
      assert a + c == a && b + c == b;
    } else {
      var n := |c| - 1;
      SubsequenceExtend(a, b, c[..n]);
      assert (a + c)[..|a + c| - 1] == a + c[..n] && (b + c)[..|b + c| - 1] == b + c[..n];
    }
  }

  lemma {:induction false} AckedAmongKept(log: Log, keep: seq<bool>)
    requires |keep| == |log|
    ensures Subsequence(AllAcked(log), Kept(log, keep))
  {
    if log != [] {
      var n := |log| - 1;
      AckedAmongKept(log[..n], keep[..n]);
      var a, b := AllAcked(log[..n]), Kept(log[..n], keep[..n]);
      SubsequenceExtend(a, b, log[n].acked);
      var t := b + log[n].acked;
      if keep[n] && log[n].tail.Just? {
        var u := t + [log[n].tail.record];
        assert u[..|u| - 1] == t;
        assert Kept(log, keep) == u;
      } else {
        assert log[n].acked + [] == log[n].acked;
        assert Kept(log, keep) == t;
      }
    }
  }

  lemma {:induction false} KeptRecorded(log: Log, keep: seq<bool>, r: ByteString)
    requires |keep| == |log| && r in Kept(log, keep)
    ensures Recorded(log, r)
  {
    if log != [] {
      var n := |log| - 1;
      if r in Kept(log[..n], keep[..n]) {
        KeptRecorded(log[..n], keep[..n], r);
        var i :| 0 <= i < n && (r in log[..n][i].acked || log[..n][i].tail == Just(r));
        assert log[..n][i] == log[i];
      } else {
        assert r in Records(log[n], keep[n]);
      }
    }
  }

  /** The same told by the events: whatever crashes and failures a run holds, the lines of
      the file contain every acknowledged record in the order of acknowledgement, and each
      line is byte for byte a record some Append was given. */
  lemma LinesAreRecords(mode: Mode, es: seq<Event>)
    requires Legal(mode, Init(), es) && Covered(mode, es)
    ensures var lines := Lines(Cached(Run(mode, Init(), es).disk.file));
      && Subsequence(AckedIn(mode, Init(), es), lines)
      && forall r | r in lines :: SubmittedIn(es, r)
  {
    LinesAreKept(mode, es);
    var s := Run(mode, Init(), es);
    var keep: seq<bool> :| |keep| == |s.log| && Lines(Cached(s.disk.file)) == Kept(s.log, keep);
    AckedAreLogged(mode, Init(), es);
    AckedAmongKept(s.log, keep);
    assert [] + AckedIn(mode, Init(), es) == AckedIn(mode, Init(), es);
    forall r | r in Kept(s.log, keep) ensures SubmittedIn(es, r) {
      KeptRecorded(s.log, keep, r);
      RecordedWasSubmitted(mode, Init(), es, r);
    }
  }

  lemma {:induction false} LogNeverShrinks(mode: Mode, s: State, es: seq<Event>)
    requires Legal(mode, s, es)
    ensures |s.log| <= |Run(mode, s, es).log|
    decreases |es|
  {
    if es != [] {
      LogNeverShrinks(mode, Do(mode, s, es[0]), es[1..]);
    }
  }

  lemma {:induction false} RunConcat(mode: Mode, s: State, es: seq<Event>, more: seq<Event>)
    requires Legal(mode, s, es + more)
    ensures Legal(mode, s, es) && Legal(mode, Run(mode, s, es), more)
    ensures Run(mode, s, es + more) == Run(mode, Run(mode, s, es), more)
    decreases |es|
  {
    if es == [] {
      assert es + more == more;
    } else {
      assert (es + more)[0] == es[0] && (es + more)[1..] == es[1..] + more;
      RunConcat(mode, Do(mode, s, es[0]), es[1..], more);
    }
  }

  /** Once an Open has returned a writer, the file stays reachable from the spool root
      through every later host loss: both directory entries are on disk for good. */
  lemma OpenMakesReachable(es: seq<Event>, more: seq<Event>)
    requires Legal(Mode.HostLoss, Init(), es + more)
    ensures Legal(Mode.HostLoss, Init(), es)
    ensures Run(Mode.HostLoss, Init(), es).log != [] ==>
      var d := Run(Mode.HostLoss, Init(), es + more).disk; d.events.Durable? && d.spool.Durable?
  {
    RunConcat(Mode.HostLoss, Init(), es, more);
    InitInv(Mode.HostLoss);
    RunKeepsInv(Mode.HostLoss, Init(), es + more);
    LogNeverShrinks(Mode.HostLoss, Run(Mode.HostLoss, Init(), es), more);
  }
}
