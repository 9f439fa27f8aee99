/** The lock is not too strong: when no process holds it, any process can take it, open the
    spool and append. */
module SpoolProgress {
  import opened Utf8
  import opened SpoolFile
  import opened SpoolLog
  import opened LineSafety
  import opened Spool
  import opened SpoolSafety
  import opened SpoolLoss
  import opened SpoolConcurrent
  import opened Durability

  // ---- One writer --------------------------------------------------------------------

  /** Calls of a lock's holder, each enabled where it happens, lead from s to t. */
  ghost predicate Advances(mode: Mode, s: State, t: State) {
    exists es :: Legal(mode, s, es) && Run(mode, s, es) == t && OnlyCalls(es)
  }

  predicate OnlyCalls(es: seq<Event>) {
    forall i | 0 <= i < |es| :: HolderCall(es[i])
  }

  lemma Stays(mode: Mode, s: State)
    ensures Advances(mode, s, s)
  {
    assert Legal(mode, s, []) && Run(mode, s, []) == s && OnlyCalls([]);
  }

  lemma Advance(mode: Mode, s: State, t: State, e: Event)
    requires Advances(mode, s, t) && Enabled(t, e) && HolderCall(e)
    ensures Advances(mode, s, Do(mode, t, e))
  {
    var es :| Legal(mode, s, es) && Run(mode, s, es) == t && OnlyCalls(es);
    RunSnoc(mode, s, es, e);
    assert OnlyCalls(es + [e]);
  }

  lemma AdvanceEntries(mode: Mode, s: State)
    requires s.pc.Guarded?
    ensures Advances(mode, s, s.(pc := EntrySynced, disk := Committed(mode, s.disk)))
  {
    var d1 := s.disk.(events := Made(s.disk.events));
    var d2 := d1.(events := SyncedEntry(mode, d1.events));
    var d3 := d2.(spool := Made(d2.spool));
    Stays(mode, s);
    Advance(mode, s, s, MkdirEvents);
    Advance(mode, s, s.(pc := DirMade, disk := d1), SyncRoot);
    Advance(mode, s, s.(pc := RootSynced, disk := d2), OpenEvents);
    Advance(mode, s, s.(pc := FileOpen, disk := d3), SyncEvents);
  }

  /** The file after a cut and its sync. */
  function CutFile(mode: Mode, f: File): File {
    SyncedFile(mode, Pend(f, Truncate(|Repaired(Cached(f))|)))
  }

  lemma CutCached(mode: Mode, f: File)
    ensures Cached(CutFile(mode, f)) == Repaired(Cached(f))
  {
    var n := |Repaired(Cached(f))|;
    CachedDo(f, Truncate(n));
    assert Cached(f)[..n] == Repaired(Cached(f));
  }

  /** The state once an Open has succeeded. */
  function OpenState(mode: Mode, s: State): State {
    var d := Committed(mode, s.disk);
    State(if Framed(Cached(d.file)) then d else d.(file := CutFile(mode, d.file)), Ready, Opened(s.log))
  }

  /** Under the lock an Open can always succeed. */
  lemma AdvanceOpen(mode: Mode, s: State)
    requires s.pc.Guarded?
    ensures Advances(mode, s, OpenState(mode, s))
  {
    var s1 := s.(pc := EntrySynced, disk := Committed(mode, s.disk));
    var img := Cached(s.disk.file);
    AdvanceEntries(mode, s);
    Advance(mode, s, s1, Stat);
    if img != [] {
      Advance(mode, s, s1.(pc := Sized(|img|)), ReadLast);
    }
    if !Framed(img) {
      AdvanceCut(mode, s, s1);
    }
  }

  lemma AdvanceCut(mode: Mode, s: State, s1: State)
    requires s1.pc.EntrySynced? && !Framed(Cached(s1.disk.file))
    requires Advances(mode, s, s1.(pc := Scanning(|Cached(s1.disk.file)|)))
    ensures Advances(mode, s, State(s1.disk.(file := CutFile(mode, s1.disk.file)), Ready, Opened(s1.log)))
  {
    var f := s1.disk.file;
    var img := Cached(f);
    var n := |Repaired(img)|;
    Advance(mode, s, s1.(pc := Scanning(|img|)), ReadChunk(|img|));
    ChunkStep(img, |img|, |img|);
    Advance(mode, s, s1.(pc := Scanned(n - 1)), TruncateTail);
    Advance(mode, s, s1.(pc := Truncated, disk := s1.disk.(file := Pend(f, Truncate(n)))), SyncRepair);
  }

  lemma OpenStateFile(mode: Mode, s: State)
    ensures Cached(OpenState(mode, s).disk.file) == Repaired(Cached(s.disk.file))
  {
    CutCached(mode, s.disk.file);
  }

  /** The state once an append has succeeded. */
  function AppendState(mode: Mode, s: State, r: ByteString): State
    requires s.log != []
  {
    State(s.disk.(file := SyncedFile(mode, Pend(s.disk.file, Write(Line(r))))), Ready, Acknowledged(Submitted(s.log, r)))
  }

  /** An open writer's append can always succeed. */
  lemma AdvanceAppend(mode: Mode, s: State, t: State, r: ByteString)
    requires Advances(mode, s, t) && t.pc.Ready? && t.log != [] && Framable(r)
    ensures Advances(mode, s, AppendState(mode, t, r))
  {
    var t1 := t.(pc := Writing(r), log := Submitted(t.log, r));
    Advance(mode, s, t, Submit(r));
    Advance(mode, s, t1, WriteLine);
    Advance(mode, s, t1.(pc := Written(r), disk := t.disk.(file := Pend(t.disk.file, Write(Line(r))))), SyncLine);
  }

  lemma AppendStateFile(mode: Mode, s: State, r: ByteString)
    requires s.log != [] && Framed(Cached(s.disk.file)) && Framable(r)
    ensures Lines(Cached(AppendState(mode, s, r).disk.file)) == Lines(Cached(s.disk.file)) + [r]
    ensures AllAcked(AppendState(mode, s, r).log) == AllAcked(s.log) + [r]
  {
    FramableNoLF(r);
    CachedDo(s.disk.file, Write(Line(r)));
    LinesStep(Cached(s.disk.file), r);
    var log, n := AppendState(mode, s, r).log, |s.log| - 1;
    assert log[..n] == s.log[..n];
    AssocRecords(AllAcked(s.log[..n]), s.log[n].acked, [r]);
  }

  // ---- Among processes ---------------------------------------------------------------

  predicate ByOne(acts: seq<Action>, p: Pid) {
    forall i | 0 <= i < |acts| :: !acts[i].PowerCut? && acts[i].p == p
  }

  ghost predicate Goes(mode: Mode, w: World, w1: World, p: Pid) {
    exists acts :: Feasible(mode, w, acts) && After(mode, w, acts) == w1 && ByOne(acts, p)
  }

  lemma {:induction false} FeasibleSnoc(mode: Mode, w: World, acts: seq<Action>, a: Action)
    requires Feasible(mode, w, acts) && Can(After(mode, w, acts), a)
    ensures Feasible(mode, w, acts + [a]) && After(mode, w, acts + [a]) == Act(mode, After(mode, w, acts), a)
    decreases |acts|
  {
    if acts == [] {
      assert [a][1..] == [];
    } else {
      assert (acts + [a])[0] == acts[0] && (acts + [a])[1..] == acts[1..] + [a];
      FeasibleSnoc(mode, Act(mode, w, acts[0]), acts[1..], a);
    }
  }

  lemma Go(mode: Mode, w: World, w1: World, p: Pid, a: Action)
    requires Goes(mode, w, w1, p) && Can(w1, a) && !a.PowerCut? && a.p == p
    ensures Goes(mode, w, Act(mode, w1, a), p)
  {
    var acts :| Feasible(mode, w, acts) && After(mode, w, acts) == w1 && ByOne(acts, p);
    FeasibleSnoc(mode, w, acts, a);
    assert ByOne(acts + [a], p);
  }

  /** What one writer can do, a process under the lock can do. */
  lemma {:induction false} GoRun(mode: Mode, w: World, w1: World, p: Pid, es: seq<Event>) returns (w2: World)
    requires Goes(mode, w, w1, p) && !Proc(w1, p).pc.Idle? && Legal(mode, View(w1, p), es) && OnlyCalls(es)
    ensures Goes(mode, w, w2, p) && View(w2, p) == Run(mode, View(w1, p), es)
    decreases |es|
  {
    w2 := w1;
    if es != [] {
      assert HolderCall(es[0]);
      CallStays(mode, View(w1, p), es[0]);
      Go(mode, w, w1, p, Call(p, es[0]));
      var next := Act(mode, w1, Call(p, es[0]));
      assert OnlyCalls(es[1..]);
      w2 := GoRun(mode, w, next, p, es[1..]);
    }
  }

  /** Nobody is in the writer's code. */
  predicate Free(w: World) {
    forall p | p in w.procs :: w.procs[p].pc.Idle?
  }

  lemma OwnerIsIn(w: World, i: Inode)
    requires Guard(w)
    ensures i in w.owner ==> w.owner[i] in w.procs && !w.procs[w.owner[i]].pc.Idle?
  {
    if i in w.owner {
      assert Owns(w, w.owner[i]);
    }
  }

  lemma FreeOwnsNothing(w: World)
    requires Guard(w) && Free(w)
    ensures forall i :: i !in w.owner
  {
    forall i ensures i !in w.owner {
      OwnerIsIn(w, i);
    }
  }

  /** Any process can take a lock that nobody holds. */
  lemma LockCanBeTaken(mode: Mode, w: World, p: Pid) returns (w1: World)
    requires Guard(w) && Free(w)
    ensures Goes(mode, w, w1, p) && View(w1, p) == State(w.disk, Guarded, w.log)
  {
    var none: seq<Action> := [];
    assert Feasible(mode, w, none) && After(mode, w, none) == w && ByOne(none, p);
    FreeOwnsNothing(w);
    w1 := w;
    if Proc(w, p).lock.Closed? {
      Go(mode, w, w, p, OpenLock(p));
      w1 := Act(mode, w, OpenLock(p));
    }
    assert Can(w1, Flock(p));
    Go(mode, w, w1, p, Flock(p));
    w1 := Act(mode, w1, Flock(p));
  }

  /** From every guarded world without a holder any process can open the spool and append
      any record Append accepts, by steps of its own alone: the record becomes the last line
      behind all complete ones and the last acknowledged one. */
  lemma AnyoneCanAppend(mode: Mode, w: World, p: Pid, r: ByteString) returns (w1: World)
    requires Guard(w) && Free(w) && Framable(r)
    ensures Goes(mode, w, w1, p) && Proc(w1, p).pc.Ready?
    ensures Lines(Cached(w1.disk.file)) == Lines(Cached(w.disk.file)) + [r]
    ensures AllAcked(w1.log) == AllAcked(w.log) + [r]
  {
    w1 := LockCanBeTaken(mode, w, p);
    var s := View(w1, p);
    var t := OpenState(mode, s);
    AdvanceOpen(mode, s);
    AdvanceAppend(mode, s, t, r);
    var es :| Legal(mode, s, es) && Run(mode, s, es) == AppendState(mode, t, r) && OnlyCalls(es);
    w1 := GoRun(mode, w, w1, p, es);
    OpenStateFile(mode, s);
    AppendStateFile(mode, t, r);
    LinesOfRepaired(Cached(s.disk.file));
    OpenAcked(s.log);
  }

  lemma OpenAcked(log: Log)
    ensures AllAcked(Opened(log)) == AllAcked(log)
  {
    assert Opened(log)[..|log|] == log;
  }
}
