/** Any number of processes interleaving at single system calls on one source: the writer
    lock of internal/spool/writer.go, and the refinement to the sequential spool. */
module SpoolConcurrent {
  import opened Utf8
  import opened SpoolFile
  import opened SpoolLog
  import opened Spool
  import opened Durability
  import opened SpoolSafety
  import opened SpoolGrowth

  type Pid = nat
  type Inode = nat

  datatype Handle = Closed | Open(inode: Inode)

  /** A process: its descriptor on the lock file and where it is in the writer's code. Idle
      with an open descriptor means the file is opened and not yet locked. */
  datatype Process = Process(lock: Handle, pc: Pc)

  /** lockEntry is what the lock path names; owner the advisory locks, by inode. */
  datatype World = World(
    disk: Disk, log: Log,
    lockEntry: Handle, nextInode: Inode, owner: map<Inode, Pid>,
    procs: map<Pid, Process>)

  datatype Action =
    | OpenLock(p: Pid)
    | Flock(p: Pid)
    | FlockFails(p: Pid)
    | Call(p: Pid, e: Event)
    | Unlock(p: Pid)
    | Death(p: Pid, e: Event)
    | PowerCut(e: Event, lockStays: bool)

  function Start(): World {
    World(Init().disk, [], Closed, 0, map[], map[])
  }

  function Proc(w: World, p: Pid): Process {
    if p in w.procs then w.procs[p] else Process(Closed, Idle)
  }

  /** The system calls of a process that holds the lock, apart from dropping it. */
  predicate HolderCall(e: Event) {
    !e.Acquire? && !e.Release? && !e.Die? && !e.DieWriting? && !e.LoseHost?
  }

  ghost predicate Can(w: World, a: Action) {
    match a
    case OpenLock(p) => Proc(w, p) == Process(Closed, Idle)
    case Flock(p) => Proc(w, p).lock.Open? && Proc(w, p).pc.Idle? && Proc(w, p).lock.inode !in w.owner
    case FlockFails(p) => Proc(w, p).lock.Open? && Proc(w, p).pc.Idle?
    case Call(p, e) => HolderCall(e) && !Proc(w, p).pc.Idle? && Enabled(View(w, p), e)
    case Unlock(p) => Proc(w, p).pc.Closing?
    case Death(p, e) => (e.Die? || e.DieWriting?) && (Proc(w, p).pc.Idle? || Enabled(View(w, p), e))
    case PowerCut(e, _) => e.LoseHost? && Enabled(State(w.disk, Idle, w.log), e)
  }

  /** The shared spool as process p sees it. */
  function View(w: World, p: Pid): State {
    State(w.disk, Proc(w, p).pc, w.log)
  }

  /** The kernel drops a closed descriptor's lock. */
  function Dropped(w: World, p: Pid): map<Inode, Pid> {
    if Proc(w, p).lock.Open? && Proc(w, p).lock.inode in w.owner && w.owner[Proc(w, p).lock.inode] == p
    then w.owner - {Proc(w, p).lock.inode}
    else w.owner
  }

  ghost function Act(mode: Mode, w: World, a: Action): World
    requires Can(w, a)
  {
    match a
    case OpenLock(p) =>
      if w.lockEntry.Open? then w.(procs := w.procs[p := Process(w.lockEntry, Idle)])
      else w.(lockEntry := Open(w.nextInode), nextInode := w.nextInode + 1, procs := w.procs[p := Process(Open(w.nextInode), Idle)])
    case Flock(p) =>
      w.(owner := w.owner[Proc(w, p).lock.inode := p], procs := w.procs[p := Proc(w, p).(pc := Guarded)])
    case FlockFails(p) =>
      w.(procs := w.procs[p := Process(Closed, Idle)])
    case Call(p, e) =>
      var s := Do(mode, View(w, p), e);
      w.(disk := s.disk, log := s.log, procs := w.procs[p := Proc(w, p).(pc := s.pc)])
    case Unlock(p) =>
      w.(owner := Dropped(w, p), procs := w.procs[p := Process(Closed, Idle)])
    case Death(p, e) =>
      var disk := if Proc(w, p).pc.Idle? then w.disk else Do(mode, View(w, p), e).disk;
      w.(disk := disk, owner := Dropped(w, p), procs := w.procs[p := Process(Closed, Idle)])
    case PowerCut(e, lockStays) =>
      w.(disk := Do(mode, State(w.disk, Idle, w.log), e).disk, owner := map[], procs := map[],
         lockEntry := if lockStays then w.lockEntry else Closed)
  }

  // ---- Mutual exclusion --------------------------------------------------------------

  /** Every open descriptor is on the inode the path names, and a process is in the
      writer's code exactly while it owns that inode's lock. */
  ghost predicate Guard(w: World) {
    && (forall p | p in w.procs && w.procs[p].lock.Open? :: w.procs[p].lock == w.lockEntry)
    && (forall p | p in w.procs :: !w.procs[p].pc.Idle? <==> Owns(w, p))
    && (forall i | i in w.owner :: w.owner[i] in w.procs && w.procs[w.owner[i]].lock == Open(i))
  }

  predicate Owns(w: World, p: Pid) {
    Proc(w, p).lock.Open? && Proc(w, p).lock.inode in w.owner && w.owner[Proc(w, p).lock.inode] == p
  }

  lemma StartGuard()
    ensures Guard(Start())
  {
  }

  lemma ActKeepsGuard(mode: Mode, w: World, a: Action)
    requires Guard(w) && Can(w, a)
    ensures Guard(Act(mode, w, a))
  {
    match a
    case Call(p, e) => CallStays(mode, View(w, p), e);
    case _ =>
  }

  lemma CallStays(mode: Mode, s: State, e: Event)
    requires !s.pc.Idle? && HolderCall(e) && Enabled(s, e)
    ensures !Do(mode, s, e).pc.Idle?
  {
  }

  /** At most one live process is anywhere in the writer's code. */
  lemma AtMostOneHolder(w: World, p: Pid, q: Pid)
    requires Guard(w) && !Proc(w, p).pc.Idle? && !Proc(w, q).pc.Idle?
    ensures p == q
  {
  }

  /** Only the lock's owner, or the loss of the host, changes the file or its entries. */
  lemma OnlyTheHolderWrites(mode: Mode, w: World, a: Action)
    requires Guard(w) && Can(w, a) && Act(mode, w, a).disk != w.disk
    ensures a.PowerCut? || ((a.Call? || a.Death?) && Owns(w, a.p))
  {
  }

  // ---- Refinement --------------------------------------------------------------------

  /** Where the holder is, if there is one. */
  function HolderPc(w: World): Pc {
    if w.lockEntry.Open? && w.lockEntry.inode in w.owner then Proc(w, w.owner[w.lockEntry.inode]).pc else Idle
  }

  function Abstract(w: World): State {
    State(w.disk, HolderPc(w), w.log)
  }

  /** What an action is in the sequential spool. */
  function Image(w: World, a: Action): seq<Event> {
    match a
    case Flock(_) => [Acquire]
    case Call(_, e) => [e]
    case Unlock(_) => [Release]
    case Death(p, e) => if Proc(w, p).pc.Idle? then [] else [e]
    case PowerCut(e, _) => [e]
    case _ => []
  }

  lemma HolderSeen(w: World, p: Pid)
    requires Guard(w)
    ensures !Proc(w, p).pc.Idle? ==> HolderPc(w) == Proc(w, p).pc
  {
  }

  lemma ActRefines(mode: Mode, w: World, a: Action)
    requires Guard(w) && Can(w, a)
    ensures Legal(mode, Abstract(w), Image(w, a))
    ensures Run(mode, Abstract(w), Image(w, a)) == Abstract(Act(mode, w, a))
  {
    var w1 := Act(mode, w, a);
    ActKeepsGuard(mode, w, a);
    var es := Image(w, a);
    if es != [] {
      assert es[1..] == [];
      match a
      case Flock(p) => HolderSeen(w1, p);
      case Call(p, e) => HolderSeen(w, p); CallStays(mode, View(w, p), e); HolderSeen(w1, p);
      case Unlock(p) => HolderSeen(w, p);
      case Death(p, e) => HolderSeen(w, p);
      case PowerCut(e, _) => PowerCutRefines(mode, w, e);
    }
  }

  lemma PowerCutRefines(mode: Mode, w: World, e: Event)
    requires e.LoseHost? && Enabled(State(w.disk, Idle, w.log), e)
    ensures Enabled(Abstract(w), e) && Do(mode, Abstract(w), e) == Do(mode, State(w.disk, Idle, w.log), e)
  {
  }

  ghost predicate Feasible(mode: Mode, w: World, acts: seq<Action>)
    decreases |acts|
  {
    acts == [] || (Can(w, acts[0]) && Feasible(mode, Act(mode, w, acts[0]), acts[1..]))
  }

  ghost function After(mode: Mode, w: World, acts: seq<Action>): World
    requires Feasible(mode, w, acts)
    decreases |acts|
  {
    if acts == [] then w else After(mode, Act(mode, w, acts[0]), acts[1..])
  }

  /** The sequential run behind a concurrent one. */
  ghost function Project(mode: Mode, w: World, acts: seq<Action>): seq<Event>
    requires Feasible(mode, w, acts)
    decreases |acts|
  {
    if acts == [] then [] else Image(w, acts[0]) + Project(mode, Act(mode, w, acts[0]), acts[1..])
  }

  /** Every concurrent run refines a sequential run of the spool, and keeps the guard. */
  lemma {:induction false} Refines(mode: Mode, w: World, acts: seq<Action>)
    requires Guard(w) && Feasible(mode, w, acts)
    ensures Guard(After(mode, w, acts))
    ensures Legal(mode, Abstract(w), Project(mode, w, acts))
    ensures Run(mode, Abstract(w), Project(mode, w, acts)) == Abstract(After(mode, w, acts))
    decreases |acts|
  {
    if acts != [] {
      var w1 := Act(mode, w, acts[0]);
      ActRefines(mode, w, acts[0]);
      ActKeepsGuard(mode, w, acts[0]);
      Refines(mode, w1, acts[1..]);
      LegalConcat(mode, Abstract(w), Image(w, acts[0]), Project(mode, w1, acts[1..]));
    }
  }

  lemma {:induction false} LegalConcat(mode: Mode, s: State, a: seq<Event>, b: seq<Event>)
    requires Legal(mode, s, a) && Legal(mode, Run(mode, s, a), b)
    ensures Legal(mode, s, a + b) && Run(mode, s, a + b) == Run(mode, Run(mode, s, a), b)
    decreases |a|
  {
    if a == [] {
      assert a + b == b;
    } else {
      assert (a + b)[0] == a[0] && (a + b)[1..] == a[1..] + b;
      LegalConcat(mode, Do(mode, s, a[0]), a[1..], b);
    }
  }

  /** The records acknowledged in a concurrent run, in that order. */
  ghost function AckedBy(mode: Mode, acts: seq<Action>): seq<ByteString>
    requires Feasible(mode, Start(), acts)
  {
    StartGuard();
    assert Abstract(Start()) == Init();
    Refines(mode, Start(), acts);
    AckedIn(mode, Init(), Project(mode, Start(), acts))
  }

  /** Some process gave r to Append. */
  ghost predicate SubmittedBy(acts: seq<Action>, r: ByteString) {
    exists p :: Call(p, Submit(r)) in acts
  }

  lemma {:induction false} ProjectSubmits(mode: Mode, w: World, acts: seq<Action>, r: ByteString)
    requires Feasible(mode, w, acts) && SubmittedIn(Project(mode, w, acts), r)
    ensures SubmittedBy(acts, r)
    decreases |acts|
  {
    if acts != [] {
      var w1 := Act(mode, w, acts[0]);
      if Submit(r) in Image(w, acts[0]) {
        assert acts[0] == Call(acts[0].p, Submit(r));
      } else {
        ProjectSubmits(mode, w1, acts[1..], r);
        var p :| Call(p, Submit(r)) in acts[1..];
        assert Call(p, Submit(r)) in acts;
      }
    }
  }

  /** In every reachable world, whatever the interleaving, the crashes and the lock files
      forgotten by a host loss: one holder at most; each incarnation contributes its
      acknowledged records and at most its one doubtful record after them; the acknowledged
      ones are there in order, and nothing that was not submitted. */
  lemma ConcurrentSafety(mode: Mode, acts: seq<Action>)
    requires Feasible(mode, Start(), acts)
    requires mode.HostLoss? || forall i | 0 <= i < |acts| :: !acts[i].PowerCut?
    ensures var w := After(mode, Start(), acts);
      var lines := Lines(Cached(w.disk.file));
      && (forall p, q :: !Proc(w, p).pc.Idle? && !Proc(w, q).pc.Idle? ==> p == q)
      && (exists keep: seq<bool> :: |keep| == |w.log| && lines == Kept(w.log, keep))
      && Subsequence(AckedBy(mode, acts), lines)
      && forall r | r in lines :: SubmittedBy(acts, r)
  {
    StartGuard();
    assert Abstract(Start()) == Init();
    Refines(mode, Start(), acts);
    ProjectCovered(mode, Start(), acts);
    LinesAreRecords(mode, Project(mode, Start(), acts));
    LinesAreKept(mode, Project(mode, Start(), acts));
    var w := After(mode, Start(), acts);
    forall p, q | !Proc(w, p).pc.Idle? && !Proc(w, q).pc.Idle? ensures p == q {
      AtMostOneHolder(w, p, q);
    }
    forall r | r in Lines(Cached(w.disk.file)) ensures SubmittedBy(acts, r) {
      ProjectSubmits(mode, Start(), acts, r);
    }
  }

  /** Whatever any processes do after an append has succeeded, the whole file as it then was
      stays the beginning of the file. */
  lemma ConcurrentFileStays(mode: Mode, acts: seq<Action>, p: Pid, more: seq<Action>)
    requires Feasible(mode, Start(), acts) && Can(After(mode, Start(), acts), Call(p, SyncLine))
    requires Feasible(mode, Act(mode, After(mode, Start(), acts), Call(p, SyncLine)), more)
    requires mode.HostLoss? || forall i | 0 <= i < |acts + more| :: !(acts + more)[i].PowerCut?
    ensures var w1 := Act(mode, After(mode, Start(), acts), Call(p, SyncLine));
      Keeps(w1.disk.file, After(mode, w1, more).disk.file)
  {
    var w := After(mode, Start(), acts);
    var w1 := Act(mode, w, Call(p, SyncLine));
    assert forall i | 0 <= i < |acts| :: acts[i] == (acts + more)[i];
    assert forall i | 0 <= i < |more| :: more[i] == (acts + more)[|acts| + i];
    StartGuard();
    InitInv(mode);
    assert Abstract(Start()) == Init();
    Refines(mode, Start(), acts);
    ProjectCovered(mode, Start(), acts);
    RunKeepsInv(mode, Init(), Project(mode, Start(), acts));
    HolderSeen(w, p);
    ActRefines(mode, w, Call(p, SyncLine));
    ActKeepsGuard(mode, w, Call(p, SyncLine));
    Refines(mode, w1, more);
    ProjectCovered(mode, w1, more);
    SyncImage(mode, Abstract(w));
    AckedThen(mode, Abstract(w), Project(mode, w1, more));
  }

  lemma SyncImage(mode: Mode, s: State)
    requires Legal(mode, s, [SyncLine])
    ensures Enabled(s, SyncLine) && Run(mode, s, [SyncLine]) == Do(mode, s, SyncLine)
  {
    assert [SyncLine][1..] == [];
  }

  lemma {:induction false} ProjectCovered(mode: Mode, w: World, acts: seq<Action>)
    requires Feasible(mode, w, acts)
    requires mode.HostLoss? || forall i | 0 <= i < |acts| :: !acts[i].PowerCut?
    ensures Covered(mode, Project(mode, w, acts))
    decreases |acts|
  {
    if acts != [] {
      ProjectCovered(mode, Act(mode, w, acts[0]), acts[1..]);
    }
  }
}
