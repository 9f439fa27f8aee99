/** The single-writer spool as a state machine, one step a system call: Open, tail repair,
    Append and Close of internal/spool/writer.go, process death and host loss. */
module Spool {
  import opened Utf8
  import opened Values
  import opened SpoolFile
  import opened SpoolLog
  import opened LineSafety
  import opened Durability

  /** A directory entry: not there, only in the cache, or on disk. */
  datatype Entry = Absent | Volatile | Durable

  /** events is the entry of the events directory in the spool root, spool the entry of the
      source's file in it. */
  datatype Disk = Disk(events: Entry, spool: Entry, file: File)

  /** Where the writing process is. */
  datatype Pc =
    | Idle                        // holds nothing
    | Guarded                     // holds the writer lock
    | DirMade | RootSynced | FileOpen | EntrySynced
    | Sized(size: nat) | Scanning(end: nat) | Scanned(newline: int) | Truncated
    | Ready
    | Writing(record: ByteString) | Written(record: ByteString)
    | Broken
    | Closing                     // the events file is closed, the lock still held

  datatype State = State(disk: Disk, pc: Pc, log: Log)

  datatype Event =
    | Acquire
    | MkdirEvents | SyncRoot | OpenEvents | SyncEvents
    | Stat | ReadLast | ReadChunk(chunk: nat) | TruncateTail | SyncRepair
    | OpenFails
    | Submit(record: ByteString)
    | WriteLine | WriteFails(written: nat) | SyncLine | SyncFails
    | CloseEvents | Release
    | Die | DieWriting(written: nat)
    | LoseHost(eventsStays: bool, spoolStays: bool, left: ByteString)

  function Init(): State {
    State(Disk(Absent, Absent, File([], [])), Idle, [])
  }

  predicate Opening(pc: Pc) {
    pc.Guarded? || pc.DirMade? || pc.RootSynced? || pc.FileOpen? || pc.EntrySynced?
    || pc.Sized? || pc.Scanning? || pc.Scanned? || pc.Truncated?
  }

  /** The offset of the last newline before n, -1 if there is none. */
  function NewlineBefore(img: ByteString, start: nat, n: nat): (r: int)
    requires start <= n <= |img|
    ensures r == -1 || (start <= r < n && img[r] == LF)
    ensures forall i | start <= i < n && r < i :: img[i] != LF
  {
    if n == start then -1 else if img[n - 1] == LF then n - 1 else NewlineBefore(img, start, n - 1)
  }

  ghost predicate Enabled(s: State, e: Event) {
    match e
    case Acquire => s.pc.Idle?
    case MkdirEvents => s.pc.Guarded?
    case SyncRoot => s.pc.DirMade?
    case OpenEvents => s.pc.RootSynced?
    case SyncEvents => s.pc.FileOpen?
    case Stat => s.pc.EntrySynced?
    case ReadLast => s.pc.Sized? && 0 < s.pc.size <= |Cached(s.disk.file)|
    case ReadChunk(chunk) => 0 < chunk && s.pc.Scanning? && 0 < s.pc.end <= |Cached(s.disk.file)|
    case TruncateTail => s.pc.Scanned? && s.pc.newline >= -1
    case SyncRepair => s.pc.Truncated?
    case OpenFails => Opening(s.pc)
    case Submit(r) => s.pc.Ready? && s.log != [] && Framable(r)
    case WriteLine => s.pc.Writing?
    case WriteFails(k) => s.pc.Writing? && k <= |Line(s.pc.record)|
    case SyncLine => s.pc.Written? && s.log != [] && Last(s.log).tail.Just?
    case SyncFails => s.pc.Written?
    case CloseEvents => s.pc.Ready? || s.pc.Broken?
    case Release => s.pc.Closing?
    case Die => !s.pc.Idle?
    case DieWriting(k) => s.pc.Writing? && k <= |Line(s.pc.record)|
    case LoseHost(eventsStays, spoolStays, left) =>
      && (s.disk.events.Durable? ==> eventsStays) && (s.disk.events.Absent? ==> !eventsStays)
      && (s.disk.spool.Durable? && eventsStays ==> spoolStays) && (s.disk.spool.Absent? || !eventsStays ==> !spoolStays)
      && (if spoolStays then Survives(s.disk.file.durable, s.disk.file.pending, left) else left == [])
  }

  /** A successful sync of the file or of a directory. Below host-loss mode it promises
      nothing about the platter. */
  function SyncedFile(mode: Mode, f: File): File {
    if mode.HostLoss? then File(Cached(f), []) else f
  }

  function SyncedEntry(mode: Mode, e: Entry): Entry {
    if mode.HostLoss? && e.Volatile? then Durable else e
  }

  function Made(e: Entry): Entry {
    if e.Absent? then Volatile else e
  }

  /** repairTail's way on once the end of the backward scan is known. */
  function AfterChunk(img: ByteString, end: nat, chunk: nat): Pc
    requires 0 < end <= |img| && 0 < chunk
  {
    var start := if end <= chunk then 0 else end - chunk;
    var index := NewlineBefore(img, start, end);
    if index >= 0 then Scanned(index) else if start == 0 then Scanned(-1) else Scanning(start)
  }

  /** The state after an event. */
  ghost function Do(mode: Mode, s: State, e: Event): State
    requires Enabled(s, e)
  {
    var d, f := s.disk, s.disk.file;
    match e
    case Acquire => s.(pc := Guarded)
    case MkdirEvents => s.(disk := d.(events := Made(d.events)), pc := DirMade)
    case SyncRoot => s.(disk := d.(events := SyncedEntry(mode, d.events)), pc := RootSynced)
    case OpenEvents => s.(disk := d.(spool := Made(d.spool)), pc := FileOpen)
    case SyncEvents => s.(disk := d.(spool := SyncedEntry(mode, d.spool)), pc := EntrySynced)
    case Stat =>
      if Cached(f) == [] then s.(pc := Ready, log := Opened(s.log)) else s.(pc := Sized(|Cached(f)|))
    case ReadLast =>
      if Cached(f)[s.pc.size - 1] == LF then s.(pc := Ready, log := Opened(s.log)) else s.(pc := Scanning(s.pc.size))
    case ReadChunk(chunk) => s.(pc := AfterChunk(Cached(f), s.pc.end, chunk))
    case TruncateTail => s.(disk := d.(file := Pend(f, Truncate(s.pc.newline + 1))), pc := Truncated)
    case SyncRepair => State(d.(file := SyncedFile(mode, f)), Ready, Opened(s.log))
    case OpenFails => s.(pc := Closing)
    case Submit(r) => s.(pc := Writing(r), log := Submitted(s.log, r))
    case WriteLine => s.(disk := d.(file := Pend(f, Write(Line(s.pc.record)))), pc := Written(s.pc.record))
    case WriteFails(k) => s.(disk := d.(file := Pend(f, Write(Line(s.pc.record)[..k]))), pc := Broken)
    case SyncLine => State(d.(file := SyncedFile(mode, f)), Ready, Acknowledged(s.log))
    case SyncFails => s.(pc := Broken)
    case CloseEvents => s.(pc := Closing)
    case Release => s.(pc := Idle)
    case Die => s.(pc := Idle)
    case DieWriting(k) => s.(disk := d.(file := Pend(f, Write(Line(s.pc.record)[..k]))), pc := Idle)
    case LoseHost(eventsStays, spoolStays, left) =>
      s.(disk := Disk(if eventsStays then Durable else Absent, if spoolStays then Durable else Absent, File(left, [])), pc := Idle)
  }

  /** A run: events, each enabled where it happens. */
  ghost predicate Legal(mode: Mode, s: State, es: seq<Event>)
    decreases |es|
  {
    es == [] || (Enabled(s, es[0]) && Legal(mode, Do(mode, s, es[0]), es[1..]))
  }

  ghost function Run(mode: Mode, s: State, es: seq<Event>): State
    requires Legal(mode, s, es)
    decreases |es|
  {
    if es == [] then s else Run(mode, Do(mode, s, es[0]), es[1..])
  }

  lemma {:induction false} RunSnoc(mode: Mode, s: State, es: seq<Event>, e: Event)
    requires Legal(mode, s, es) && Enabled(Run(mode, s, es), e)
    ensures Legal(mode, s, es + [e]) && Run(mode, s, es + [e]) == Do(mode, Run(mode, s, es), e)
    decreases |es|
  {
    if es == [] {
      assert [e][1..] == [];
    } else {
      assert (es + [e])[0] == es[0] && (es + [e])[1..] == es[1..] + [e];
      RunSnoc(mode, Do(mode, s, es[0]), es[1..], e);
    }
  }

  // ---- The invariant -----------------------------------------------------------------

  /** Every image a host loss may leave is faithful. */
  ghost predicate AllFaithful(f: File, log: Log) {
    forall img | Survives(f.durable, f.pending, img) :: Faithful(img, log)
  }

  ghost predicate EntriesInv(mode: Mode, s: State) {
    var d := s.disk;
    && (d.events.Absent? ==> d.spool.Absent?)
    && (d.spool.Absent? ==> d.file == File([], []))
    && (s.pc.DirMade? || s.pc.RootSynced? || PastOpen(s.pc) ==> !d.events.Absent?)
    && (PastOpen(s.pc) ==> !d.spool.Absent?)
    && (mode.HostLoss? && (s.pc.RootSynced? || PastOpen(s.pc) || s.log != []) ==> d.events.Durable?)
    && (mode.HostLoss? && ((PastOpen(s.pc) && !s.pc.FileOpen?) || s.log != []) ==> d.spool.Durable?)
  }

  predicate PastOpen(pc: Pc) {
    pc.FileOpen? || pc.EntrySynced? || pc.Sized? || pc.Scanning? || pc.Scanned? || pc.Truncated?
    || pc.Ready? || pc.Writing? || pc.Written? || pc.Broken?
  }

  ghost predicate PcInv(s: State) {
    var img := Cached(s.disk.file);
    match s.pc
    case Sized(size) => size == |img| > 0
    case Scanning(end) => 0 < end <= |img| && forall i | end <= i < |img| :: img[i] != LF
    case Scanned(newline) => newline + 1 == |Repaired(img)|
    case Truncated => Framed(img)
    case Ready => Framed(img) && s.log != [] && Last(s.log).tail.Nothing?
    case Writing(r) => Framed(img) && s.log != [] && Last(s.log).tail == Just(r) && FaithfulWithout(img, s.log)
    case Written(r) => s.log != [] && Last(s.log).tail == Just(r) && EndsWithTail(img, s.log)
    case _ => true
  }

  /** The file, and at host-loss strength whatever may be left of it, tells the history. */
  ghost predicate FileInv(mode: Mode, f: File, log: Log) {
    LineFree(log) && Faithful(Cached(f), log) && (mode.HostLoss? ==> AllFaithful(f, log))
  }

  ghost predicate Inv(mode: Mode, s: State) {
    && FileInv(mode, s.disk.file, s.log)
    && EntriesInv(mode, s)
    && PcInv(s)
  }

  lemma InitInv(mode: Mode)
    ensures Inv(mode, Init())
  {
    var none: seq<bool> := [];
    assert forall img | Survives([], [], img) :: img == [];
    assert Repaired([]) == LinesText(Kept([], none));
  }

  lemma CachedDo(f: File, op: FileOp)
    ensures Cached(Pend(f, op)) == Apply(Cached(f), op)
  {
    ApplyAllSnoc(f.durable, f.pending, op);
  }
}
