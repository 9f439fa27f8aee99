/** The writer as the code runs it: Open, Append, Close and tail repair of
    internal/spool/writer.go over an operating system whose calls may fail in any way.
    Every method's execution is proved to be a run of the spool machine. */
module Writer {
  import opened Utf8
  import opened Values
  import opened LineSafety
  import opened SpoolFile
  import opened SpoolLog
  import opened Spool
  import opened SpoolSafety
  import opened Durability

  datatype AppendError = EmptyRecord | EmbeddedLineBreak | BrokenByWrite | BrokenBySync

  datatype Status = Intact | Refusing(error: AppendError)

  datatype AppendResult = Accepted | Rejected(error: AppendError)

  datatype OpenError = InvalidSource | UnprobedSyncer | ForeignRoot | LockUnavailable | EventsUnavailable | RepairFailed

  /** The events lead from a good state to another, with no host loss on the way. */
  ghost predicate Chronicle(mode: Mode, base: State, trace: seq<Event>, state: State) {
    && Inv(mode, base) && Legal(mode, base, trace) && Run(mode, base, trace) == state
    && forall i | 0 <= i < |trace| :: !trace[i].LoseHost?
  }

  lemma ChronicleSafe(mode: Mode, base: State, trace: seq<Event>, state: State)
    requires Chronicle(mode, base, trace, state)
    ensures Inv(mode, state)
  {
    RunKeepsInv(mode, base, trace);
  }

  lemma ChronicleSnoc(mode: Mode, base: State, trace: seq<Event>, state: State, e: Event)
    requires Chronicle(mode, base, trace, state) && Enabled(state, e) && !e.LoseHost?
    ensures Chronicle(mode, base, trace + [e], Do(mode, state, e))
  {
    RunSnoc(mode, base, trace, e);
  }

  /** How often the entry of the events file was synced. */
  function Entries(trace: seq<Event>): nat {
    if trace == [] then 0
    else Entries(trace[..|trace| - 1]) + if trace[|trace| - 1] == SyncEvents then 1 else 0
  }

  /** What happened on a host since base. */
  datatype Tale = Tale(mode: Mode, base: State, trace: seq<Event>, state: State, entries: nat)

  datatype Seal = Seal

  predicate Lifted(seal: Seal) { true }

  /** The tale is a chronicle, and counts its syncs of the entry of the events file. Most
      methods only hand this on: it says nothing until the seal is lifted. */
  ghost predicate Told(t: Tale) {
    forall seal: Seal :: Lifted(seal) ==>
      Chronicle(t.mode, t.base, t.trace, t.state) && t.entries == Entries(t.trace)
  }

  lemma Tell(t: Tale)
    requires Told(t)
    ensures Chronicle(t.mode, t.base, t.trace, t.state) && t.entries == Entries(t.trace)
  {
    assert Lifted(Seal);
  }

  lemma {:induction false} EntriesAdded(before: seq<Event>, es: seq<Event>)
    ensures Entries(before + es) >= Entries(before)
    ensures Entries(before + es) > Entries(before) <==> SyncEvents in es
    decreases |es|
  {
    if es == [] {
      assert before + es == before;
    } else {
      var n := |es| - 1;
      EntriesAdded(before, es[..n]);
      assert (before + es)[..|before| + n] == before + es[..n];
      assert es == es[..n] + [es[n]];
    }
  }

  /** Of two tales the longer counts more exactly when the entry was synced in between. */
  lemma AddedEntries(t: Tale, later: Tale)
    requires Told(t) && Told(later) && t.trace <= later.trace
    ensures later.entries > t.entries <==> SyncEvents in later.trace[|t.trace|..]
  {
    Tell(t);
    Tell(later);
    EntriesAdded(t.trace, later.trace[|t.trace|..]);
    assert t.trace + later.trace[|t.trace|..] == later.trace;
  }

  ghost function Continued(t: Tale, e: Event): (r: Tale)
    requires Told(t) && Enabled(t.state, e) && !e.LoseHost?
    ensures Told(r) && r.mode == t.mode && r.base == t.base
    ensures r.trace == t.trace + [e] && r.state == Do(t.mode, t.state, e)
    ensures r.entries == t.entries + if e == SyncEvents then 1 else 0
  {
    Tell(t);
    ChronicleSnoc(t.mode, t.base, t.trace, t.state, e);
    assert (t.trace + [e])[..|t.trace|] == t.trace;
    Tale(t.mode, t.base, t.trace + [e], Do(t.mode, t.state, e), t.entries + if e == SyncEvents then 1 else 0)
  }

  /** What an answered call has done to the disk: only a full barrier that succeeded moves
      anything to the platter. */
  function Flushed(d: Disk, c: Call): Disk {
    match c
    case Full(OnSpool(EventsFile, _), Done) => d.(file := File(Cached(d.file), []))
    case Full(OnSpool(RootDir, _), Done) => d.(events := if d.events.Volatile? then Durable else d.events)
    case Full(OnSpool(EventsDir, _), Done) => d.(spool := if d.spool.Volatile? then Durable else d.spool)
    case _ => d
  }

  /** One source's files as the operating system holds them while no other process may
      touch them, with the history of calls that led there. os has the recorded sync
      calls, the probe's among them. */
  class Host {
    const os: Platform
    var disk: Disk
    var events: Handle
    var regular: bool
    var eventsOpen: bool
    var lockOpen: bool
    ghost const mode: Mode
    ghost var story: Tale

    ghost predicate History()
      reads this
    {
      Told(story) && story.mode == mode
    }

    /** The files and descriptors are what the history says. */
    ghost predicate Valid()
      reads this
    {
      History() && Shows(story.state)
    }

    ghost predicate Shows(s: State)
      reads this
    {
      s.disk == disk && (lockOpen <==> !s.pc.Idle?) && (eventsOpen <==> PastOpen(s.pc))
    }

    constructor (mode: Mode, base: State, os: Platform)
      requires Inv(mode, base) && base.pc.Idle?
      ensures Valid() && this.mode == mode && this.os == os
      ensures story == Tale(mode, base, [], base, 0)
    {
      this.mode, this.os := mode, os;
      disk, story := base.disk, Tale(mode, base, [], base, 0);
      events, regular := ProbeFile, false;
      eventsOpen, lockOpen := false, false;
    }

    /** What an append can change. */
    ghost function Sight(): Sight
      reads this, os
    {
      Seen(disk.file, story.state.log, story.trace, os.calls)
    }

    lemma Safe()
      requires History()
      ensures Inv(mode, story.state)
    {
      Tell(story);
      ChronicleSafe(mode, story.base, story.trace, story.state);
    }

    /** Records that the last call was event e of the machine: the host must agree. */
    ghost method Note(e: Event)
      requires History() && Enabled(story.state, e) && !e.LoseHost? && Shows(Do(mode, story.state, e))
      modifies this`story
      ensures Valid() && story.base == old(story.base)
      ensures story.state == Do(mode, old(story.state), e) && story.trace == old(story.trace) + [e]
      ensures story.entries == old(story.entries) + if e == SyncEvents then 1 else 0
    {
      story := Continued(story, e);
    }

    // ---- System calls ----------------------------------------------------------------

    method Mkdir() returns (ok: bool)
      modifies this`disk, os`setbacks
      ensures disk == if ok then old(disk).(events := Made(old(disk).events)) else old(disk)
      ensures os.setbacks == Setback(old(os.setbacks), ok)
    {
      ok := *;
      os.Answer(ok);
      if ok { disk := disk.(events := Made(disk.events)); }
    }

    /** Opening the file settles what it is and which device it is on. */
    method OpenFile() returns (ok: bool)
      modifies this`disk, this`events, this`regular, this`eventsOpen, os`setbacks
      ensures disk == if ok then old(disk).(spool := Made(old(disk).spool)) else old(disk)
      ensures eventsOpen == (ok || old(eventsOpen))
      ensures events.OnSpool? && events.path == EventsFile
      ensures os.setbacks == Setback(old(os.setbacks), ok)
    {
      ok := *;
      os.Answer(ok);
      if ok { disk, eventsOpen := disk.(spool := Made(disk.spool)), true; }
      var device: int := *;
      events, regular := OnSpool(EventsFile, device), *;
    }

    method Write(data: ByteString) returns (ok: bool, ghost written: nat)
      modifies this`disk, os`setbacks
      ensures written <= |data| && (ok ==> data[..written] == data)
      ensures disk == old(disk).(file := Pend(old(disk).file, FileOp.Write(data[..written])))
      ensures os.setbacks == Setback(old(os.setbacks), ok)
    {
      ok := *;
      os.Answer(ok);
      var n: nat := |data|;
      if !ok { n :| 0 <= n <= |data|; }
      written := n;
      disk := disk.(file := Pend(disk.file, FileOp.Write(data[..n])));
    }

    /** The disk after the last recorded call. */
    method Settle()
      requires os.calls != []
      modifies this`disk
      ensures disk == Flushed(old(disk), os.calls[|os.calls| - 1])
    {
      disk := Flushed(disk, os.calls[|os.calls| - 1]);
    }

    method TruncateTo(n: nat) returns (ok: bool)
      modifies this`disk, os`setbacks
      ensures disk == if ok then old(disk).(file := Pend(old(disk).file, Truncate(n))) else old(disk)
      ensures os.setbacks == Setback(old(os.setbacks), ok)
    {
      ok := *;
      os.Answer(ok);
      if ok { disk := disk.(file := Pend(disk.file, Truncate(n))); }
    }

    method Size() returns (ok: bool, size: nat)
      modifies os`setbacks
      ensures ok ==> size == |Cached(disk.file)|
      ensures os.setbacks == Setback(old(os.setbacks), ok)
    {
      ok := *;
      os.Answer(ok);
      size := |Cached(disk.file)|;
    }

    /** ReadAt with a buffer for the bytes from start to end; a short read is an error. */
    method ReadAt(start: nat, end: nat) returns (ok: bool, data: ByteString)
      requires start <= end
      modifies os`setbacks
      ensures ok ==> end <= |Cached(disk.file)| && data == Cached(disk.file)[start..end]
      ensures os.setbacks == Setback(old(os.setbacks), ok)
    {
      ok := *;
      ok := ok && end <= |Cached(disk.file)|;
      os.Answer(ok);
      data := if ok then Cached(disk.file)[start..end] else [];
    }

    /** Whether the open events file is a regular file. */
    method StatEvents() returns (ok: bool)
      modifies os`setbacks
      ensures ok ==> regular
      ensures os.setbacks == Setback(old(os.setbacks), ok)
    {
      var known: bool := *;
      ok := known && regular;
      os.Answer(ok);
    }

    /** close(2) gives the descriptor up even when it reports a failure. */
    method CloseEventsFile() returns (ok: bool)
      modifies this`eventsOpen, os`setbacks
      ensures !eventsOpen && os.setbacks == Setback(old(os.setbacks), ok)
    {
      ok := *;
      os.Answer(ok);
      eventsOpen := false;
    }

    method CloseLock() returns (ok: bool)
      modifies this`lockOpen, os`setbacks
      ensures !lockOpen && os.setbacks == Setback(old(os.setbacks), ok)
    {
      ok := *;
      os.Answer(ok);
      lockOpen := false;
    }

    /** The lock directory, the lock file with its checks, and flock. */
    method AcquireWriterLock() returns (ok: bool)
      requires !lockOpen
      modifies this`lockOpen, os`setbacks
      ensures lockOpen == ok && os.setbacks == Setback(old(os.setbacks), ok)
    {
      ok := *;
      os.Answer(ok);
      lockOpen := ok;
    }
  }

  // ---- The syncs of a writer ---------------------------------------------------------

  /** The call that syncs spool state through a syncer, successfully. */
  function SpoolSync(syncer: Syncer, path: Path): Call
    requires syncer.Syncer?
  {
    SyncCall(syncer.mode, OnSpool(path, syncer.device), Done)
  }

  /** One sync of the events file. */
  method SyncEventsFile(host: Host, syncer: Syncer) returns (ok: bool)
    requires syncer.Syncer? && host.events == OnSpool(EventsFile, syncer.device)
    modifies host`disk, host.os
    ensures host.disk == if ok then old(host.disk).(file := SyncedFile(syncer.mode, old(host.disk).file)) else old(host.disk)
    ensures ok ==> host.os.calls == old(host.os.calls) + [SpoolSync(syncer, EventsFile)]
    ensures old(host.os.calls) <= host.os.calls && host.os.setbacks == Setback(old(host.os.setbacks), ok)
  {
    var r, _ := SyncFile(host.os, syncer, host.events);
    ok := r.Ok?;
    if ok { host.Settle(); }
  }

  /** One sync of the spool root, for the entry of the events directory. */
  method SyncRootDir(host: Host, syncer: Syncer) returns (ok: bool)
    requires syncer.Syncer?
    modifies host`disk, host.os
    ensures host.disk == if ok then old(host.disk).(events := SyncedEntry(syncer.mode, old(host.disk).events)) else old(host.disk)
    ensures ok ==> host.os.calls == old(host.os.calls) + [SpoolSync(syncer, RootDir)]
    ensures old(host.os.calls) <= host.os.calls && host.os.setbacks == Setback(old(host.os.setbacks), ok)
  {
    var r := SyncDir(host.os, syncer, RootDir);
    ok := r.Ok?;
    if ok { host.Settle(); }
  }

  /** One sync of the events directory, for the entry of the events file. */
  method SyncEventsDir(host: Host, syncer: Syncer) returns (ok: bool)
    requires syncer.Syncer?
    modifies host`disk, host.os
    ensures host.disk == if ok then old(host.disk).(spool := SyncedEntry(syncer.mode, old(host.disk).spool)) else old(host.disk)
    ensures ok ==> host.os.calls == old(host.os.calls) + [SpoolSync(syncer, EventsDir)]
    ensures old(host.os.calls) <= host.os.calls && host.os.setbacks == Setback(old(host.os.setbacks), ok)
  {
    var r := SyncDir(host.os, syncer, EventsDir);
    ok := r.Ok?;
    if ok { host.Settle(); }
  }

  /** The two ends of the sync behind an append. */
  lemma SyncOutcomes(mode: Mode, s: State)
    requires s.pc.Written? && s.log != [] && Last(s.log).tail.Just?
    ensures Enabled(s, SyncLine) && Enabled(s, SyncFails)
    ensures Do(mode, s, SyncLine)
         == State(s.disk.(file := SyncedFile(mode, s.disk.file)), Ready, Acknowledged(s.log))
    ensures Do(mode, s, SyncFails) == s.(pc := Broken)
    ensures Cached(SyncedFile(mode, s.disk.file)) == Cached(s.disk.file)
    ensures mode.HostLoss? ==> SyncedFile(mode, s.disk.file).pending == []
  {
  }

  /** The size of the file, and then its last byte, tell repair whether to scan. */
  lemma StatOutcome(mode: Mode, s: State)
    requires s.pc.EntrySynced?
    ensures Enabled(s, Stat)
    ensures Do(mode, s, Stat) == if Cached(s.disk.file) == [] then s.(pc := Ready, log := Opened(s.log))
                                 else s.(pc := Sized(|Cached(s.disk.file)|))
  {
  }

  lemma ReadLastOutcome(mode: Mode, s: State)
    requires s.pc.Sized? && s.pc.size == |Cached(s.disk.file)| > 0
    ensures Enabled(s, ReadLast)
    ensures Do(mode, s, ReadLast) == if Cached(s.disk.file)[s.pc.size - 1] == LF then s.(pc := Ready, log := Opened(s.log))
                                     else s.(pc := Scanning(s.pc.size))
  {
  }

  /** Taking the lock, and the way out of an Open. */
  lemma LockOutcomes(mode: Mode, s: State)
    ensures s.pc.Idle? ==> Enabled(s, Acquire) && Do(mode, s, Acquire) == s.(pc := Guarded)
    ensures Opening(s.pc) ==> Enabled(s, OpenFails) && Do(mode, s, OpenFails) == s.(pc := Closing)
    ensures s.pc.Ready? || s.pc.Broken? ==> Enabled(s, CloseEvents) && Do(mode, s, CloseEvents) == s.(pc := Closing)
    ensures s.pc.Closing? ==> Enabled(s, Release) && Do(mode, s, Release) == s.(pc := Idle)
  {
  }

  /** The events directory. */
  lemma DirOutcomes(mode: Mode, s: State)
    ensures s.pc.Guarded? ==>
      (Enabled(s, MkdirEvents)
       && Do(mode, s, MkdirEvents) == s.(disk := s.disk.(events := Made(s.disk.events)), pc := DirMade))
    ensures s.pc.DirMade? ==>
      (Enabled(s, SyncRoot)
       && Do(mode, s, SyncRoot) == s.(disk := s.disk.(events := SyncedEntry(mode, s.disk.events)), pc := RootSynced))
  {
  }

  /** The events file. */
  lemma FileOutcomes(mode: Mode, s: State)
    ensures s.pc.RootSynced? ==>
      (Enabled(s, OpenEvents)
       && Do(mode, s, OpenEvents) == s.(disk := s.disk.(spool := Made(s.disk.spool)), pc := FileOpen))
    ensures s.pc.FileOpen? ==>
      (Enabled(s, SyncEvents)
       && Do(mode, s, SyncEvents) == s.(disk := s.disk.(spool := SyncedEntry(mode, s.disk.spool)), pc := EntrySynced))
  {
  }

  const TAIL_SCAN_CHUNK: nat := 65536

  /** lineBreaks. */
  const LINE_BREAKS: seq<ByteString> := [[0x0A], [0x0D], [0xC2, 0x85], [0xE2, 0x80, 0xA8], [0xE2, 0x80, 0xA9]]

  lemma LineBreaksListed(s: ByteString)
    ensures (exists i :: 0 <= i < |LINE_BREAKS| && Contains(s, LINE_BREAKS[i]))
        <==> !(forall c: Scalar | IsLineBreak(c) :: !Contains(s, EncodeScalar(c)))
  {
    assert EncodeScalar(0x0A) == LINE_BREAKS[0] && EncodeScalar(0x0D) == LINE_BREAKS[1];
    assert EncodeScalar(0x85) == LINE_BREAKS[2] && EncodeScalar(0x2028) == LINE_BREAKS[3] && EncodeScalar(0x2029) == LINE_BREAKS[4];
    assert IsLineBreak(0x0A) && IsLineBreak(0x0D) && IsLineBreak(0x85) && IsLineBreak(0x2028) && IsLineBreak(0x2029);
  }

  /** The record checks of Append. */
  method CheckRecord(record: ByteString) returns (status: Status)
    ensures status.Intact? <==> Framable(record)
    ensures status.Refusing? ==> status.error == if record == [] then EmptyRecord else EmbeddedLineBreak
  {
    if |record| == 0 { return Refusing(EmptyRecord); }
    LineBreaksListed(record);
    for i := 0 to |LINE_BREAKS|
      invariant forall j | 0 <= j < i :: !Contains(record, LINE_BREAKS[j])
    {
      if Contains(record, LINE_BREAKS[i]) { return Refusing(EmbeddedLineBreak); }
    }
    status := Intact;
  }

  /** bytes.LastIndexByte(chunk, '\n'). */
  method LastNewlineIn(chunk: ByteString) returns (index: int)
    ensures index == NewlineBefore(chunk, 0, |chunk|)
  {
    index := |chunk| - 1;
    while index >= 0 && chunk[index] != LF
      invariant -1 <= index < |chunk|
      invariant NewlineBefore(chunk, 0, |chunk|) == NewlineBefore(chunk, 0, index + 1)
    {
      index := index - 1;
    }
  }

  lemma {:induction false} NewlineInSlice(img: ByteString, start: nat, n: nat, end: nat)
    requires start <= n <= end <= |img|
    ensures NewlineBefore(img, start, n)
         == var i := NewlineBefore(img[start..end], 0, n - start); if i < 0 then -1 else start + i
    decreases n
  {
    if n > start {
      NewlineInSlice(img, start, n - 1, end);
    }
  }

  lemma TwoSteps(t: seq<Event>, a: Event, b: Event)
    ensures (t + [a]) + [b] == t + [a, b]
  {
  }

  lemma ThreeSteps(t: seq<Event>, a: Event, b: Event, c: Event)
    ensures ((t + [a]) + [b]) + [c] == t + [a, b, c]
  {
  }

  datatype Sight = Seen(file: File, log: Log, trace: seq<Event>, calls: seq<Call>)

  /** An append that returned success: the line is at the end of the file and the record is
      the next acknowledged one. The last thing done was one sync of the file, on the probed
      device, with the primitive of the mode, which the probe had run with success on a file
      and on a directory; at host-loss strength nothing is left unsynced. */
  ghost predicate AcceptedEffect(syncer: Syncer, before: Sight, after: Sight, record: ByteString) {
    && after.trace == before.trace + [Submit(record), WriteLine, SyncLine]
    && Cached(after.file) == Cached(before.file) + Line(record)
    && before.log != [] && Last(Submitted(before.log, record)).tail.Just?
    && after.log == Acknowledged(Submitted(before.log, record))
    && syncer.Syncer? && after.calls == before.calls + [SpoolSync(syncer, EventsFile)]
    && OnHandle(SpoolSync(syncer, EventsFile), ProbeFile) in before.calls
    && OnHandle(SpoolSync(syncer, EventsFile), ProbeDir) in before.calls
    && (syncer.mode.HostLoss? ==> after.file.pending == [])
  }

  /** An append that failed in the write or, and only then reported as that, in the sync: the
      first k bytes of the line are at the end of the file and the record is in doubt. */
  ghost predicate RejectedEffect(before: Sight, after: Sight, record: ByteString, e: AppendError, k: nat) {
    && (e == BrokenByWrite || e == BrokenBySync)
    && before.log != [] && after.log == Submitted(before.log, record)
    && after.trace == before.trace
         + (if e == BrokenByWrite then [Submit(record), WriteFails(k)] else [Submit(record), WriteLine, SyncFails])
    && k <= |Line(record)| && Cached(after.file) == Cached(before.file) + Line(record)[..k]
    && (e == BrokenBySync ==> k == |Line(record)|)
  }

  class Writer {
    const host: Host
    const syncer: Syncer
    var broken: Status

    /** Open: usable from here on, or refusing because an append failed. The syncer came
        from a probe of this machine, and the events file is on the device it probed. */
    ghost predicate Valid()
      reads this, host, host.os
    {
      && host.Valid() && syncer.Syncer? && syncer.mode == host.mode && Vouched(host.os.calls, syncer)
      && host.events == OnSpool(EventsFile, syncer.device) && host.story.state.log != []
      && (if broken.Intact? then host.story.state.pc.Ready? else host.story.state.pc.Broken?)
    }

    constructor (host: Host, syncer: Syncer)
      ensures this.host == host && this.syncer == syncer && broken == Intact
    {
      this.host, this.syncer, this.broken := host, syncer, Intact;
    }

    method Append(record: ByteString) returns (r: AppendResult, ghost k: nat)
      requires Valid()
      modifies this`broken, host`disk, host`story, host.os
      ensures Valid()
      ensures old(broken).Refusing? ==>
        r == Rejected(old(broken).error) && broken == old(broken) && unchanged(host) && unchanged(host.os)
      ensures old(broken).Intact? && !Framable(record) ==>
        r == Rejected(if record == [] then EmptyRecord else EmbeddedLineBreak)
        && broken == Intact && unchanged(host) && unchanged(host.os)
      ensures old(broken).Intact? && Framable(record) ==>
        (r == Accepted && broken == Intact && AcceptedEffect(syncer, old(host.Sight()), host.Sight(), record))
        || (broken.Refusing? && r == Rejected(broken.error)
            && RejectedEffect(old(host.Sight()), host.Sight(), record, broken.error, k))
      ensures old(broken).Intact? && Framable(record) ==> (r == Accepted <==> host.os.setbacks == old(host.os.setbacks))
    {
      if broken.Refusing? { return Rejected(broken.error), 0; }
      var status := CheckRecord(record);
      if status.Refusing? { return Rejected(status.error), 0; }
      broken, k := Commit(record);
      r := if broken.Intact? then Accepted else Rejected(broken.error);
    }

    /** Append past its checks: write, then sync; the result is the new broken field. */
    method Commit(record: ByteString) returns (status: Status, ghost k: nat)
      requires Valid() && broken.Intact? && Framable(record)
      modifies host`disk, host`story, host.os
      ensures host.Valid() && host.story.state.log != [] && Vouched(host.os.calls, syncer)
      ensures host.os.setbacks == Setback(old(host.os.setbacks), status.Intact?)
      ensures if status.Intact? then host.story.state.pc.Ready? && AcceptedEffect(syncer, old(host.Sight()), host.Sight(), record)
              else host.story.state.pc.Broken? && RejectedEffect(old(host.Sight()), host.Sight(), record, status.error, k)
    {
      NoteSubmit(record);
      var ok;
      ok, k := WriteRecord(record);
      TwoSteps(old(host.story.trace), Submit(record), WriteFails(k));
      if !ok { return Refusing(BrokenByWrite), k; }
      var synced := SyncRecord(record);
      ThreeSteps(old(host.story.trace), Submit(record), WriteLine, SyncLine);
      ThreeSteps(old(host.story.trace), Submit(record), WriteLine, SyncFails);
      status := if synced then Intact else Refusing(BrokenBySync);
    }

    ghost method NoteSubmit(record: ByteString)
      requires host.Valid() && host.story.state.pc.Ready? && host.story.state.log != [] && Framable(record)
      modifies host`story
      ensures host.Valid() && host.story.state.pc == Writing(record) && host.story.trace == old(host.story.trace) + [Submit(record)]
      ensures host.story.state.log == Submitted(old(host.story.state.log), record)
      ensures host.story.state.log != [] && Last(host.story.state.log).tail == Just(record)
    {
      host.Note(Submit(record));
    }

    /** The single write of a record and its newline. */
    method WriteRecord(record: ByteString) returns (ok: bool, ghost k: nat)
      requires host.Valid() && host.story.state.pc == Writing(record)
      modifies host`disk, host`story, host.os`setbacks
      ensures host.Valid() && host.story.state.log == old(host.story.state.log)
      ensures host.os.setbacks == Setback(old(host.os.setbacks), ok)
      ensures ok ==> host.story.state.pc == Written(record) && host.story.trace == old(host.story.trace) + [WriteLine]
      ensures ok ==> k == |Line(record)| && Line(record)[..k] == Line(record)
      ensures !ok ==> host.story.state.pc.Broken? && host.story.trace == old(host.story.trace) + [WriteFails(k)]
      ensures k <= |Line(record)| && Cached(host.disk.file) == Cached(old(host.disk.file)) + Line(record)[..k]
    {
      ghost var f := host.disk.file;
      var line := record + [LF];
      ok, k := host.Write(line);
      CachedDo(f, FileOp.Write(line[..k]));
      if ok { host.Note(WriteLine); } else { host.Note(WriteFails(k)); }
    }

    /** The sync that makes it durable, with the primitive of the syncer's mode. */
    method SyncRecord(record: ByteString) returns (ok: bool)
      requires host.Valid() && host.story.state.pc == Written(record) && syncer.Syncer? && syncer.mode == host.mode
      requires host.events == OnSpool(EventsFile, syncer.device) && Vouched(host.os.calls, syncer)
      requires host.story.state.log != [] && Last(host.story.state.log).tail == Just(record)
      modifies host`disk, host`story, host.os
      ensures host.Valid() && Cached(host.disk.file) == Cached(old(host.disk.file)) && Vouched(host.os.calls, syncer)
      ensures host.os.setbacks == Setback(old(host.os.setbacks), ok)
      ensures ok ==> host.os.calls == old(host.os.calls) + [SpoolSync(syncer, EventsFile)]
      ensures ok ==> host.story.state.pc.Ready? && host.story.trace == old(host.story.trace) + [SyncLine]
      ensures ok ==> host.story.state.log == Acknowledged(old(host.story.state.log))
      ensures ok && syncer.mode.HostLoss? ==> host.disk.file.pending == []
      ensures !ok ==>
        host.story.state.pc.Broken? && host.story.state.log == old(host.story.state.log) && host.story.trace == old(host.story.trace) + [SyncFails]
    {
      SyncOutcomes(host.mode, host.story.state);
      ok := SyncEventsFile(host, syncer);
      VouchedLonger(old(host.os.calls), host.os.calls, syncer);
      if ok { host.Note(SyncLine); } else { host.Note(SyncFails); }
    }

    /** Close closes the events file first and the lock after it, whatever the first close
        answered, and says of each whether it failed. */
    method Close() returns (eventsOk: bool, lockOk: bool)
      requires Valid()
      modifies host`story, host`eventsOpen, host`lockOpen, host.os`setbacks
      ensures host.Valid() && host.story.state.pc.Idle? && !host.eventsOpen && !host.lockOpen
      ensures host.story.state.log == old(host.story.state.log) && host.story.trace == old(host.story.trace) + [CloseEvents, Release]
      ensures host.os.setbacks == Setback(Setback(old(host.os.setbacks), eventsOk), lockOk)
    {
      eventsOk := host.CloseEventsFile();
      LockOutcomes(host.mode, host.story.state);
      host.Note(CloseEvents);
      lockOk := host.CloseLock();
      LockOutcomes(host.mode, host.story.state);
      host.Note(Release);
    }
  }

  /** lastNewlineOffset, for any chunk size. */
  method LastNewlineOffset(host: Host, size: nat, chunkSize: nat) returns (ok: bool, newline: int)
    requires host.Valid() && host.story.state.pc == Scanning(size) && 0 < size && 0 < chunkSize
    modifies host`story, host.os`setbacks
    ensures host.Valid() && host.story.state.log == old(host.story.state.log)
    ensures host.os.setbacks == Setback(old(host.os.setbacks), ok)
    ensures ok ==> host.story.state.pc == Scanned(newline) && newline + 1 == |Repaired(Cached(host.disk.file))|
    ensures !ok ==> Opening(host.story.state.pc)
    ensures old(host.story.trace) <= host.story.trace && host.story.entries == old(host.story.entries)
  {
    var end := size;
    while true
      invariant host.Valid() && host.story.state.log == old(host.story.state.log) && host.os.setbacks == old(host.os.setbacks)
      invariant 0 < end && host.story.state.pc == Scanning(end)
      invariant old(host.story.trace) <= host.story.trace && host.story.entries == old(host.story.entries)
      decreases end
    {
      var start := if end <= chunkSize then 0 else end - chunkSize;
      var read, index := ScanChunk(host, start, end, chunkSize);
      if !read { return false, 0; }
      if index >= 0 { return true, start + index; }
      if start == 0 { return true, -1; }
      end := start;
    }
  }

  /** One turn of the scan: read a chunk and look for its last newline. */
  method ScanChunk(host: Host, start: nat, end: nat, chunkSize: nat) returns (ok: bool, index: int)
    requires host.Valid() && host.story.state.pc == Scanning(end) && 0 < chunkSize && 0 < end
    requires start == if end <= chunkSize then 0 else end - chunkSize
    modifies host`story, host.os`setbacks
    ensures host.Valid() && host.story.state.log == old(host.story.state.log)
    ensures host.os.setbacks == Setback(old(host.os.setbacks), ok)
    ensures !ok ==> host.story.state.pc == Scanning(end)
    ensures ok && (index >= 0 || start == 0) ==>
      var newline := if index >= 0 then start + index else -1;
      host.story.state.pc == Scanned(newline) && newline + 1 == |Repaired(Cached(host.disk.file))|
    ensures ok && index < 0 && start > 0 ==> host.story.state.pc == Scanning(start)
    ensures old(host.story.trace) <= host.story.trace && host.story.entries == old(host.story.entries)
  {
    var chunk;
    ok, chunk := host.ReadAt(start, end);
    index := -1;
    assert host.Valid();
    if ok {
      index := LastNewlineIn(chunk);
      ScanStep(host, start, end, chunkSize, chunk, index);
    }
  }

  /** What reading one chunk tells the scan. */
  ghost method ScanStep(host: Host, start: nat, end: nat, chunkSize: nat, chunk: ByteString, index: int)
    requires host.Valid() && host.story.state.pc == Scanning(end) && 0 < chunkSize
    requires 0 < end <= |Cached(host.disk.file)| && start == if end <= chunkSize then 0 else end - chunkSize
    requires chunk == Cached(host.disk.file)[start..end] && index == NewlineBefore(chunk, 0, |chunk|)
    modifies host`story
    ensures host.Valid() && host.story.state.log == old(host.story.state.log)
    ensures var pc := host.story.state.pc;
      if index >= 0 || start == 0 then
        var newline := if index >= 0 then start + index else -1;
        pc == Scanned(newline) && newline + 1 == |Repaired(Cached(host.disk.file))|
      else pc == Scanning(start)
    ensures old(host.story.trace) <= host.story.trace && host.story.entries == old(host.story.entries)
  {
    host.Safe();
    ChunkOutcome(host.mode, host.story.state, start, chunkSize, index);
    NoteChunk(host, chunkSize);
  }

  ghost method NoteChunk(host: Host, chunkSize: nat)
    requires host.Valid() && host.story.state.pc.Scanning? && Enabled(host.story.state, ReadChunk(chunkSize))
    requires Do(host.mode, host.story.state, ReadChunk(chunkSize)).disk == host.disk
    requires var pc := Do(host.mode, host.story.state, ReadChunk(chunkSize)).pc; pc.Scanning? || pc.Scanned?
    modifies host`story
    ensures host.Valid() && host.story.state == Do(host.mode, old(host.story.state), ReadChunk(chunkSize))
    ensures old(host.story.trace) <= host.story.trace && host.story.entries == old(host.story.entries)
  {
    host.Note(ReadChunk(chunkSize));
  }

  lemma ChunkOutcome(mode: Mode, s: State, start: nat, chunkSize: nat, index: int)
    requires PcInv(s) && s.pc.Scanning? && 0 < chunkSize && 0 < s.pc.end <= |Cached(s.disk.file)|
    requires start == if s.pc.end <= chunkSize then 0 else s.pc.end - chunkSize
    requires index == NewlineBefore(Cached(s.disk.file)[start..s.pc.end], 0, s.pc.end - start)
    ensures Enabled(s, ReadChunk(chunkSize))
    ensures var newline := if index >= 0 then start + index else -1;
      var found := index >= 0 || start == 0;
      && Do(mode, s, ReadChunk(chunkSize)) == s.(pc := if found then Scanned(newline) else Scanning(start))
      && (found ==> newline + 1 == |Repaired(Cached(s.disk.file))|)
  {
    var img := Cached(s.disk.file);
    NewlineInSlice(img, start, s.pc.end, s.pc.end);
    ChunkStep(img, s.pc.end, chunkSize);
  }

  /** repairTail: the file keeps its longest newline-terminated prefix. A file that needs no
      cut is not synced either: at host-loss strength all of it is durable afterwards exactly
      when it already was or a tail was cut. */
  method RepairTail(host: Host, syncer: Syncer) returns (ok: bool)
    requires host.Valid() && host.story.state.pc.EntrySynced? && syncer.Syncer? && syncer.mode == host.mode
    requires host.events == OnSpool(EventsFile, syncer.device)
    modifies host`disk, host`story, host.os
    ensures old(host.story.trace) <= host.story.trace && host.story.entries == old(host.story.entries)
    ensures host.Valid() && host.os.setbacks == Setback(old(host.os.setbacks), ok)
    ensures old(host.os.calls) <= host.os.calls
    ensures ok ==> host.os.calls == old(host.os.calls) + CutSyncs(syncer, Framed(Cached(old(host.disk.file))))
    ensures ok ==> host.story.state.pc.Ready? && host.story.state.log == Opened(old(host.story.state.log))
    ensures ok ==> Cached(host.disk.file) == Repaired(Cached(old(host.disk.file)))
    ensures ok && Framed(Cached(old(host.disk.file))) ==> host.disk == old(host.disk)
    ensures ok && syncer.mode.HostLoss? ==>
      (host.disk.file.pending == [] <==> old(host.disk.file.pending) == [] || !Framed(Cached(old(host.disk.file))))
    ensures host.disk.events == old(host.disk.events) && host.disk.spool == old(host.disk.spool)
    ensures !ok ==> Opening(host.story.state.pc) && PastOpen(host.story.state.pc) && host.story.state.log == old(host.story.state.log)
    ensures !ok ==>
      (Cached(host.disk.file) == Cached(old(host.disk.file))
       || Cached(host.disk.file) == Repaired(Cached(old(host.disk.file))))
  {
    var read, torn, size := TailIsTorn(host);
    if !read { return false; }
    FramedIsRepaired(Cached(host.disk.file));
    if !torn { return true; }
    var found, newline := LastNewlineOffset(host, size, TAIL_SCAN_CHUNK);
    if !found { return false; }
    ok := CutTail(host, syncer, newline);
  }

  /** The start of repairTail: is there a last byte, and is it a newline? */
  method TailIsTorn(host: Host) returns (ok: bool, torn: bool, size: nat)
    requires host.Valid() && host.story.state.pc.EntrySynced?
    modifies host`story, host.os`setbacks
    ensures old(host.story.trace) <= host.story.trace && host.story.entries == old(host.story.entries)
    ensures host.Valid() && host.os.setbacks == Setback(old(host.os.setbacks), ok)
    ensures ok ==> (torn <==> !Framed(Cached(host.disk.file)))
    ensures ok && torn ==> host.story.state.pc == Scanning(size) && size > 0 && host.story.state.log == old(host.story.state.log)
    ensures ok && !torn ==> host.story.state.pc.Ready? && host.story.state.log == Opened(old(host.story.state.log))
    ensures !ok ==> Opening(host.story.state.pc) && PastOpen(host.story.state.pc) && host.story.state.log == old(host.story.state.log)
  {
    torn := false;
    ok, size := host.Size();
    if !ok { return; }
    StatOutcome(host.mode, host.story.state);
    host.Note(Stat);
    if size == 0 { return; }
    var last;
    ok, last := host.ReadAt(size - 1, size);
    if !ok { return; }
    ReadLastOutcome(host.mode, host.story.state);
    host.Note(ReadLast);
    torn := last[0] != LF;
  }

  /** The end of repairTail: truncate, then sync. */
  method CutTail(host: Host, syncer: Syncer, newline: int) returns (ok: bool)
    requires host.Valid() && host.story.state.pc == Scanned(newline) && syncer.Syncer? && syncer.mode == host.mode
    requires newline + 1 == |Repaired(Cached(host.disk.file))| && host.events == OnSpool(EventsFile, syncer.device)
    modifies host`disk, host`story, host.os
    ensures old(host.story.trace) <= host.story.trace && host.story.entries == old(host.story.entries)
    ensures host.Valid() && host.os.setbacks == Setback(old(host.os.setbacks), ok)
    ensures old(host.os.calls) <= host.os.calls
    ensures ok ==> host.os.calls == old(host.os.calls) + [SpoolSync(syncer, EventsFile)]
    ensures ok ==> host.story.state.pc.Ready? && host.story.state.log == Opened(old(host.story.state.log))
    ensures ok ==> Cached(host.disk.file) == Repaired(Cached(old(host.disk.file)))
    ensures ok && syncer.mode.HostLoss? ==> host.disk.file.pending == []
    ensures host.disk.events == old(host.disk.events) && host.disk.spool == old(host.disk.spool)
    ensures !ok ==> Opening(host.story.state.pc) && PastOpen(host.story.state.pc) && host.story.state.log == old(host.story.state.log)
    ensures !ok ==>
      (Cached(host.disk.file) == Cached(old(host.disk.file))
       || Cached(host.disk.file) == Repaired(Cached(old(host.disk.file))))
  {
    var cut := host.TruncateTo(newline + 1);
    if !cut { return false; }
    CutOutcome(host.mode, host.story.state);
    host.Note(TruncateTail);
    RepairOutcome(host.mode, host.story.state);
    ok := SyncEventsFile(host, syncer);
    if ok { host.Note(SyncRepair); }
  }

  /** The cut. */
  lemma CutOutcome(mode: Mode, s: State)
    requires s.pc.Scanned? && s.pc.newline + 1 == |Repaired(Cached(s.disk.file))|
    ensures Enabled(s, TruncateTail)
    ensures var f := Pend(s.disk.file, Truncate(s.pc.newline + 1));
      && Do(mode, s, TruncateTail) == s.(disk := s.disk.(file := f), pc := Truncated)
      && Cached(f) == Repaired(Cached(s.disk.file))
  {
    CachedDo(s.disk.file, Truncate(s.pc.newline + 1));
    assert Cached(s.disk.file)[..s.pc.newline + 1] == Repaired(Cached(s.disk.file));
  }

  /** Its sync. */
  lemma RepairOutcome(mode: Mode, s: State)
    requires s.pc.Truncated?
    ensures Enabled(s, SyncRepair)
    ensures Do(mode, s, SyncRepair) == State(s.disk.(file := SyncedFile(mode, s.disk.file)), Ready, Opened(s.log))
    ensures Cached(SyncedFile(mode, s.disk.file)) == Cached(s.disk.file)
    ensures mode.HostLoss? ==> SyncedFile(mode, s.disk.file).pending == []
  {
  }

  /** The events directory and its entry in the root: the start of openEventsFile. */
  method CommitEventsDir(host: Host, syncer: Syncer) returns (ok: bool)
    requires host.Valid() && host.story.state.pc.Guarded? && syncer.Syncer? && syncer.mode == host.mode
    modifies host`disk, host`story, host.os
    ensures host.os.setbacks == Setback(old(host.os.setbacks), ok) && old(host.os.calls) <= host.os.calls
    ensures ok ==> host.os.calls == old(host.os.calls) + [SpoolSync(syncer, RootDir)]
    ensures host.Valid() && host.story.state.log == old(host.story.state.log) && host.disk.file == old(host.disk.file)
    ensures if ok then host.story.state.pc.RootSynced? else host.story.state.pc.Closing?
    ensures old(host.story.trace) <= host.story.trace && host.story.entries == old(host.story.entries)
  {
    ok := host.Mkdir();
    DirOutcomes(host.mode, host.story.state);
    if ok {
      host.Note(MkdirEvents);
      ok := SyncRootDir(host, syncer);
    }
    DirOutcomes(host.mode, host.story.state);
    LockOutcomes(host.mode, host.story.state);
    if ok { host.Note(SyncRoot); } else { host.Note(OpenFails); }
  }

  /** The file and its entry: the rest of openEventsFile. Only a regular file on the probed
      device is used; a failure closes it again. */
  method CommitEventsFile(host: Host, syncer: Syncer) returns (ok: bool)
    requires host.Valid() && host.story.state.pc.RootSynced? && syncer.Syncer? && syncer.mode == host.mode
    modifies host, host.os
    ensures host.Valid() && host.story.state.log == old(host.story.state.log) && host.disk.file == old(host.disk.file)
    ensures ok ==> host.os.setbacks == old(host.os.setbacks)
    ensures !ok ==> host.os.setbacks > old(host.os.setbacks)
    ensures old(host.os.calls) <= host.os.calls
    ensures ok ==> host.os.calls == old(host.os.calls) + [SpoolSync(syncer, EventsDir)]
    ensures ok ==> host.events == OnSpool(EventsFile, syncer.device) && host.regular
    ensures if ok then host.story.state.pc.EntrySynced? else host.story.state.pc.Closing?
    ensures old(host.story.trace) <= host.story.trace && host.story.entries == old(host.story.entries) + if ok then 1 else 0
  {
    ok := host.OpenFile();
    LockOutcomes(host.mode, host.story.state);
    FileOutcomes(host.mode, host.story.state);
    if !ok {
      host.Note(OpenFails);
      return;
    }
    host.Note(OpenEvents);
    ok := VerifyEvents(host, syncer);
    if ok { ok := SyncEventsDir(host, syncer); }
    LockOutcomes(host.mode, host.story.state);
    FileOutcomes(host.mode, host.story.state);
    if ok {
      host.Note(SyncEvents);
    } else {
      var _ := host.CloseEventsFile();
      host.Note(OpenFails);
    }
  }

  /** verifyState on the open events file. */
  method VerifyEvents(host: Host, syncer: Syncer) returns (ok: bool)
    requires syncer.Syncer? && host.events.OnSpool? && host.events.path == EventsFile
    modifies host.os`setbacks
    ensures ok ==> host.regular && host.events == OnSpool(EventsFile, syncer.device)
    ensures host.os.setbacks == Setback(old(host.os.setbacks), ok)
  {
    ok := host.StatEvents();
    if !ok { return; }
    var device := host.os.DeviceOf(host.events);
    ok := VerifyFile(syncer, device).Ok?;
    if !ok && device.Ok? { host.os.Stray(host.events, syncer); }
  }

  /** Open: absolute root, and whether the source is a valid slug, are given. A verified
      syncer comes from a probe of the machine. A failure closes whatever was opened and
      leaves the lock free. */
  method Open(host: Host, root: string, validSource: bool, syncer: Syncer) returns (w: Writer?, error: OpenError)
    requires host.Valid() && host.story.state.pc.Idle?
    requires syncer.Verified() ==> Attests(host.os.calls, syncer) && syncer.mode == host.mode
    modifies host, host.os
    ensures host.Valid()
    ensures !validSource ==> w == null && error == InvalidSource && unchanged(host) && unchanged(host.os)
    ensures validSource && syncer.Zero? ==>
      w == null && error == UnprobedSyncer && unchanged(host) && unchanged(host.os)
    ensures validSource && syncer.Syncer? && syncer.dir != root ==>
      w == null && error == ForeignRoot && unchanged(host) && unchanged(host.os)
    ensures w != null ==>
      && fresh(w) && w.host == host && w.syncer == syncer && w.broken == Intact && w.Valid() && host.regular
      && host.story.state.log == Opened(old(host.story.state.log))
      && Cached(host.disk.file) == Repaired(Cached(old(host.disk.file)))
      && host.os.calls == old(host.os.calls) + OpenSyncs(syncer, Framed(Cached(old(host.disk.file))))
    ensures w != null && syncer.mode.HostLoss? ==>
      && host.disk.events.Durable? && host.disk.spool.Durable?
      && (host.disk.file.pending == [] <==> old(host.disk.file.pending) == [] || !Framed(Cached(old(host.disk.file))))
    ensures w == null ==>
      && host.story.state.pc.Idle? && host.story.state.log == old(host.story.state.log)
      && (Cached(host.disk.file) == Cached(old(host.disk.file))
          || Cached(host.disk.file) == Repaired(Cached(old(host.disk.file))))
    ensures validSource && syncer.Syncer? && syncer.dir == root ==>
      (w != null <==> host.os.setbacks == old(host.os.setbacks))
    ensures w == null && validSource && syncer.Syncer? && syncer.dir == root ==>
      && (error == LockUnavailable || error == EventsUnavailable || error == RepairFailed)
      && old(host.story.trace) <= host.story.trace
      && (error == LockUnavailable <==> host.story.trace == old(host.story.trace))
      && (error == RepairFailed <==> SyncEvents in host.story.trace[|old(host.story.trace)|..])
      && (error == RepairFailed ==> host.events == OnSpool(EventsFile, syncer.device) && host.regular)
  {
    w, error := null, InvalidSource;
    if !validSource { return; }
    if !syncer.Verified() { return null, UnprobedSyncer; }
    if syncer.dir != root { return null, ForeignRoot; }
    ghost var start := host.story;
    var locked := host.AcquireWriterLock();
    if !locked { return null, LockUnavailable; }
    LockOutcomes(host.mode, host.story.state);
    host.Note(Acquire);
    w, error := OpenLocked(host, syncer);
    AddedEntries(start, host.story);
  }

  /** The part of Open under the lock. */
  method OpenLocked(host: Host, syncer: Syncer) returns (w: Writer?, error: OpenError)
    requires host.Valid() && host.story.state.pc.Guarded? && syncer.Syncer? && syncer.mode == host.mode
    requires Attests(host.os.calls, syncer)
    modifies host, host.os
    ensures host.Valid()
    ensures w != null ==>
      && fresh(w) && w.host == host && w.syncer == syncer && w.broken == Intact && w.Valid() && host.regular
      && host.story.state.log == Opened(old(host.story.state.log))
      && Cached(host.disk.file) == Repaired(Cached(old(host.disk.file)))
      && host.os.calls == old(host.os.calls) + OpenSyncs(syncer, Framed(Cached(old(host.disk.file))))
    ensures w != null && syncer.mode.HostLoss? ==>
      && host.disk.events.Durable? && host.disk.spool.Durable?
      && (host.disk.file.pending == [] <==> old(host.disk.file.pending) == [] || !Framed(Cached(old(host.disk.file))))
    ensures w == null ==>
      && host.story.state.pc.Idle? && host.story.state.log == old(host.story.state.log)
      && (Cached(host.disk.file) == Cached(old(host.disk.file))
          || Cached(host.disk.file) == Repaired(Cached(old(host.disk.file))))
      && error == (if host.story.entries == old(host.story.entries) then EventsUnavailable else RepairFailed)
      && (error == RepairFailed ==> host.events == OnSpool(EventsFile, syncer.device) && host.regular)
    ensures old(host.story.trace) <= host.story.trace
    ensures old(host.story.entries) <= host.story.entries <= old(host.story.entries) + 1
    ensures w != null ==> host.story.entries == old(host.story.entries) + 1
    ensures w != null <==> host.os.setbacks == old(host.os.setbacks)
  {
    ghost var calls := host.os.calls;
    var events := OpenEventsFile(host, syncer);
    if !events {
      DropLock(host);
      return null, EventsUnavailable;
    }
    var repaired := RepairTail(host, syncer);
    if !repaired {
      Abandon(host);
      return null, RepairFailed;
    }
    host.Safe();
    OpenSyncsConcat(calls, syncer, Framed(Cached(old(host.disk.file))));
    AttestsVouches(calls, syncer);
    VouchedLonger(calls, host.os.calls, syncer);
    w := new Writer(host, syncer);
    error := RepairFailed;
  }

  lemma OpenSyncsConcat(calls: seq<Call>, syncer: Syncer, framed: bool)
    requires syncer.Syncer?
    ensures calls + [SpoolSync(syncer, RootDir), SpoolSync(syncer, EventsDir)] + CutSyncs(syncer, framed)
         == calls + OpenSyncs(syncer, framed)
  {
  }

  /** openEventsFile. */
  method OpenEventsFile(host: Host, syncer: Syncer) returns (ok: bool)
    requires host.Valid() && host.story.state.pc.Guarded? && syncer.Syncer? && syncer.mode == host.mode
    modifies host, host.os
    ensures host.Valid() && host.story.state.log == old(host.story.state.log) && host.disk.file == old(host.disk.file)
    ensures ok <==> host.os.setbacks == old(host.os.setbacks)
    ensures host.os.setbacks >= old(host.os.setbacks) && old(host.os.calls) <= host.os.calls
    ensures ok ==>
      host.os.calls == old(host.os.calls) + [SpoolSync(syncer, RootDir), SpoolSync(syncer, EventsDir)]
    ensures ok ==> host.events == OnSpool(EventsFile, syncer.device) && host.regular
    ensures if ok then host.story.state.pc.EntrySynced? else host.story.state.pc.Closing?
    ensures old(host.story.trace) <= host.story.trace && host.story.entries == old(host.story.entries) + if ok then 1 else 0
  {
    ok := CommitEventsDir(host, syncer);
    if ok { ok := CommitEventsFile(host, syncer); }
  }

  /** The syncs of a successful Open: both directories, and the file if a tail was cut. */
  function OpenSyncs(syncer: Syncer, framed: bool): seq<Call>
    requires syncer.Syncer?
  {
    [SpoolSync(syncer, RootDir), SpoolSync(syncer, EventsDir)] + CutSyncs(syncer, framed)
  }

  function CutSyncs(syncer: Syncer, framed: bool): seq<Call>
    requires syncer.Syncer?
  {
    if framed then [] else [SpoolSync(syncer, EventsFile)]
  }

  /** The way out of an Open whose repair failed: the events file, then the lock. */
  method Abandon(host: Host)
    requires host.Valid() && Opening(host.story.state.pc) && PastOpen(host.story.state.pc)
    modifies host`story, host`eventsOpen, host`lockOpen, host.os`setbacks
    ensures host.Valid() && host.story.state.pc.Idle? && host.story.state.log == old(host.story.state.log)
    ensures host.os.setbacks >= old(host.os.setbacks)
    ensures old(host.story.trace) <= host.story.trace && host.story.entries == old(host.story.entries)
  {
    var _ := host.CloseEventsFile();
    LockOutcomes(host.mode, host.story.state);
    host.Note(OpenFails);
    DropLock(host);
  }

  method DropLock(host: Host)
    requires host.Valid() && host.story.state.pc.Closing?
    modifies host`story, host`lockOpen, host.os`setbacks
    ensures host.Valid() && host.story.state.pc.Idle? && host.story.state.log == old(host.story.state.log)
    ensures host.os.setbacks >= old(host.os.setbacks)
    ensures old(host.story.trace) <= host.story.trace && host.story.entries == old(host.story.entries)
  {
    var _ := host.CloseLock();
    LockOutcomes(host.mode, host.story.state);
    host.Note(Release);
  }

  /** Whatever Opens, Appends and Closes have run on a spool that began empty, its lines are
      the records whose Append returned success, in order, among records that were given to
      Append. */
  lemma HostLines(host: Host)
    requires host.Valid() && host.story.base == Init()
    ensures Legal(host.mode, Init(), host.story.trace)
    ensures var lines := Lines(Cached(host.disk.file));
      && Subsequence(AckedIn(host.mode, Init(), host.story.trace), lines)
      && forall r | r in lines :: SubmittedIn(host.story.trace, r)
  {
    Tell(host.story);
    LinesAreRecords(host.mode, host.story.trace);
  }
}
