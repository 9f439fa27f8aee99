/** The durability probe: internal/durability/durability.go. Which guarantee a syncer may
    advertise, and which primitive it then uses. */
module Durability {

  /** The guarantee a probed directory can honour. */
  datatype Mode = HostLoss | ProcessCrash

  datatype Filesystem = Filesystem(name: string, network: bool, isVolatile: bool)

  /** Zero is the syncer no probe made. */
  datatype Syncer = Zero | Syncer(dir: string, device: int, mode: Mode, filesystem: string)
  {
    predicate Verified() { this.Syncer? }
  }

  datatype Error =
    | InspectFailed | NetworkFilesystem | DeviceUnknown
    | CreateFailed | OpenDirFailed | WriteFailed | SyncFailed
    | CloseFailed | RemoveFailed | CommitFailed
    | Unprobed | OpenFailed | StatFailed | ForeignFilesystem

  datatype Result<+T> = Ok(value: T) | Err(error: Error)

  datatype Path = EventsFile | RootDir | EventsDir

  /** The two handles of the probe, and handles on spool state, each on some device. */
  datatype Handle = ProbeFile | ProbeDir | OnSpool(path: Path, device: int)

  datatype Outcome = Done | Unsupported | Failed

  datatype Operation = CreateProbe | OpenDir | WriteProbe | CloseProbe | RemoveProbe

  /** What the platform was asked, and how it answered. Full is the platform's full-barrier
      file sync, Plain the ordinary fsync. */
  datatype Call =
    | Did(op: Operation, ok: bool)
    | Full(handle: Handle, outcome: Outcome)
    | Plain(handle: Handle, outcome: Outcome)

  /** The primitive a mode stands for. */
  function SyncCall(mode: Mode, handle: Handle, outcome: Outcome): Call {
    if mode.HostLoss? then Full(handle, outcome) else Plain(handle, outcome)
  }

  /** The same primitive, with the same answer, on another handle. */
  function OnHandle(c: Call, handle: Handle): Call {
    match c
    case Full(_, outcome) => Full(handle, outcome)
    case Plain(_, outcome) => Plain(handle, outcome)
    case _ => c
  }

  /** Both handles synced with the ordinary primitive. */
  const PLAIN_WORKS: seq<Call> := [Plain(ProbeFile, Done), Plain(ProbeDir, Done)]

  /** The measurements that justify a mode. */
  predicate Justifies(calls: seq<Call>, isVolatile: bool, mode: Mode) {
    if mode.HostLoss? then !isVolatile && calls == [Full(ProbeFile, Done), Full(ProbeDir, Done)]
    else if isVolatile then calls == PLAIN_WORKS
    else (calls == [Full(ProbeFile, Unsupported)] + PLAIN_WORKS
          || calls == [Full(ProbeFile, Done), Full(ProbeDir, Unsupported)] + PLAIN_WORKS)
  }

  /** A successful probe from beginning to end: created, measured, removed, and the removal
      committed with the primitive of the mode it reports. */
  predicate ProbeRun(calls: seq<Call>, measured: seq<Call>, isVolatile: bool, mode: Mode) {
    && Justifies(measured, isVolatile, mode)
    && calls == [Did(CreateProbe, true), Did(OpenDir, true), Did(WriteProbe, true)] + measured
         + [Did(CloseProbe, true), Did(RemoveProbe, true), SyncCall(mode, ProbeDir, Done)]
  }

  /** The complete probe runs, one by one: what was asked, in which order, with which answers,
      and the mode each justifies. */
  lemma ProbeRunsListed(measured: seq<Call>, isVolatile: bool, mode: Mode)
    ensures Justifies(measured, isVolatile, mode) <==>
      || (mode == HostLoss && !isVolatile && measured == [Full(ProbeFile, Done), Full(ProbeDir, Done)])
      || (mode == ProcessCrash && isVolatile && measured == [Plain(ProbeFile, Done), Plain(ProbeDir, Done)])
      || (mode == ProcessCrash && !isVolatile
          && measured == [Full(ProbeFile, Unsupported), Plain(ProbeFile, Done), Plain(ProbeDir, Done)])
      || (mode == ProcessCrash && !isVolatile
          && measured == [Full(ProbeFile, Done), Full(ProbeDir, Unsupported), Plain(ProbeFile, Done), Plain(ProbeDir, Done)])
  {
  }

  /** The call that a failed probe's error names: the last one of a run that stopped there.
      An unsupported full barrier stops a run only when it was to commit the removal. */
  predicate Blames(calls: seq<Call>, error: Error) {
    calls != [] &&
    match calls[|calls| - 1]
    case Did(op, ok) => !ok && error == FailureOf(op)
    case Full(handle, outcome) =>
      if error == CommitFailed then handle == ProbeDir && outcome != Done else error == SyncFailed && outcome == Failed
    case Plain(handle, outcome) =>
      outcome != Done && (if error == CommitFailed then handle == ProbeDir else error == SyncFailed)
  }

  function FailureOf(op: Operation): Error {
    match op
    case CreateProbe => CreateFailed
    case OpenDir => OpenDirFailed
    case WriteProbe => WriteFailed
    case CloseProbe => CloseFailed
    case RemoveProbe => RemoveFailed
  }

  /** Once the probe file exists a failed run still tries to close and remove it. */
  predicate Swept(calls: seq<Call>, error: Error) {
    if error == CreateFailed then calls == []
    else exists closed, removed :: calls == [Did(CloseProbe, closed), Did(RemoveProbe, removed)]
  }

  /** A probe that failed: a run up to the call to blame, and the sweep. */
  ghost predicate FailedRun(before: seq<Call>, calls: seq<Call>, error: Error) {
    exists stop | |before| < stop <= |calls| ::
      calls[..|before|] == before && Blames(calls[|before|..stop], error) && Swept(calls[stop..], error)
  }

  /** Whatever mode a successful probe reports, its primitive has worked on a file and on a
      directory, and host-loss is reported only where the full barrier did and the volume
      is not volatile. */
  lemma ProbeAttests(calls: seq<Call>, measured: seq<Call>, isVolatile: bool, mode: Mode)
    requires ProbeRun(calls, measured, isVolatile, mode)
    ensures SyncCall(mode, ProbeFile, Done) in calls && SyncCall(mode, ProbeDir, Done) in calls
    ensures mode.HostLoss? <==> !isVolatile && Full(ProbeFile, Done) in calls && Full(ProbeDir, Done) in calls
    ensures calls[|calls| - 1] == SyncCall(mode, ProbeDir, Done) && Did(RemoveProbe, true) in calls
  {
    var head := [Did(CreateProbe, true), Did(OpenDir, true), Did(WriteProbe, true)];
    var end := [Did(CloseProbe, true), Did(RemoveProbe, true), SyncCall(mode, ProbeDir, Done)];
    assert forall c :: c in calls <==> c in head || c in measured || c in end;
    assert measured[|measured| - 1] in measured && measured[|measured| - 2] in measured;
    assert end[1] in end;
  }

  /** Somewhere in the machine's calls is a complete probe run that justified the syncer's
      mode. */
  ghost predicate Attests(calls: seq<Call>, syncer: Syncer) {
    syncer.Syncer? && exists i, j, measured, isVolatile ::
      (0 <= i <= j <= |calls| && ProbeRun(calls[i..j], measured, isVolatile, syncer.mode))
  }

  /** The primitive of the syncer's mode has worked on a file and on a directory. */
  ghost predicate Vouched(calls: seq<Call>, syncer: Syncer) {
    && syncer.Syncer?
    && SyncCall(syncer.mode, ProbeFile, Done) in calls && SyncCall(syncer.mode, ProbeDir, Done) in calls
  }

  lemma AttestsVouches(calls: seq<Call>, syncer: Syncer)
    requires Attests(calls, syncer)
    ensures Vouched(calls, syncer)
  {
    var i, j, measured, isVolatile :|
      0 <= i <= j <= |calls| && ProbeRun(calls[i..j], measured, isVolatile, syncer.mode);
    ProbeAttests(calls[i..j], measured, isVolatile, syncer.mode);
    assert forall c | c in calls[i..j] :: c in calls;
  }

  lemma VouchedLonger(before: seq<Call>, calls: seq<Call>, syncer: Syncer)
    requires Vouched(before, syncer) && before <= calls
    ensures Vouched(calls, syncer)
  {
    assert calls == before + calls[|before|..];
  }

  function Setback(setbacks: nat, ok: bool): nat {
    if ok then setbacks else setbacks + 1
  }

  /** The operating system: every call may answer in any way. */
  class Platform {
    var calls: seq<Call>
    ghost var setbacks: nat   // calls that failed, and handles that were not what they must be

    constructor ()
      ensures calls == [] && setbacks == 0
    {
      calls, setbacks := [], 0;
    }

    /** The ghost record of an answer. */
    ghost method Answer(ok: bool)
      modifies this`setbacks
      ensures setbacks == Setback(old(setbacks), ok)
    {
      setbacks := Setback(setbacks, ok);
    }

    method Attempt(op: Operation) returns (ok: bool)
      modifies this
      ensures calls == old(calls) + [Did(op, ok)] && setbacks == Setback(old(setbacks), ok)
    {
      ok := *;
      calls := calls + [Did(op, ok)];
      Answer(ok);
    }

    method SyncFileData(handle: Handle) returns (outcome: Outcome)
      modifies this
      ensures calls == old(calls) + [Full(handle, outcome)] && setbacks == Setback(old(setbacks), outcome == Done)
    {
      outcome := *;
      calls := calls + [Full(handle, outcome)];
      Answer(outcome == Done);
    }

    method Fsync(handle: Handle) returns (outcome: Outcome)
      modifies this
      ensures calls == old(calls) + [Plain(handle, outcome)] && setbacks == Setback(old(setbacks), outcome == Done)
    {
      outcome := *;
      calls := calls + [Plain(handle, outcome)];
      Answer(outcome == Done);
    }

    /** os.Open on a directory: whichever device the path leads to. */
    method OpenDirectory(path: Path) returns (r: Result<Handle>)
      modifies this`setbacks
      ensures if r.Ok? then r.value.OnSpool? && r.value.path == path else r.error == OpenFailed
      ensures setbacks == Setback(old(setbacks), r.Ok?)
    {
      var ok: bool, device: int := *, *;
      r := if ok then Ok(OnSpool(path, device)) else Err(OpenFailed);
      Answer(ok);
    }

    /** deviceOfInfo on an open handle. */
    method DeviceOf(handle: Handle) returns (r: Result<int>)
      requires handle.OnSpool?
      modifies this`setbacks
      ensures r == Ok(handle.device) || r == Err(StatFailed)
      ensures setbacks == Setback(old(setbacks), r.Ok?)
    {
      var ok: bool := *;
      r := if ok then Ok(handle.device) else Err(StatFailed);
      Answer(ok);
    }

    /** The ghost record of a handle that is on another device than the probed one. */
    ghost method Stray(handle: Handle, syncer: Syncer)
      requires handle.OnSpool? && syncer.Syncer? && handle.device != syncer.device
      modifies this`setbacks
      ensures setbacks == Setback(old(setbacks), false)
    {
      setbacks := setbacks + 1;
    }
  }

  /** syncAt. */
  method SyncAt(os: Platform, mode: Mode, handle: Handle) returns (outcome: Outcome)
    modifies os
    ensures os.calls == old(os.calls) + [SyncCall(mode, handle, outcome)]
    ensures os.setbacks == Setback(old(os.setbacks), outcome == Done)
  {
    if mode == HostLoss { outcome := os.SyncFileData(handle); } else { outcome := os.Fsync(handle); }
  }

  method VerifyProcessCrash(os: Platform) returns (r: Result<Mode>)
    modifies os
    ensures r.Ok? ==> r.value == ProcessCrash && os.calls == old(os.calls) + PLAIN_WORKS
    ensures r.Err? ==> r.error == SyncFailed && Blames(os.calls, r.error) && old(os.calls) < os.calls
  {
    var file := os.Fsync(ProbeFile);
    if file != Done { return Err(SyncFailed); }
    var dir := os.Fsync(ProbeDir);
    if dir != Done { return Err(SyncFailed); }
    r := Ok(ProcessCrash);
  }

  method MeasureMode(os: Platform, volume: Filesystem) returns (r: Result<Mode>, ghost measured: seq<Call>)
    modifies os
    ensures r.Ok? ==>
      Justifies(measured, volume.isVolatile, r.value) && os.calls == old(os.calls) + [Did(WriteProbe, true)] + measured
    ensures r.Err? ==> r.error != CommitFailed && r.error != CreateFailed
    ensures r.Err? ==> Blames(os.calls, r.error) && old(os.calls) < os.calls
  {
    measured := [];
    var ok := os.Attempt(WriteProbe);
    if !ok { return Err(WriteFailed), []; }
    if volume.isVolatile {
      measured := PLAIN_WORKS;
      r := VerifyProcessCrash(os);
      return;
    }
    var file := os.SyncFileData(ProbeFile);
    if file == Unsupported {
      measured := [Full(ProbeFile, Unsupported)] + PLAIN_WORKS;
      r := VerifyProcessCrash(os);
      return;
    }
    if file != Done { return Err(SyncFailed), []; }
    var dir := os.SyncFileData(ProbeDir);
    if dir == Unsupported {
      measured := [Full(ProbeFile, Done), Full(ProbeDir, Unsupported)] + PLAIN_WORKS;
      r := VerifyProcessCrash(os);
      return;
    }
    if dir != Done { return Err(SyncFailed), []; }
    measured := [Full(ProbeFile, Done), Full(ProbeDir, Done)];
    r := Ok(HostLoss);
  }

  method CommitProbeRemoval(os: Platform, mode: Mode) returns (failed: bool, error: Error)
    modifies os
    ensures !failed ==>
      os.calls == old(os.calls) + [Did(CloseProbe, true), Did(RemoveProbe, true), SyncCall(mode, ProbeDir, Done)]
    ensures failed ==> error != SyncFailed && error != CreateFailed
    ensures failed ==> Blames(os.calls, error) && old(os.calls) < os.calls
  {
    var closed := os.Attempt(CloseProbe);
    if !closed { return true, CloseFailed; }
    var removed := os.Attempt(RemoveProbe);
    if !removed { return true, RemoveFailed; }
    var synced := SyncAt(os, mode, ProbeDir);
    failed, error := synced != Done, CommitFailed;
  }

  /** probeMode. A failure after the file exists still tries to close and remove it. */
  method ProbeMode(os: Platform, volume: Filesystem) returns (r: Result<Mode>, ghost measured: seq<Call>)
    modifies os
    ensures r.Ok? ==> exists run ::
      ProbeRun(run, measured, volume.isVolatile, r.value) && os.calls == old(os.calls) + run
    ensures r.Err? ==> FailedRun(old(os.calls), os.calls, r.error)
  {
    measured := [];
    var created := os.Attempt(CreateProbe);
    if !created {
      assert FailedRun(old(os.calls), os.calls, CreateFailed) by { assert os.calls[|os.calls|..] == []; }
      return Err(CreateFailed), [];
    }
    var openOk := os.Attempt(OpenDir);
    if !openOk {
      r := Err(OpenDirFailed);
    } else {
      r, measured := MeasureMode(os, volume);
      if r.Ok? {
        var failed, error := CommitProbeRemoval(os, r.value);
        if !failed {
          ghost var run := [Did(CreateProbe, true), Did(OpenDir, true), Did(WriteProbe, true)] + measured
            + [Did(CloseProbe, true), Did(RemoveProbe, true), SyncCall(r.value, ProbeDir, Done)];
          assert ProbeRun(run, measured, volume.isVolatile, r.value) && os.calls == old(os.calls) + run;
          return;
        }
        r := Err(error);
      }
    }
    Sweep(os, old(os.calls), r.error);
  }

  /** The deferred close and remove of a probe that failed. */
  method Sweep(os: Platform, ghost before: seq<Call>, ghost error: Error)
    requires before < os.calls && Blames(os.calls, error) && error != CreateFailed
    modifies os
    ensures FailedRun(before, os.calls, error)
  {
    ghost var n := |os.calls|;
    ghost var run := os.calls[|before|..];
    var closed := os.Attempt(CloseProbe);
    var removed := os.Attempt(RemoveProbe);
    assert os.calls[n..] == [Did(CloseProbe, closed), Did(RemoveProbe, removed)];
    assert os.calls[|before|..n] == run;
  }

  /** Probe: dir is absolute; inspected and device are the platform's answers about it. A
      syncer is made only off network volumes, at a mode the probe justified. */
  method Probe(os: Platform, dir: string, inspected: Result<Filesystem>, device: Result<int>)
    returns (r: Result<Syncer>, ghost measured: seq<Call>)
    modifies os
    ensures r.Ok? ==>
      && inspected.Ok? && device.Ok? && !inspected.value.network
      && r.value.Syncer? && r.value.dir == dir && r.value.device == device.value
      && r.value.filesystem == inspected.value.name
      && exists run :: ProbeRun(run, measured, inspected.value.isVolatile, r.value.mode)
                       && os.calls == old(os.calls) + run
    ensures r.Ok? ==> Attests(os.calls, r.value)
    ensures inspected.Ok? && inspected.value.network ==> r == Err(NetworkFilesystem) && os.calls == old(os.calls)
    ensures inspected.Err? ==> r == Err(InspectFailed) && os.calls == old(os.calls)
    ensures inspected.Ok? && !inspected.value.network && device.Err? ==> r == Err(DeviceUnknown) && os.calls == old(os.calls)
    ensures inspected.Ok? && !inspected.value.network && device.Ok? && r.Err? ==> FailedRun(old(os.calls), os.calls, r.error)
  {
    measured := [];
    if inspected.Err? { return Err(InspectFailed), []; }
    if inspected.value.network { return Err(NetworkFilesystem), []; }
    if device.Err? { return Err(DeviceUnknown), []; }
    var mode;
    mode, measured := ProbeMode(os, inspected.value);
    if mode.Err? { return Err(mode.error), []; }
    r := Ok(Syncer(dir, device.value, mode.value, inspected.value.name));
    ghost var run :|
      ProbeRun(run, measured, inspected.value.isVolatile, mode.value) && os.calls == old(os.calls) + run;
    assert os.calls[|old(os.calls)|..|os.calls|] == run;
  }

  /** VerifyFile: device is the answer about the open handle. */
  function VerifyFile(syncer: Syncer, device: Result<int>): (r: Result<()>)
    ensures r.Ok? <==> syncer.Verified() && device.Ok? && device.value == syncer.device
    ensures r == Err(Unprobed) <==> syncer.Zero?
    ensures r == Err(StatFailed) <==> syncer.Syncer? && device.Err?
    ensures r == Err(ForeignFilesystem) <==> syncer.Syncer? && device.Ok? && device.value != syncer.device
  {
    if !syncer.Verified() then Err(Unprobed)
    else if device.Err? then Err(StatFailed)
    else if device.value != syncer.device then Err(ForeignFilesystem)
    else Ok(())
  }
  /** SyncFile: the zero syncer refuses, any other uses the primitive of its mode. */
  method SyncFile(os: Platform, syncer: Syncer, handle: Handle) returns (r: Result<()>, ghost outcome: Outcome)
    modifies os
    ensures syncer.Zero? ==> r == Err(Unprobed) && os.calls == old(os.calls)
    ensures syncer.Syncer? ==>
      && os.calls == old(os.calls) + [SyncCall(syncer.mode, handle, outcome)]
      && os.setbacks == Setback(old(os.setbacks), outcome == Done)
      && r == if outcome == Done then Ok(()) else Err(SyncFailed)
  {
    outcome := Failed;
    if !syncer.Verified() { return Err(Unprobed), outcome; }
    var answer := SyncAt(os, syncer.mode, handle);
    outcome := answer;
    r := if answer == Done then Ok(()) else Err(SyncFailed);
  }

  /** SyncDir: nothing is synced through a handle that leads to another device than the
      probed one; success is one sync of the directory, on that device, at the mode. */
  method SyncDir(os: Platform, syncer: Syncer, path: Path) returns (r: Result<()>)
    modifies os
    ensures syncer.Zero? ==> r == Err(Unprobed) && os.calls == old(os.calls)
    ensures r.Ok? ==> os.calls == old(os.calls) + [SyncCall(syncer.mode, OnSpool(path, syncer.device), Done)]
    ensures syncer.Syncer? ==> os.setbacks == Setback(old(os.setbacks), r.Ok?)
    ensures syncer.Syncer? && r.Err? && os.calls == old(os.calls) ==>
      r.error == OpenFailed || r.error == StatFailed || r.error == ForeignFilesystem
    ensures r.Err? ==> os.calls == old(os.calls) || (r.error == SyncFailed && exists outcome ::
      (outcome != Done && os.calls == old(os.calls) + [SyncCall(syncer.mode, OnSpool(path, syncer.device), outcome)]))
  {
    if !syncer.Verified() { return Err(Unprobed); }
    var handle := os.OpenDirectory(path);
    if handle.Err? { return Err(handle.error); }
    var device := os.DeviceOf(handle.value);
    r := VerifyFile(syncer, device);
    if r.Err? {
      if device.Ok? { os.Stray(handle.value, syncer); }
      return;
    }
    var outcome := SyncAt(os, syncer.mode, handle.value);
    if outcome != Done { r := Err(SyncFailed); }
  }
}
