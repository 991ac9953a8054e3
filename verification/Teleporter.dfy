/**
 The migration state machine (wraith-control/wraith/teleporter.py) and the exit status of the
 restorer it relies on (wraith-rust/src/bin/restorer.rs).

 Exceptions are values.  Every outcome of a subprocess, an SSH command or a signal is the
 environment's choice.
 */
module Teleporter {
  import opened Wrappers

  datatype State =
    | Init | Preflight | Capturing | Transferring | Restoring | Complete | RollingBack | RolledBack | Failed

  // EscapedExn stands for every exception that is not a WraithError.
  datatype Exn = PreflightExn | CaptureExn | TransferExn | RestoreExn | WraithExn | RollbackExn | EscapedExn

  // ---------- The restorer's exit status ----------

  /** What the restore library did: failed, or left a process running with or without descriptor failures. */
  datatype RestorerRun = NotRestored | Restored(fdFailures: bool)

  /** Exit code of wraith-restorer; under --strict-fds it kills a process whose descriptors failed. */
  function ExitCode(run: RestorerRun, strict: bool): int {
    match run
    case NotRestored => 1
    case Restored(fdFailures) => if fdFailures && strict then 2 else 0
  }

  predicate LeavesProcess(run: RestorerRun, strict: bool) {
    run.Restored? && !(run.fdFailures && strict)
  }

  // ---------- The environment ----------

  datatype Check = Passed | Blocked | CheckRaised | CheckEscaped

  datatype Proc = Exited(code: int) | TimedOut | NotFound | ProcEscaped

  // The restorer reports its exit status, some other status (a missing binary, a lost channel), or SSH fails.
  datatype Remote = Reported(run: RestorerRun) | OtherStatus(code: int, left: bool) | SshFailed(left: bool)

  datatype Kill = Delivered | NoSuchProcess | Denied

  datatype Env = Env(
    connects: bool, check: Check, tempFile: bool, capturer: Proc, sizeReadable: bool,
    receiverStarts: bool, transmitter: Proc, restorer: Remote, parsedPid: int,
    term: Kill, kill: Kill, resume: Proc, sizeReadableAtEnd: bool, unlinks: bool)

  // A status other than the restorer's own is not 0.
  predicate Plausible(env: Env) { env.restorer.OtherStatus? ==> env.restorer.code != 0 }

  datatype Signal = Sigterm | Sigkill

  /** What the outside world gets to see, in order. */
  datatype Event =
    | RanCapturer | RanTransmitter | RestorerEnded(status: Option<int>) | RanResume(ok: bool) | Signalled(s: Signal)

  // ---------- Phases ----------

  /** States entered, events caused, and how a phase ends. */
  datatype Trail = Trail(states: seq<State>, events: seq<Event>, exn: Option<Exn>)

  function Then(t: Trail, next: Trail): Trail {
    if t.exn.Some? then t else Trail(t.states + next.states, t.events + next.events, next.exn)
  }

  function PreflightTrail(env: Env): Trail {
    Trail([Preflight], [],
          match env.check
          case Passed => None
          case Blocked => Some(PreflightExn)
          case CheckRaised => Some(WraithExn)
          case CheckEscaped => Some(EscapedExn))
  }

  /** subprocess.run with the phase's own error for timeouts, missing binaries and non-zero exits. */
  function ProcExn(p: Proc, e: Exn): Option<Exn> {
    match p
    case Exited(code) => if code != 0 then Some(e) else None
    case TimedOut => Some(e)
    case NotFound => Some(e)
    case ProcEscaped => Some(EscapedExn)
  }

  function CaptureTrail(env: Env): Trail {
    if !env.tempFile then Trail([Capturing], [], Some(EscapedExn))
    else
      var e := ProcExn(env.capturer, CaptureExn);
      Trail([Capturing], [RanCapturer], if e.Some? then e else if env.sizeReadable then None else Some(EscapedExn))
  }

  function TransferTrail(env: Env): Trail {
    if !env.receiverStarts then Trail([Transferring], [], Some(TransferExn))
    else Trail([Transferring], [RanTransmitter], ProcExn(env.transmitter, TransferExn))
  }

  function RestorerStatus(env: Env, strict: bool): Option<int> {
    match env.restorer
    case Reported(run) => Some(ExitCode(run, strict))
    case OtherStatus(code, _) => Some(code)
    case SshFailed(_) => None
  }

  function RestoreTrail(env: Env, strict: bool): Trail {
    var status := RestorerStatus(env, strict);
    Trail([Restoring], [RestorerEnded(status)], if status == Some(0) then None else Some(RestoreExn))
  }

  /** The point of no return. */
  function CommitTrail(env: Env): Trail {
    match env.term
    case NoSuchProcess => Trail([], [], None)
    case Denied => Trail([], [], Some(EscapedExn))
    case Delivered =>
      match env.kill
      case Delivered => Trail([], [Signalled(Sigterm), Signalled(Sigkill)], None)
      case NoSuchProcess => Trail([], [Signalled(Sigterm)], None)
      case Denied => Trail([], [Signalled(Sigterm)], Some(EscapedExn))
  }

  /** Everything before the commit. */
  function Prepared(env: Env, strict: bool): Trail {
    Then(Then(Then(PreflightTrail(env), CaptureTrail(env)), TransferTrail(env)), RestoreTrail(env, strict))
  }

  function Attempt(env: Env, strict: bool, verifyOnly: bool): Trail {
    if verifyOnly then Prepared(env, strict) else Then(Prepared(env, strict), CommitTrail(env))
  }

  /** Resuming the source; any failure at all, even an unexpected one, is a RollbackError. */
  function RollbackTrail(env: Env): Trail {
    if env.resume == Exited(0) then Trail([RollingBack, RolledBack], [RanResume(true)], None)
    else Trail([RollingBack, Failed], [RanResume(false)], Some(RollbackExn))
  }

  /** What follows the attempt: completion, or the exception handler that applies. */
  function Closing(env: Env, e: Option<Exn>): Trail {
    match e
    case None => Trail([Complete], [], if env.sizeReadableAtEnd then None else Some(EscapedExn))
    case Some(PreflightExn) => Trail([RolledBack], [], e)
    case Some(EscapedExn) => Trail([], [], e)
    case Some(_) => RollbackTrail(env).(exn := if RollbackTrail(env).exn.Some? then RollbackTrail(env).exn else e)
  }

  /** A whole run of migrate(). */
  function Migration(env: Env, strict: bool, verifyOnly: bool): Trail {
    if !env.connects then Trail([], [], Some(WraithExn))
    else
      var a := Attempt(env, strict, verifyOnly);
      var c := Closing(env, a.exn);
      Trail(a.states + c.states, a.events + c.events, c.exn)
  }

  /** The state machine's position and everything that led to it. */
  datatype Progress = Progress(state: State, visited: seq<State>, events: seq<Event>)

  ghost function Advance(p: Progress, t: Trail): Progress {
    Progress(if t.states == [] then p.state else t.states[|t.states| - 1], p.visited + t.states, p.events + t.events)
  }

  lemma AdvanceThen(p: Progress, t: Trail, next: Trail)
    ensures Advance(p, Then(t, next)) == if t.exn.Some? then Advance(p, t) else Advance(Advance(p, t), next)
    ensures Then(t, next).exn == if t.exn.Some? then t.exn else next.exn
  {
    if t.exn == None {
      assert p.visited + (t.states + next.states) == (p.visited + t.states) + next.states;
      assert p.events + (t.events + next.events) == (p.events + t.events) + next.events;
    }
  }

  /** Entering one more state, or following one more trail, at the end of a trail. */
  lemma AdvanceMore(p: Progress, t: Trail, next: Trail, e: Option<Exn>)
    ensures Advance(p, Trail(t.states + next.states, t.events + next.events, e)) == Advance(Advance(p, t), next)
  {
    assert p.visited + (t.states + next.states) == (p.visited + t.states) + next.states;
    assert p.events + (t.events + next.events) == (p.events + t.events) + next.events;
  }

  // ---------- The orchestrator ----------

  class Orchestrator {
    const env: Env
    const strictFds: bool
    var state: State
    var snapshotFile: bool      // the temporary snapshot is on disk
    var snapshotPath: bool      // self._snapshot_path is set
    var remotePath: bool        // self._remote_snapshot_path is set
    var destinationPid: Option<int>
    var visited: seq<State>     // states entered since construction
    var events: seq<Event>

    constructor (env: Env, strictFds: bool)
      ensures this.env == env && this.strictFds == strictFds
      ensures state == Init && visited == [] && events == [] && !snapshotFile && !snapshotPath && !remotePath
          && destinationPid == None
    {
      this.env, this.strictFds := env, strictFds;
      state, visited, events := Init, [], [];
      snapshotFile, snapshotPath, remotePath, destinationPid := false, false, false, None;
    }

    ghost function Now(): Progress
      reads this
    {
      Progress(state, visited, events)
    }

    method Transition(s: State)
      modifies this`state, this`visited
      ensures state == s && visited == old(visited) + [s]
    {
      state := s;
      visited := visited + [s];
    }

    method RunPreflight() returns (e: Option<Exn>)
      modifies this`state, this`visited
      ensures Now() == Advance(old(Now()), PreflightTrail(env)) && e == PreflightTrail(env).exn
    {
      Transition(Preflight);
      match env.check {
        case Passed => return None;
        case Blocked => return Some(PreflightExn);
        case CheckRaised => return Some(WraithExn);
        case CheckEscaped => return Some(EscapedExn);
      }
    }

    method RunCapture() returns (e: Option<Exn>)
      modifies this`state, this`visited, this`events, this`snapshotFile, this`snapshotPath
      ensures Now() == Advance(old(Now()), CaptureTrail(env)) && e == CaptureTrail(env).exn
      ensures e == None ==> snapshotPath
      ensures snapshotFile ==> snapshotPath || old(snapshotFile)
    {
      Transition(Capturing);
      if !env.tempFile { return Some(EscapedExn); }
      snapshotFile, snapshotPath := true, true;
      events := events + [RanCapturer];
      e := ProcExn(env.capturer, CaptureExn);
      if e.Some? { return; }
      if !env.sizeReadable { return Some(EscapedExn); }
    }

    // The source asserts that the snapshot path is set; it is, whenever this phase is reached.
    method RunTransfer() returns (e: Option<Exn>)
      requires snapshotPath
      modifies this`state, this`visited, this`events, this`remotePath
      ensures Now() == Advance(old(Now()), TransferTrail(env)) && e == TransferTrail(env).exn
      ensures remotePath
    {
      Transition(Transferring);
      remotePath := true;
      if !env.receiverStarts { return Some(TransferExn); }
      events := events + [RanTransmitter];
      e := ProcExn(env.transmitter, TransferExn);
    }

    method RunRestore() returns (e: Option<Exn>)
      requires remotePath
      modifies this`state, this`visited, this`events, this`destinationPid
      ensures Now() == Advance(old(Now()), RestoreTrail(env, strictFds)) && e == RestoreTrail(env, strictFds).exn
      ensures e == None ==> destinationPid == Some(env.parsedPid)
    {
      Transition(Restoring);
      var status := RestorerStatus(env, strictFds);
      events := events + [RestorerEnded(status)];
      if status == None { return Some(RestoreExn); }
      if status.value == 2 && strictFds { return Some(RestoreExn); }
      if status.value != 0 { return Some(RestoreExn); }
      destinationPid := Some(env.parsedPid);
      e := None;
    }

    method TerminateSource() returns (e: Option<Exn>)
      modifies this`events
      ensures Now() == Advance(old(Now()), CommitTrail(env)) && e == CommitTrail(env).exn
    {
      match env.term {
        case NoSuchProcess => return None;
        case Denied => return Some(EscapedExn);
        case Delivered =>
          events := events + [Signalled(Sigterm)];
      }
      match env.kill {
        case NoSuchProcess => return None;
        case Denied => return Some(EscapedExn);
        case Delivered =>
          events := events + [Signalled(Sigkill)];
      }
      e := None;
    }

    method Rollback() returns (e: Option<Exn>)
      modifies this`state, this`visited, this`events
      ensures Now() == Advance(old(Now()), RollbackTrail(env)) && e == RollbackTrail(env).exn
    {
      Transition(RollingBack);
      events := events + [RanResume(env.resume == Exited(0))];
      match env.resume {
        case Exited(code) =>
          if code == 0 {
            Transition(RolledBack);
            return None;
          }
          Transition(Failed);
          return Some(RollbackExn);
        case _ =>
          Transition(Failed);
          return Some(RollbackExn);
      }
    }

    method CleanupSnapshot()
      modifies this`snapshotFile
      ensures snapshotFile == (old(snapshotFile) && !(snapshotPath && env.unlinks))
    {
      if snapshotPath && snapshotFile && env.unlinks {
        snapshotFile := false;
      }
    }

    /** The body of the try statement up to the commit. */
    method TryMigrate(verifyOnly: bool) returns (e: Option<Exn>)
      modifies this
      ensures Now() == Advance(old(Now()), Attempt(env, strictFds, verifyOnly))
          && e == Attempt(env, strictFds, verifyOnly).exn
      ensures e == None ==> destinationPid == Some(env.parsedPid)
      ensures snapshotFile ==> snapshotPath || old(snapshotFile)
    {
      hide Then, Advance, PreflightTrail, CaptureTrail, TransferTrail, RestoreTrail, CommitTrail;
      ghost var p, c, t, r := PreflightTrail(env), CaptureTrail(env), TransferTrail(env), RestoreTrail(env, strictFds);
      ghost var start := Now();
      AdvanceThen(start, p, c);
      AdvanceThen(start, Then(p, c), t);
      AdvanceThen(start, Then(Then(p, c), t), r);
      AdvanceThen(start, Then(Then(Then(p, c), t), r), CommitTrail(env));
      e := RunPreflight();
      if e.Some? { return; }
      e := RunCapture();
      if e.Some? { return; }
      e := RunTransfer();
      if e.Some? { return; }
      e := RunRestore();
      if e.Some? { return; }
      if !verifyOnly {
        e := TerminateSource();
      }
    }

    /** Completion, or the handler for the exception that ended the attempt. */
    method Close(e: Option<Exn>) returns (result: Result<int, Exn>)
      requires e == None ==> destinationPid == Some(env.parsedPid)
      modifies this`state, this`visited, this`events
      ensures Now() == Advance(old(Now()), Closing(env, e))
      ensures Closing(env, e).exn == if result.Success? then None else Some(result.error)
      ensures result.Success? ==> result.value == env.parsedPid && state == Complete
    {
      match e {
        case None =>
          Transition(Complete);
          result := if env.sizeReadableAtEnd then Success(destinationPid.value) else Failure(EscapedExn);
        case Some(PreflightExn) =>
          Transition(RolledBack);
          result := Failure(PreflightExn);
        case Some(EscapedExn) =>
          result := Failure(EscapedExn);
        case Some(cause) =>
          var failed := Rollback();
          result := Failure(if failed.Some? then failed.value else cause);
      }
    }

    /** On success the result names the destination process; whatever happens, the snapshot file
        is removed unless the file system refuses. */
    method Migrate(verifyOnly: bool) returns (result: Result<int, Exn>)
      requires !snapshotFile
      modifies this
      ensures Now() == Advance(old(Now()), Migration(env, strictFds, verifyOnly))
      ensures Migration(env, strictFds, verifyOnly).exn == if result.Success? then None else Some(result.error)
      ensures result.Success? ==> result.value == env.parsedPid && state == Complete
      ensures snapshotFile ==> !env.unlinks
    {
      hide Attempt, Closing;
      ghost var start, a := Now(), Attempt(env, strictFds, verifyOnly);
      ghost var c := Closing(env, a.exn);
      if !env.connects { return Failure(WraithExn); }
      var e := TryMigrate(verifyOnly);
      result := Close(e);
      AdvanceMore(start, a, c, c.exn);
      CleanupSnapshot();
    }
  }
}
