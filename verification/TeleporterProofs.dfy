/**
 Safety of the migration state machine over every run, and over any series of runs.
 */
module TeleporterProofs {
  import opened Wrappers
  import opened Teleporter

  // ---------- Legal paths ----------

  /** The documented graph, with the one edge the code adds: a failed preflight goes straight to rolled back. */
  predicate LegalEdge(a: State, b: State) {
    match a
    case Init => b.Preflight?
    case Preflight => b.Capturing? || b.RollingBack? || b.RolledBack?
    case Capturing => b.Transferring? || b.RollingBack?
    case Transferring => b.Restoring? || b.RollingBack?
    case Restoring => b.Complete? || b.RollingBack?
    case RollingBack => b.RolledBack? || b.Failed?
    case _ => false
  }

  ghost predicate LegalPath(from: State, path: seq<State>)
    decreases |path|
  {
    path == [] || (LegalEdge(from, path[0]) && LegalPath(path[0], path[1..]))
  }

  function Last(from: State, path: seq<State>): State {
    if path == [] then from else path[|path| - 1]
  }

  lemma {:induction false} LegalConcat(from: State, a: seq<State>, b: seq<State>)
    requires LegalPath(from, a) && LegalPath(Last(from, a), b)
    ensures LegalPath(from, a + b) && Last(from, a + b) == Last(Last(from, a), b)
    decreases |a|
  {
    if a == [] {
      assert a + b == b;
    } else {
      LegalConcat(a[0], a[1..], b);
      assert (a + b)[1..] == a[1..] + b;
    }
  }

  lemma LegalOne(from: State, s: State)
    requires LegalEdge(from, s)
    ensures LegalPath(from, [s]) && Last(from, [s]) == s
  {
    assert [s][1..] == [];
  }

  predicate WorkingPath(path: seq<State>) {
    path == [Preflight] || path == [Preflight, Capturing] || path == [Preflight, Capturing, Transferring]
    || path == [Preflight, Capturing, Transferring, Restoring]
  }

  lemma WorkingPathLegal(path: seq<State>)
    requires WorkingPath(path)
    ensures LegalPath(Init, path)
  {
    LegalOne(Transferring, Restoring);
    LegalOne(Capturing, Transferring);
    LegalOne(Preflight, Capturing);
    LegalOne(Init, Preflight);
    assert [Transferring, Restoring][1..] == [Restoring];
    assert [Capturing, Transferring, Restoring][1..] == [Transferring, Restoring];
    assert [Capturing, Transferring][1..] == [Transferring];
    assert [Preflight, Capturing, Transferring, Restoring][1..] == [Capturing, Transferring, Restoring];
    assert [Preflight, Capturing, Transferring][1..] == [Capturing, Transferring];
    assert [Preflight, Capturing][1..] == [Capturing];
  }

  lemma PreparedPath(env: Env, strict: bool)
    ensures var p := Prepared(env, strict);
            WorkingPath(p.states)
            && (p.exn == None ==> |p.states| == 4)
            && (p.exn == Some(PreflightExn) <==> env.check.Blocked?)
            && (p.exn == Some(PreflightExn) ==> p.states == [Preflight] && p.events == [])
  {
    hide RestorerStatus;
    assert [Preflight] + [Capturing] == [Preflight, Capturing];
    assert [Preflight, Capturing] + [Transferring] == [Preflight, Capturing, Transferring];
    assert [Preflight, Capturing, Transferring] + [Restoring] == [Preflight, Capturing, Transferring, Restoring];
  }

  /** An attempt follows the graph and stops in a working state, past all of them if it succeeds. */
  lemma AttemptLegal(env: Env, strict: bool, verifyOnly: bool)
    ensures var a := Attempt(env, strict, verifyOnly);
            LegalPath(Init, a.states)
            && Last(Init, a.states) in {Preflight, Capturing, Transferring, Restoring}
            && (a.exn == None ==> Last(Init, a.states) == Restoring)
            && (a.exn == Some(PreflightExn) <==> env.check.Blocked?)
            && (a.exn == Some(PreflightExn) ==> a.states == [Preflight] && a.events == [])
  {
    hide Prepared;
    PreparedPath(env, strict);
    var p := Prepared(env, strict);
    WorkingPathLegal(p.states);
    assert p.states + [] == p.states;
    assert Attempt(env, strict, verifyOnly).states == p.states;
  }

  lemma ClosingLegal(env: Env, from: State, e: Option<Exn>)
    requires from in {Preflight, Capturing, Transferring, Restoring}
    requires (e == None ==> from == Restoring) && (e == Some(PreflightExn) ==> from == Preflight)
    ensures var c := Closing(env, e).states;
            LegalPath(from, c) && (Last(from, c) in {Complete, RolledBack, Failed} <==> e != Some(EscapedExn))
  {
    var c := Closing(env, e).states;
    if |c| == 1 {
      LegalOne(from, c[0]);
    } else if |c| == 2 {
      LegalOne(from, RollingBack);
      LegalOne(RollingBack, c[1]);
      LegalConcat(from, [RollingBack], [c[1]]);
      assert c == [RollingBack] + [c[1]];
    }
  }

  /** The environment lets an exception through that is not the tool's own: in the preflight checks, while
      making the temporary file, running the capturer or sizing the snapshot, while running the
      transmitter, or because the source may not be signalled. */
  predicate Escapes(env: Env, strict: bool, verifyOnly: bool) {
    env.check.CheckEscaped?
    || (env.check.Passed?
        && (!env.tempFile || env.capturer.ProcEscaped?
            || (env.capturer == Exited(0) && (!env.sizeReadable || EscapesLater(env, strict, verifyOnly)))))
  }

  /** After a capture that succeeded. */
  predicate EscapesLater(env: Env, strict: bool, verifyOnly: bool) {
    env.receiverStarts
    && (env.transmitter.ProcEscaped?
        || (env.transmitter == Exited(0) && RestorerStatus(env, strict) == Some(0) && !verifyOnly
            && (env.term.Denied? || (env.term.Delivered? && env.kill.Denied?))))
  }

  lemma EscapesExactly(env: Env, strict: bool, verifyOnly: bool)
    ensures Attempt(env, strict, verifyOnly).exn == Some(EscapedExn) <==> Escapes(env, strict, verifyOnly)
  {
  }

  /** Every run follows the graph.  It ends in COMPLETE, ROLLED_BACK or FAILED if and only if the
      session opened and no foreign exception escaped before the commit was over. */
  lemma EveryRunLegal(env: Env, strict: bool, verifyOnly: bool)
    ensures var t := Migration(env, strict, verifyOnly);
            LegalPath(Init, t.states)
            && (Last(Init, t.states) in {Complete, RolledBack, Failed}
                <==> env.connects && !Escapes(env, strict, verifyOnly))
  {
    EscapesExactly(env, strict, verifyOnly);
    hide Attempt, Closing, Escapes;
    var a := Attempt(env, strict, verifyOnly);
    AttemptLegal(env, strict, verifyOnly);
    if env.connects {
      ClosingLegal(env, Last(Init, a.states), a.exn);
      LegalConcat(Init, a.states, Closing(env, a.exn).states);
    }
  }

  // ---------- Outcomes ----------

  /** A blocking preflight failure has no effect on the outside world. */
  lemma PreflightFailureTouchesNothing(env: Env, strict: bool, verifyOnly: bool)
    requires env.connects && env.check.Blocked?
    ensures Migration(env, strict, verifyOnly) == Trail([Preflight, RolledBack], [], Some(PreflightExn))
  {
  }

  // ---------- How a run ends, in terms of the environment alone ----------

  /** The subprocess failed in one of the ways that the phase turns into its own error. */
  predicate Fails(p: Proc) { p.TimedOut? || p.NotFound? || (p.Exited? && p.code != 0) }

  predicate Works(p: Proc) { p.Exited? && p.code == 0 }

  predicate Captured(env: Env) {
    env.connects && env.check.Passed? && env.tempFile && Works(env.capturer) && env.sizeReadable
  }

  predicate Transferred(env: Env) { Captured(env) && env.receiverStarts && Works(env.transmitter) }

  /** The restorer left a process and says so; under strict descriptors no descriptor failed. */
  predicate RestorerGood(env: Env, strict: bool) {
    match env.restorer
    case Reported(Restored(fdFailures)) => !fdFailures || !strict
    case OtherStatus(code, _) => code == 0
    case _ => false
  }

  predicate RestoredThere(env: Env, strict: bool) { Transferred(env) && RestorerGood(env, strict) }

  /** The source is gone already, or may be signalled as far as it takes. */
  predicate MayCommit(env: Env) { env.term.NoSuchProcess? || (env.term.Delivered? && !env.kill.Denied?) }

  /** The error of the phase that stopped the run, if it is one that the tool raises for it. */
  function Raised(env: Env, strict: bool): Option<Exn> {
    if env.connects && env.check.CheckRaised? then Some(WraithExn)
    else if env.connects && env.check.Passed? && env.tempFile && Fails(env.capturer) then Some(CaptureExn)
    else if Captured(env) && (!env.receiverStarts || Fails(env.transmitter)) then Some(TransferExn)
    else if Transferred(env) && !RestorerGood(env, strict) then Some(RestoreExn)
    else None
  }

  lemma StatusIsGood(env: Env, strict: bool)
    ensures RestorerStatus(env, strict) == Some(0) <==> RestorerGood(env, strict)
  {
  }

  lemma PreparedEnds(env: Env, strict: bool)
    requires env.connects
    ensures var e := Prepared(env, strict).exn;
            (e == None <==> RestoredThere(env, strict))
            && (e == Some(PreflightExn) <==> env.check.Blocked?)
            && (Raised(env, strict).Some? ==> e == Raised(env, strict))
            && (e.Some? && e != Some(PreflightExn) && e != Some(EscapedExn) ==> e == Raised(env, strict))
  {
    hide RestorerStatus, RestorerGood;
    StatusIsGood(env, strict);
  }

  lemma AttemptEnds(env: Env, strict: bool, verifyOnly: bool)
    requires env.connects
    ensures var e := Attempt(env, strict, verifyOnly).exn;
            (e == None <==> RestoredThere(env, strict) && (verifyOnly || MayCommit(env)))
            && (e == Some(PreflightExn) <==> env.check.Blocked?)
            && (Raised(env, strict).Some? <==> e.Some? && e != Some(PreflightExn) && e != Some(EscapedExn))
            && (Raised(env, strict).Some? ==> e == Raised(env, strict) && e != Some(RollbackExn))
  {
    PreparedEnds(env, strict);
    hide Prepared, RestoredThere;
  }

  lemma LastConcat(from: State, a: seq<State>, b: seq<State>)
    ensures Last(from, a + b) == Last(Last(from, a), b)
  {
  }

  lemma ClosingEnds(env: Env, from: State, e: Option<Exn>)
    ensures var c := Closing(env, e);
            if e == None then
              Last(from, c.states) == Complete && c.exn == if env.sizeReadableAtEnd then None else Some(EscapedExn)
            else if e == Some(PreflightExn) then Last(from, c.states) == RolledBack && c.exn == e
            else if e == Some(EscapedExn) then Last(from, c.states) == from && c.exn == e
            else if Works(env.resume) then Last(from, c.states) == RolledBack && c.exn == e
            else Last(from, c.states) == Failed && c.exn == Some(RollbackExn)
  {
  }

  /** Which state a run ends in, and with which exception, for every environment. */
  lemma RunEnds(env: Env, strict: bool, verifyOnly: bool)
    ensures var t := Migration(env, strict, verifyOnly);
            var raised, last := Raised(env, strict), Last(Init, t.states);
            (last == Complete <==> RestoredThere(env, strict) && (verifyOnly || MayCommit(env)))
            && (last == RolledBack <==> env.connects && (env.check.Blocked? || (raised.Some? && Works(env.resume))))
            && (last == Failed <==> raised.Some? && !Works(env.resume))
            && (last == Init <==> !env.connects)
            && (last == Failed <==> t.exn == Some(RollbackExn))
            && (last == RolledBack ==> t.exn == if env.check.Blocked? then Some(PreflightExn) else raised)
            && (last == Complete ==> t.exn == if env.sizeReadableAtEnd then None else Some(EscapedExn))
            && (last == Init ==> t.exn == Some(WraithExn))
            && (last !in {Complete, RolledBack, Failed, Init} ==> t.exn == Some(EscapedExn))
  {
    if env.connects {
      AttemptEnds(env, strict, verifyOnly);
      AttemptLegal(env, strict, verifyOnly);
      var a := Attempt(env, strict, verifyOnly);
      ClosingEnds(env, Last(Init, a.states), a.exn);
      LastConcat(Init, a.states, Closing(env, a.exn).states);
      hide Attempt, Closing, Raised, RestoredThere, MayCommit, Works, Last, LegalPath;
    }
  }

  // ---------- What a run does, in terms of the environment alone ----------

  /** The status that the restorer's side of the environment stands for. */
  function StatusOf(env: Env, strict: bool): Option<int> {
    match env.restorer
    case Reported(NotRestored) => Some(1)
    case Reported(Restored(fdFailures)) => Some(if fdFailures && strict then 2 else 0)
    case OtherStatus(code, _) => Some(code)
    case SshFailed(_) => None
  }

  /** When a run does what the event says. */
  predicate Does(env: Env, strict: bool, verifyOnly: bool, e: Event) {
    match e
    case RanCapturer => env.connects && env.check.Passed? && env.tempFile
    case RanTransmitter => Captured(env) && env.receiverStarts
    case RestorerEnded(status) => Transferred(env) && status == StatusOf(env, strict)
    case Signalled(Sigterm) => RestoredThere(env, strict) && !verifyOnly && env.term.Delivered?
    case Signalled(Sigkill) =>
      RestoredThere(env, strict) && !verifyOnly && env.term.Delivered? && env.kill.Delivered?
    case RanResume(ok) => Raised(env, strict).Some? && ok == Works(env.resume)
  }

  function Rank(e: Event): nat {
    match e
    case RanCapturer => 0
    case RanTransmitter => 1
    case RestorerEnded(_) => 2
    case Signalled(Sigterm) => 3
    case Signalled(Sigkill) => 4
    case RanResume(_) => 5
  }

  /** No phase acts twice, and all act in order. */
  ghost predicate InOrder(events: seq<Event>) {
    forall i, j | 0 <= i < j < |events| :: Rank(events[i]) < Rank(events[j])
  }

  lemma OrderConcat(a: seq<Event>, b: seq<Event>, r: nat)
    requires InOrder(a) && InOrder(b) && (forall x | x in a :: Rank(x) < r) && forall y | y in b :: Rank(y) >= r
    ensures InOrder(a + b)
  {
    forall i, j | 0 <= i < j < |a + b| ensures Rank((a + b)[i]) < Rank((a + b)[j]) {
      if i < |a| { assert a[i] in a; }
      if j >= |a| { assert b[j - |a|] in b; }
    }
  }

  lemma NothingInOrder()
    ensures InOrder([])
  {
  }

  lemma PreparedEvents(env: Env, strict: bool)
    requires env.connects
    ensures Prepared(env, strict).events ==
            if !env.check.Passed? || !env.tempFile then []
            else if !Captured(env) || !env.receiverStarts then [RanCapturer]
            else if !Transferred(env) then [RanCapturer, RanTransmitter]
            else [RanCapturer, RanTransmitter, RestorerEnded(StatusOf(env, strict))]
  {
    SameStatus(env, strict);
    hide RestorerStatus, StatusOf;
  }

  lemma PhasesNest(env: Env)
    ensures Captured(env) ==> env.connects && env.check.Passed? && env.tempFile
    ensures Transferred(env) ==> Captured(env) && env.receiverStarts
  {
  }

  lemma PreparedActs(env: Env, strict: bool, verifyOnly: bool)
    requires env.connects
    ensures InOrder(Prepared(env, strict).events)
    ensures forall e :: e in Prepared(env, strict).events <==> Rank(e) < 3 && Does(env, strict, verifyOnly, e)
  {
    PreparedEvents(env, strict);
    PhasesNest(env);
    hide Prepared, StatusOf, Raised, Captured, Transferred, RestoredThere;
  }

  lemma SameStatus(env: Env, strict: bool)
    ensures RestorerStatus(env, strict) == StatusOf(env, strict)
  {
  }

  lemma CommitActs(env: Env, strict: bool, verifyOnly: bool)
    requires RestoredThere(env, strict) && !verifyOnly
    ensures InOrder(CommitTrail(env).events)
    ensures forall e :: e in CommitTrail(env).events <==> 3 <= Rank(e) < 5 && Does(env, strict, verifyOnly, e)
  {
    hide RestoredThere, Captured, Transferred, Raised;
  }

  lemma AttemptEvents(env: Env, strict: bool, verifyOnly: bool)
    requires env.connects
    ensures Attempt(env, strict, verifyOnly).events ==
            Prepared(env, strict).events
            + (if RestoredThere(env, strict) && !verifyOnly then CommitTrail(env).events else [])
  {
    PreparedEnds(env, strict);
    hide Prepared, RestoredThere, CommitTrail;
  }

  lemma AttemptActs(env: Env, strict: bool, verifyOnly: bool)
    requires env.connects
    ensures InOrder(Attempt(env, strict, verifyOnly).events)
    ensures forall e ::
              e in Attempt(env, strict, verifyOnly).events <==> Rank(e) < 5 && Does(env, strict, verifyOnly, e)
  {
    AttemptEvents(env, strict, verifyOnly);
    PreparedActs(env, strict, verifyOnly);
    if RestoredThere(env, strict) && !verifyOnly {
      CommitActs(env, strict, verifyOnly);
      hide Attempt, Prepared, CommitTrail, InOrder, Does, Rank, RestoredThere;
      OrderConcat(Prepared(env, strict).events, CommitTrail(env).events, 3);
    } else {
      NoCommitActs(env, strict, verifyOnly);
      hide Attempt, Prepared, CommitTrail, InOrder, Does, Rank, RestoredThere;
    }
  }

  lemma NoCommitActs(env: Env, strict: bool, verifyOnly: bool)
    requires !RestoredThere(env, strict) || verifyOnly
    ensures forall e | 3 <= Rank(e) < 5 :: !Does(env, strict, verifyOnly, e)
  {
    hide RestoredThere;
  }

  lemma ClosingActs(env: Env, strict: bool, verifyOnly: bool, e: Option<Exn>)
    requires Raised(env, strict).Some? <==> e.Some? && e != Some(PreflightExn) && e != Some(EscapedExn)
    ensures InOrder(Closing(env, e).events)
    ensures forall x :: x in Closing(env, e).events <==> Rank(x) == 5 && Does(env, strict, verifyOnly, x)
  {
    hide RestoredThere, Captured, Transferred, Raised;
  }

  lemma NothingWithoutSession(env: Env, strict: bool, verifyOnly: bool)
    requires !env.connects
    ensures forall e :: !Does(env, strict, verifyOnly, e)
  {
  }

  /** What a run does to the outside world: every act exactly under its condition, none twice, and in order.
      The source is killed only after a termination signal was delivered. */
  lemma RunActs(env: Env, strict: bool, verifyOnly: bool)
    ensures InOrder(Migration(env, strict, verifyOnly).events)
    ensures forall e :: e in Migration(env, strict, verifyOnly).events <==> Does(env, strict, verifyOnly, e)
  {
    if env.connects {
      AttemptActs(env, strict, verifyOnly);
      AttemptEnds(env, strict, verifyOnly);
      var a := Attempt(env, strict, verifyOnly);
      ClosingActs(env, strict, verifyOnly, a.exn);
      AtMostResume();
      hide Attempt, Closing, InOrder, Does, Rank, Raised, RestoredThere, MayCommit;
      OrderConcat(a.events, Closing(env, a.exn).events, 5);
    } else {
      NothingWithoutSession(env, strict, verifyOnly);
      NothingInOrder();
    }
  }

  lemma AtMostResume()
    ensures forall e :: Rank(e) <= 5
  {
  }

  lemma RaisedInSession(env: Env, strict: bool)
    ensures Raised(env, strict).Some? ==> env.connects && !env.check.Blocked?
  {
  }

  /** FAILED, and RollbackError, mean exactly that a resume was attempted and failed. */
  lemma FailedIffResumeFailed(env: Env, strict: bool, verifyOnly: bool)
    ensures var t := Migration(env, strict, verifyOnly);
            (RanResume(false) in t.events <==> Raised(env, strict).Some? && !Works(env.resume))
            && (Last(Init, t.states) == Failed <==> RanResume(false) in t.events)
            && (t.exn == Some(RollbackExn) <==> RanResume(false) in t.events)
            && (RanResume(true) in t.events ==>
                  Last(Init, t.states) == RolledBack
                  && t.exn == Attempt(env, strict, verifyOnly).exn)
  {
    RunEnds(env, strict, verifyOnly);
    RunActs(env, strict, verifyOnly);
    RaisedInSession(env, strict);
    hide Migration, Raised, Works, RestoredThere, Last;
    if env.connects { AttemptEnds(env, strict, verifyOnly); }
  }

  // ---------- No process is lost ----------

  /** A copy of the process is running on the destination when the run is over. */
  predicate CopyRunning(env: Env, strict: bool, t: Trail) {
    (exists i | 0 <= i < |t.events| :: t.events[i].RestorerEnded?)
    && match env.restorer
       case Reported(run) => LeavesProcess(run, strict)
       case OtherStatus(_, left) => left
       case SshFailed(left) => left
  }

  /** Status 0 comes only from a restorer that left a process running. */
  lemma StatusZeroMeansRunning(env: Env, strict: bool)
    requires Plausible(env) && RestorerStatus(env, strict) == Some(0)
    ensures env.restorer.Reported? && LeavesProcess(env.restorer.run, strict)
  {
  }

  lemma PreparedShape(env: Env, strict: bool)
    ensures var p := Prepared(env, strict);
            (forall e | e in p.events :: !e.Signalled? && !e.RanResume?)
            && (p.exn == None ==>
                  RestorerStatus(env, strict) == Some(0)
                  && p.events == [RanCapturer, RanTransmitter, RestorerEnded(Some(0))])
  {
    hide RestorerStatus;
  }

  /** The source is signalled only after the restorer exited 0, only outside verify-only mode, and
      never in a run that also resumes it. */
  lemma SignalOnlyAfterRestore(env: Env, strict: bool, verifyOnly: bool, i: nat)
    requires var t := Migration(env, strict, verifyOnly); i < |t.events| && t.events[i].Signalled?
    ensures var t := Migration(env, strict, verifyOnly);
            !verifyOnly && RestorerStatus(env, strict) == Some(0)
            && (exists j | 0 <= j < i :: t.events[j] == RestorerEnded(Some(0)))
            && (forall j | 0 <= j < |t.events| :: !t.events[j].RanResume?)
  {
    hide Prepared, RestorerStatus;
    var t, p := Migration(env, strict, verifyOnly), Prepared(env, strict);
    PreparedShape(env, strict);
    forall n | 0 <= n < |p.events| && n < |t.events| ensures !t.events[n].Signalled? {
      assert t.events[n] == p.events[n] && p.events[n] in p.events;
    }
    assert p.exn == None && !verifyOnly;
    assert t.events[2] == p.events[2];
  }

  /** Whenever a run signals the source, a copy is running on the destination at its end. */
  lemma NoProcessLost(env: Env, strict: bool, verifyOnly: bool)
    requires Plausible(env)
    ensures var t := Migration(env, strict, verifyOnly);
            (exists i | 0 <= i < |t.events| :: t.events[i].Signalled?) ==> CopyRunning(env, strict, t)
  {
    var t := Migration(env, strict, verifyOnly);
    if i: nat :| i < |t.events| && t.events[i].Signalled? {
      SignalOnlyAfterRestore(env, strict, verifyOnly, i);
      var j :| 0 <= j < i && t.events[j] == RestorerEnded(Some(0));
      StatusZeroMeansRunning(env, strict);
    }
  }

  // ---------- Series of runs ----------

  /** A run, and the process it is to move: the original or a copy that an earlier run left. */
  datatype Attempted = Attempted(source: nat, env: Env, strict: bool, verifyOnly: bool)

  /** The instances of a process that have not been signalled, on all machines, numbered as they came up. */
  datatype World = World(live: set<nat>, next: nat)
  {
    ghost predicate Valid() { forall p | p in live :: p < next }
  }

  ghost predicate Signals(r: Attempted) {
    var t := Migration(r.env, r.strict, r.verifyOnly);
    exists i | 0 <= i < |t.events| :: t.events[i].Signalled?
  }

  ghost predicate LeavesCopy(r: Attempted) { CopyRunning(r.env, r.strict, Migration(r.env, r.strict, r.verifyOnly)) }

  ghost function After(w: World, r: Attempted): World {
    var live := if Signals(r) then w.live - {r.source} else w.live;
    if LeavesCopy(r) then World(live + {w.next}, w.next + 1) else World(live, w.next)
  }

  ghost function AfterAll(w: World, runs: seq<Attempted>): World
    decreases |runs|
  {
    if runs == [] then w else AfterAll(After(w, runs[0]), runs[1..])
  }

  /** One run never leaves fewer instances than there were. */
  lemma NeverFewer(w: World, r: Attempted)
    requires w.Valid() && Plausible(r.env)
    ensures After(w, r).Valid() && |After(w, r).live| >= |w.live|
  {
    hide Signals, LeavesCopy;
    if Signals(r) { CommitsLeaveCopies(r); }
    var live := if Signals(r) then w.live - {r.source} else w.live;
    assert w.next !in live;
    assert |live| >= |w.live| - 1 by { if r.source in w.live { assert w.live == (w.live - {r.source}) + {r.source}; } }
    assert |live + {w.next}| == |live| + 1;
  }

  lemma CommitsLeaveCopies(r: Attempted)
    requires Plausible(r.env) && Signals(r)
    ensures LeavesCopy(r)
  {
    hide Migration, CopyRunning;
    NoProcessLost(r.env, r.strict, r.verifyOnly);
  }

  /** Over any series of runs, of any kind, with any outcomes, and whichever instances they move, the number of
      running instances never falls: Wraith never takes the last one away. */
  lemma {:induction false} NeverLost(w: World, runs: seq<Attempted>)
    requires w.Valid() && forall i | 0 <= i < |runs| :: Plausible(runs[i].env)
    ensures AfterAll(w, runs).Valid() && |AfterAll(w, runs).live| >= |w.live|
    decreases |runs|
  {
    hide After;
    if runs != [] {
      NeverFewer(w, runs[0]);
      NeverLost(After(w, runs[0]), runs[1..]);
    }
  }

  /** A chain of migrations, each moving the copy that the one before left, and each committed: in the end
      exactly one instance runs, the newest. */
  lemma {:induction false} ChainMoves(s: nat, runs: seq<Attempted>)
    requires forall i | 0 <= i < |runs| :: runs[i].source == s + i && Signals(runs[i]) && Plausible(runs[i].env)
    ensures AfterAll(World({s}, s + 1), runs) == World({s + |runs|}, s + |runs| + 1)
    decreases |runs|
  {
    hide Signals, LeavesCopy;
    if runs != [] {
      CommitsLeaveCopies(runs[0]);
      assert {s} - {s} + {s + 1} == {s + 1};
      assert After(World({s}, s + 1), runs[0]) == World({s + 1}, s + 2);
      ChainMoves(s + 1, runs[1..]);
    }
  }

  lemma VerifyOnlyIsHarmless(r: Attempted)
    requires r.verifyOnly
    ensures !Signals(r)
  {
    hide Migration;
    var t := Migration(r.env, r.strict, r.verifyOnly);
    forall i | 0 <= i < |t.events| ensures !t.events[i].Signalled? {
      if t.events[i].Signalled? {
        SignalOnlyAfterRestore(r.env, r.strict, r.verifyOnly, i);
      }
    }
  }

  /** A series of verify-only runs takes no instance away. */
  lemma {:induction false} VerifyOnlyKeepsSource(w: World, runs: seq<Attempted>)
    requires forall i | 0 <= i < |runs| :: runs[i].verifyOnly
    ensures w.live <= AfterAll(w, runs).live
    decreases |runs|
  {
    hide Signals, LeavesCopy;
    if runs != [] {
      VerifyOnlyIsHarmless(runs[0]);
      VerifyOnlyKeepsSource(After(w, runs[0]), runs[1..]);
    }
  }
}
