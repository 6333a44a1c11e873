/** The caller's side of a re-exec: asking the reader to stop, and collecting what it hands over. */
module Reexec {
  import opened Bytes
  import opened HeaderBlock
  import opened Framer
  import opened ReaderLoop
  import EslParser

  datatype TeardownError =
    | CommandInFlight
    | AlreadyCalled
    | ReaderGone
    | TimedOut
    | NoResult
    | DrainIncomplete
    | StoppedBeforeDrain

  /** What the reader sends on the result channel, as the caller sees it: the residual, the failure
      of a drain it began, or nothing at all. */
  function Collected(r: Report): Result<Bytes, TeardownError>
  {
    match r.exit
    case ReexecTeardown => if r.residual.Some? then Ok(r.residual.value) else Err(NoResult)
    case StillRunning => Err(TimedOut)
    case DrainFailed => Err(DrainIncomplete)
    case ParserError(_) => Err(NoResult)
    case BufferError(_) => Err(NoResult)
    case _ => Err(if StopSeen(r.log) then StoppedBeforeDrain else NoResult)
  }

  /** What the caller learns: a reader that has not ended leaves it waiting; a drain that got no more
      bytes says so; a message or a lost receiver that ended the reader says so once the stop signal
      was seen; and a reader that ended in any other way sends nothing. */
  lemma CollectedReasons(g: Grammar, start: Framer.Parser, dispatches: nat -> Dispatch, r: Report, p: Framer.Parser)
    requires start.Valid() && Lawful(g, start, dispatches, r, p)
    ensures Collected(r).Ok? <==> r.exit == ReexecTeardown
    ensures Collected(r) == Err(TimedOut) <==> r.exit == StillRunning
    ensures Collected(r) == Err(DrainIncomplete) <==> r.exit == DrainFailed
    ensures Collected(r) == Err(StoppedBeforeDrain) <==> StopSeen(r.log) && CalledFor(r.exit) && r.exit != DrainFailed
    ensures Collected(r) == Err(NoResult) <==>
              r.exit.ParserError? || r.exit.BufferError? || (!StopSeen(r.log) && CalledFor(r.exit) && r.exit != DrainFailed)
  {
  }

  /** Idle ticks load the limit as they expire, so they see the one in force. */
  function Under(limit: nat, script: seq<Read>): seq<Read>
  {
    seq(|script|, i requires 0 <= i < |script| =>
      if script[i].Idle? then Idle(script[i].waited, limit) else script[i])
  }

  /** A heartbeat that expires does so on an idle tick with a limit, the last thing observed. */
  lemma ExpiryObserved(log: Log)
    ensures ExitOf(log) == Some(HeartbeatExpired) ==>
              var all := Reads(log);
              all != [] && all[|all| - 1].Idle? && all[|all| - 1].threshold > 0
  {
  }

  /** With the check switched off the heartbeat never expires. */
  lemma NoHeartbeat(g: Grammar, start: Framer.Parser, dispatches: nat -> Dispatch, r: Report, p: Framer.Parser, script: seq<Read>)
    requires start.Valid() && Lawful(g, start, dispatches, r, p) && Reads(r.log) <= Under(0, script)
    ensures r.exit != HeartbeatExpired
  {
    ExpiryObserved(r.log);
  }

  /** The state the client's clones share, as far as the teardown touches it. */
  class Session {
    const parser: EslParser.Parser
    /** A command's waiter is in the slot. */
    var waiting: bool
    /** The caller's half of the channel has not been taken. */
    var channel: bool
    var liveness: nat
    /** The reader task has ended, for whatever reason. */
    var readerGone: bool
    var tornDown: bool

    ghost predicate Valid()
      reads this, parser, parser.buffer
    {
      parser.Valid() && |parser.Value().buffer| <= MAX_BUFFER_SIZE
    }

    constructor (parser: EslParser.Parser, liveness: nat)
      requires parser.Valid() && |parser.Value().buffer| <= MAX_BUFFER_SIZE
      ensures Valid() && this.parser == parser && this.liveness == liveness
      ensures !waiting && channel && !readerGone && !tornDown
    {
      this.parser, this.liveness := parser, liveness;
      waiting, channel, readerGone, tornDown := false, true, false, false;
    }

    /** Asks the reader to stop: refused while a command is in flight, and at most once. Taking the
        channel also switches the liveness check off. */
    method RequestStop() returns (r: Result<(), TeardownError>)
      modifies this
      ensures r == if old(waiting) then Err(CommandInFlight)
                   else if !old(channel) then Err(AlreadyCalled)
                   else if old(readerGone) then Err(ReaderGone)
                   else Ok(())
      ensures channel == (old(channel) && old(waiting))
      ensures liveness == if old(waiting) || !old(channel) then old(liveness) else 0
      ensures waiting == old(waiting) && readerGone == old(readerGone) && tornDown == old(tornDown)
    {
      if waiting {
        return Err(CommandInFlight);
      }
      if !channel {
        return Err(AlreadyCalled);
      }
      channel, liveness := false, 0;
      if readerGone {
        return Err(ReaderGone);
      }
      r := Ok(());
    }

    /** `teardown_for_reexec`, with the reader's run from the request on: `script` is what its waits
        observe. On success the residual continues the stream whatever comes next; the heartbeat never
        ends the drain; and no second call succeeds. */
    method TeardownForReexec(script: seq<Read>, dispatches: nat -> Dispatch)
      returns (r: Result<Bytes, TeardownError>, ghost report: Option<Report>)
      requires Valid() && SocketReads(script)
      modifies this, parser, parser.buffer
      ensures report.Some? <==> !old(waiting) && old(channel) && !old(readerGone)
      ensures report.None? ==> r.Err? && parser.Value() == old(parser.Value()) && tornDown == old(tornDown)
      ensures report.None? ==> r.error == if old(waiting) then CommandInFlight
                                          else if !old(channel) then AlreadyCalled else ReaderGone
      ensures old(waiting) ==> channel == old(channel) && liveness == old(liveness)
      ensures !old(waiting) ==> !channel
      ensures report.Some? ==> Lawful(Esl(parser.cfg), old(parser.Value()), dispatches, report.value, parser.Value())
      ensures report.Some? ==> report.value.exit != HeartbeatExpired && r == Collected(report.value)
      ensures report.Some? ==> (r.Ok? <==> report.value.exit == ReexecTeardown) && tornDown == (old(tornDown) || r.Ok?)
      ensures r.Ok? ==> HandedOver(Esl(parser.cfg), old(parser.Value()), report.value.log, r.value)
    {
      report := None;
      var asked := RequestStop();
      if asked.Err? {
        return Err(asked.error), None;
      }
      ghost var start := parser.Value();
      var ran := Run(parser, Under(liveness, script), dispatches);
      NoHeartbeat(Esl(parser.cfg), start, dispatches, ran, parser.Value(), script);
      r, report := Collected(ran), Some(ran);
      readerGone := ran.exit != StillRunning;
      if r.Ok? {
        tornDown := true;
      }
    }
  }
}
