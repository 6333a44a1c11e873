/** The reader loop: parse what is buffered, dispatch it, read more; on the re-exec stop signal,
    drain to a message boundary and hand the unread bytes to the next process.

    Sockets, clocks and the application's side are inputs: `script` says what each wait on the
    socket observes and `dispatches` what each dispatch met. A run leaves a log of what it waited
    for and what it dispatched, in order; every law of the loop is stated over that log. */
module ReaderLoop {
  import opened Bytes
  import opened HeaderBlock
  import opened Framer
  import EslParser

  const READER_TICK_MS: nat := 2000

  /** What one wait on the socket saw, and for how long it waited. */
  datatype Read =
    | Data(bytes: Bytes, waited: nat)
    | Eof
    | Idle(waited: nat, threshold: nat)
    | IoError
    | StopSignal

  /** What a dispatch met: the receiver gone, time spent waiting for queue capacity, the stop
      signal firing meanwhile, and other time spent. */
  datatype Dispatch = Dispatch(receiverGone: bool, stalled: nat, stopFired: bool, busy: nat)

  datatype Exit =
    | StillRunning
    | ReceiverGone
    | ServerNotice
    | AccessDenied
    | UnsolicitedAuth
    | ParserError(error: EslError)
    | ConnectionClosed
    | HeartbeatExpired
    | IoFailure
    | BufferError(size: nat)
    | ReexecTeardown
    | DrainFailed

  /** Exits taken with everything received dispatched. */
  predicate AtBoundary(exit: Exit)
  {
    exit.StillRunning? || exit.ConnectionClosed? || exit.HeartbeatExpired? || exit.IoFailure?
    || exit.ReexecTeardown? || exit.DrainFailed?
  }

  /** Whether dispatching `m` ends the loop, and how. */
  function EndsLoop(m: Message, receiverGone: bool): (exit: Option<Exit>)
    ensures exit.Some? ==> !AtBoundary(exit.value)
  {
    match m.messageType
    case Event => if receiverGone then Some(ReceiverGone) else None
    case CommandReply => None
    case ApiResponse => None
    case Disconnect => if Get(m.headers, "Content-Disposition") == Some("linger") then None else Some(ServerNotice)
    case RudeRejection => Some(AccessDenied)
    case AuthRequest => Some(UnsolicitedAuth)
  }

  // ---- The log of a run ------------------------------------------------------------------------

  datatype Entry = Saw(observed: Read) | Dispatched(message: Message, met: Dispatch)

  type Log = seq<Entry>

  function Front(log: Log): Log
    requires log != []
  {
    log[..|log| - 1]
  }

  function Last(log: Log): Entry
    requires log != []
  {
    log[|log| - 1]
  }

  function MessageIn(e: Entry): seq<Message> { if e.Dispatched? then [e.message] else [] }

  function BytesIn(e: Entry): Bytes { if e.Saw? && e.observed.Data? then e.observed.bytes else [] }

  function ReadIn(e: Entry): seq<Read> { if e.Saw? then [e.observed] else [] }

  predicate StopIn(e: Entry) { if e.Saw? then e.observed.StopSignal? else e.met.stopFired }

  /** The messages dispatched. */
  function Messages(log: Log): seq<Message>
  {
    if log == [] then [] else Messages(Front(log)) + MessageIn(Last(log))
  }

  /** The bytes received. */
  function Received(log: Log): Bytes
  {
    if log == [] then [] else Received(Front(log)) + BytesIn(Last(log))
  }

  /** What the waits on the socket observed. */
  function Reads(log: Log): seq<Read>
  {
    if log == [] then [] else Reads(Front(log)) + ReadIn(Last(log))
  }

  /** Whether the stop signal was seen, by a wait on the socket or inside a dispatch. */
  predicate StopSeen(log: Log)
  {
    log != [] && (StopIn(Last(log)) || StopSeen(Front(log)))
  }

  /** Time since bytes last arrived, not counting stalls. */
  function Silence(log: Log): nat
  {
    if log == [] then 0 else SilenceAfter(Silence(Front(log)), Last(log))
  }

  function SilenceAfter(before: nat, e: Entry): nat
  {
    match e
    case Saw(Data(_, _)) => 0
    case Saw(Idle(waited, _)) => before + waited
    case Saw(_) => before
    case Dispatched(_, met) => before + met.busy
  }

  lemma Snoc(log: Log, e: Entry)
    ensures Messages(log + [e]) == Messages(log) + MessageIn(e)
    ensures Received(log + [e]) == Received(log) + BytesIn(e)
    ensures Reads(log + [e]) == Reads(log) + ReadIn(e)
    ensures StopSeen(log + [e]) == (StopIn(e) || StopSeen(log))
    ensures Silence(log + [e]) == SilenceAfter(Silence(log), e)
  {
    assert Front(log + [e]) == log;
  }

  /** The exits some entry calls for; the others depend on what the parser holds. */
  predicate CalledFor(exit: Exit)
  {
    !exit.StillRunning? && !exit.ParserError? && !exit.BufferError? && !exit.ReexecTeardown?
  }

  /** The exit a log's last entry calls for: a message or a lost receiver that ends the session, a
      socket that closed or failed, silence past an enabled limit, or, once stopping, a drain that
      got no more bytes. */
  function ExitOf(log: Log): (exit: Option<Exit>)
    ensures exit.Some? ==> CalledFor(exit.value)
  {
    if log == [] then None
    else match Last(log)
      case Dispatched(m, met) => EndsLoop(m, met.receiverGone)
      case Saw(Data(_, _)) => None
      case Saw(StopSignal) => None
      case Saw(Eof) => Some(if StopSeen(Front(log)) then DrainFailed else ConnectionClosed)
      case Saw(IoError) => Some(if StopSeen(Front(log)) then DrainFailed else IoFailure)
      case Saw(Idle(_, limit)) =>
        if StopSeen(Front(log)) then Some(DrainFailed)
        else if 0 < limit < Silence(log) then Some(HeartbeatExpired)
        else None
  }

  /** The parser has dispatched everything received and stands at `p`. */
  ghost predicate Rested(g: Grammar, start: Framer.Parser, log: Log, p: Framer.Parser)
    requires start.Valid()
  {
    Stuck(p) && Drain(g, start.Feed(Received(log))) == (Messages(log), Blocked(p))
  }

  /** The socket is waited on only once everything received is dispatched and, after the stop
      signal, only to finish a message body. */
  ghost predicate MayRead(g: Grammar, start: Framer.Parser, log: Log)
    requires start.Valid()
  {
    exists p :: Rested(g, start, log, p) && (StopSeen(log) ==> p.state.WaitingForBody?)
  }

  /** A log the loop may leave: nothing follows an entry that ends the loop, waits on the socket
      keep `MayRead`, and the dispatches met what was given. */
  ghost predicate Proper(g: Grammar, start: Framer.Parser, dispatches: nat -> Dispatch, log: Log)
    requires start.Valid()
  {
    log != [] ==>
      var before, last := Front(log), Last(log);
      && Proper(g, start, dispatches, before)
      && ExitOf(before).None?
      && (last.Saw? ==> MayRead(g, start, before))
      && (last.Dispatched? ==> last.met == dispatches(|Messages(before)|))
  }

  /** Every entry of a proper log stands where it may. */
  lemma {:induction false} ProperAt(g: Grammar, start: Framer.Parser, dispatches: nat -> Dispatch, log: Log, k: nat)
    requires start.Valid() && Proper(g, start, dispatches, log) && k < |log|
    ensures ExitOf(log[..k]).None? && (log[k].Saw? ==> MayRead(g, start, log[..k]))
    ensures log[k].Dispatched? ==> log[k].met == dispatches(|Messages(log[..k])|)
    decreases |log|
  {
    if k < |log| - 1 {
      ProperAt(g, start, dispatches, Front(log), k);
      assert Front(log)[..k] == log[..k];
    }
  }

  /** No expired silence passes unnoticed: an idle tick past its limit is the last entry. */
  lemma SilenceEndsRun(g: Grammar, start: Framer.Parser, dispatches: nat -> Dispatch, log: Log, k: nat)
    requires start.Valid() && Proper(g, start, dispatches, log) && k < |log|
    requires log[k].Saw? && log[k].observed.Idle? && !StopSeen(log[..k])
    requires 0 < log[k].observed.threshold < Silence(log[..k + 1])
    ensures k == |log| - 1 && ExitOf(log) == Some(HeartbeatExpired)
  {
    var upTo := log[..k + 1];
    assert Front(upTo) == log[..k] && Last(upTo) == log[k];
    if k + 1 < |log| {
      ProperAt(g, start, dispatches, log, k + 1);
    } else {
      assert upTo == log;
    }
  }

  // ---- What the loop has done so far --------------------------------------------------------------

  /** `messages` came out of `start` fed `received`, and the parser now stands where draining the
      rest continues. */
  ghost predicate Accounts(g: Grammar, start: Framer.Parser, received: Bytes, messages: seq<Message>, p: Framer.Parser)
  {
    start.Valid() && p.Valid() && Drain(g, start.Feed(received)) == Then(messages, Drain(g, p))
  }

  lemma AccountsStart(g: Grammar, start: Framer.Parser)
    requires start.Valid()
    ensures Accounts(g, start, [], [], start)
  {
    assert start.buffer + [] == start.buffer;
    assert [] + Drain(g, start).0 == Drain(g, start).0;
  }

  lemma AccountsParse(g: Grammar, start: Framer.Parser, received: Bytes, messages: seq<Message>, p: Framer.Parser)
    requires Accounts(g, start, received, messages, p)
    ensures var (out, q) := Parse(g, p);
            && (out.Got? ==> Accounts(g, start, received, messages + [out.message], q))
            && (out.NeedMore? ==> Accounts(g, start, received, messages, q) && Stuck(q)
                                  && Drain(g, start.Feed(received)) == (messages, Blocked(q)))
            && (out.Error? ==> Drain(g, start.Feed(received)) == (messages, Failure(out.error)))
  {
    ParseConsumes(g, p);
    match Parse(g, p)
    case (Got(m), q) => ThenAssociates(messages, [m], Drain(g, q));
    case (NeedMore, q) =>
      DrainOfStuck(g, q);
      assert messages + [] == messages;
    case (Error(e), _) =>
      assert messages + [] == messages;
  }

  lemma AccountsFeed(g: Grammar, start: Framer.Parser, received: Bytes, messages: seq<Message>, p: Framer.Parser, data: Bytes)
    requires start.Valid() && p.Valid() && Drain(g, start.Feed(received)) == (messages, Blocked(p))
    ensures Accounts(g, start, received + data, messages, p.Feed(data))
  {
    DrainOn(g, start.Feed(received), data, messages, p);
    Associate(start.buffer, received, data);
    assert start.Feed(received).Feed(data) == start.Feed(received + data);
  }

  /** While a body is pending, one more read stays far below the buffer limit. */
  lemma PendingBodyBound(p: Framer.Parser, data: Bytes)
    requires p.Valid() && Stuck(p) && p.state.WaitingForBody? && |data| <= SOCKET_BUF_SIZE
    ensures |p.Feed(data).buffer| < MAX_MESSAGE_SIZE + SOCKET_BUF_SIZE <= MAX_BUFFER_SIZE
  {
  }

  /** The loop's variables: the log stands for what left through the dispatches. */
  datatype Loop = Loop(log: Log, now: nat, lastRecv: nat, draining: bool)

  /** The clock agrees with the log until the stop signal, after which it is not consulted. */
  predicate ClockOk(l: Loop)
  {
    && l.draining == StopSeen(l.log)
    && l.lastRecv <= l.now
    && (!l.draining ==> l.now - l.lastRecv == Silence(l.log))
  }

  ghost predicate Inv(g: Grammar, start: Framer.Parser, dispatches: nat -> Dispatch, l: Loop, p: Framer.Parser)
  {
    && Accounts(g, start, Received(l.log), Messages(l.log), p)
    && Proper(g, start, dispatches, l.log) && ExitOf(l.log).None?
    && |p.buffer| <= MAX_BUFFER_SIZE
    && ClockOk(l)
  }

  /** What the loop leaves behind: the exit, the log, and the residual bytes sent to the teardown
      caller. */
  datatype Report = Report(exit: Exit, log: Log, residual: Option<Bytes>)

  predicate SocketRead(observed: Read)
  {
    observed.Data? ==> 0 < |observed.bytes| <= SOCKET_BUF_SIZE
  }

  predicate SocketReads(script: seq<Read>)
  {
    forall i :: 0 <= i < |script| ==> SocketRead(script[i])
  }

  /** The stream carries on in the next process as if nothing had happened, whatever comes next. */
  ghost predicate HandedOver(g: Grammar, start: Framer.Parser, log: Log, residual: Bytes)
    requires start.Valid()
  {
    && Find(residual, BLANK_LINE).None? && |residual| <= MAX_BUFFER_SIZE
    && forall rest: Bytes ::
         Drain(g, start.Feed(Received(log) + rest)) == Then(Messages(log), Drain(g, Fresh(residual + rest)))
  }

  /** The buffer is past its limit, waiting for headers, and held no blank line before the last
      read, which brought at most one socket buffer. */
  ghost predicate OverflowedInHeaders(p: Framer.Parser, size: nat)
  {
    p.state.WaitingForHeaders? && size == |p.buffer| > MAX_BUFFER_SIZE
    && exists k: nat :: HeldNoBlankLine(p.buffer, k)
  }

  predicate HeldNoBlankLine(s: Bytes, k: nat)
  {
    k <= |s| <= k + SOCKET_BUF_SIZE && Find(s[..k], BLANK_LINE).None?
  }

  /** The exits no single entry calls for, each exactly where it belongs: a parser error is the
      error of the bytes received; the buffer overflows only on an unterminated header block, never
      while stopping; the teardown waits for a message boundary; and a loop that waits for more has
      dispatched all it received. */
  ghost predicate ParserExit(g: Grammar, start: Framer.Parser, exit: Exit, log: Log, p: Framer.Parser)
    requires start.Valid()
  {
    match exit
    case ParserError(e) =>
      |p.buffer| <= MAX_BUFFER_SIZE && Drain(g, start.Feed(Received(log))) == (Messages(log), Failure(e))
    case BufferError(size) => !StopSeen(log) && OverflowedInHeaders(p, size)
    case ReexecTeardown => StopSeen(log) && Rested(g, start, log, p) && p.state.WaitingForHeaders?
    case StillRunning => Rested(g, start, log, p) && (StopSeen(log) ==> p.state.WaitingForBody?)
    case _ => false
  }

  /** What every run guarantees, for a reader started on `start` and leaving the parser at `p`:

      - the log is proper, and its messages are, in order, the first messages of the bytes received;
      - the exit is the one its last entry calls for, or else the one `ParserExit` admits;
      - residual bytes are sent exactly on a re-exec teardown, and preserve the stream. */
  ghost predicate Lawful(g: Grammar, start: Framer.Parser, dispatches: nat -> Dispatch, r: Report, p: Framer.Parser)
    requires start.Valid()
  {
    && Proper(g, start, dispatches, r.log)
    && Messages(r.log) <= Drain(g, start.Feed(Received(r.log))).0
    && (if ExitOf(r.log).Some? then r.exit == ExitOf(r.log).value else ParserExit(g, start, r.exit, r.log, p))
    && (r.residual.Some? <==> r.exit == ReexecTeardown)
    && (r.residual.Some? ==> r.residual.value == p.buffer && HandedOver(g, start, r.log, p.buffer))
  }

  /** A message dispatched: the stall is given back to the peer, other time is not. */
  function AfterDispatch(l: Loop, m: Message, met: Dispatch): Loop
  {
    var stalled := if l.draining then 0 else met.stalled;
    Loop(l.log + [Dispatched(m, met)], l.now + stalled + met.busy, l.lastRecv + stalled, l.draining || met.stopFired)
  }

  /** The log after a dispatch is proper, with the parser where the rest continues. */
  lemma DispatchKeeps(g: Grammar, start: Framer.Parser, dispatches: nat -> Dispatch, l: Loop, p: Framer.Parser, m: Message, q: Framer.Parser)
    requires Inv(g, start, dispatches, l, p) && Parse(g, p) == (Got(m), q)
    ensures var met := dispatches(|Messages(l.log)|);
            var l' := AfterDispatch(l, m, met);
            var ends := EndsLoop(m, met.receiverGone);
            && Received(l'.log) == Received(l.log) && Reads(l'.log) == Reads(l.log)
            && (ends.None? ==> Inv(g, start, dispatches, l', q))
            && (ends.Some? ==> Lawful(g, start, dispatches, Report(ends.value, l'.log, None), q))
  {
    var met := dispatches(|Messages(l.log)|);
    var e := Dispatched(m, met);
    Snoc(l.log, e);
    assert Front(l.log + [e]) == l.log && Last(l.log + [e]) == e;
    assert Received(l.log) + [] == Received(l.log) && Reads(l.log) + [] == Reads(l.log);
    AccountsParse(g, start, Received(l.log), Messages(l.log), p);
    ParseConsumes(g, p);
  }

  lemma RunningLawful(g: Grammar, start: Framer.Parser, dispatches: nat -> Dispatch, l: Loop, p: Framer.Parser)
    requires Inv(g, start, dispatches, l, p) && Rested(g, start, l.log, p)
    requires l.draining ==> p.state.WaitingForBody?
    ensures Lawful(g, start, dispatches, Report(StillRunning, l.log, None), p)
  {
  }

  lemma NeedMoreRests(g: Grammar, start: Framer.Parser, dispatches: nat -> Dispatch, l: Loop, p: Framer.Parser)
    requires Inv(g, start, dispatches, l, p) && Parse(g, p).0.NeedMore?
    ensures Inv(g, start, dispatches, l, Parse(g, p).1) && Rested(g, start, l.log, Parse(g, p).1)
  {
    AccountsParse(g, start, Received(l.log), Messages(l.log), p);
    ParseConsumes(g, p);
  }

  lemma ParserErrorLawful(g: Grammar, start: Framer.Parser, dispatches: nat -> Dispatch, l: Loop, p: Framer.Parser)
    requires Inv(g, start, dispatches, l, p) && Parse(g, p).0.Error?
    ensures Lawful(g, start, dispatches, Report(ParserError(Parse(g, p).0.error), l.log, None), Parse(g, p).1)
  {
    AccountsParse(g, start, Received(l.log), Messages(l.log), p);
    ParseConsumes(g, p);
  }

  lemma TeardownLawful(g: Grammar, start: Framer.Parser, dispatches: nat -> Dispatch, l: Loop, p: Framer.Parser)
    requires Inv(g, start, dispatches, l, p) && Rested(g, start, l.log, p) && l.draining && p.state.WaitingForHeaders?
    ensures Lawful(g, start, dispatches, Report(ReexecTeardown, l.log, Some(p.buffer)), p)
  {
    forall rest: Bytes
      ensures Drain(g, start.Feed(Received(l.log) + rest)) == Then(Messages(l.log), Drain(g, Fresh(p.buffer + rest)))
    {
      AccountsFeed(g, start, Received(l.log), Messages(l.log), p, rest);
      assert p.Feed(rest) == Fresh(p.buffer + rest);
    }
  }

  function StartLoop(): Loop { Loop([], 0, 0, false) }

  lemma StartKeeps(g: Grammar, start: Framer.Parser, dispatches: nat -> Dispatch, base: Bytes)
    requires start.Valid() && |start.buffer| <= MAX_BUFFER_SIZE
    ensures Inv(g, start, dispatches, StartLoop(), start)
    ensures Reads(StartLoop().log) == [] && base + Received(StartLoop().log) == base
  {
    AccountsStart(g, start);
    EmptyLog(g, start, dispatches);
    assert base + [] == base;
  }

  lemma EmptyLog(g: Grammar, start: Framer.Parser, dispatches: nat -> Dispatch)
    requires start.Valid()
    ensures Received([]) == [] && Messages([]) == [] && Reads([]) == [] && Silence([]) == 0 && !StopSeen([])
    ensures Proper(g, start, dispatches, []) && ExitOf([]).None?
  {
  }

  /** `reader_loop_inner`, over every script of socket reads and every run of dispatches. The loop
      keeps going until an exit; it is still running only when the script has nothing left. */
  method Run(parser: EslParser.Parser, script: seq<Read>, dispatches: nat -> Dispatch) returns (r: Report)
    requires parser.Valid() && |parser.Value().buffer| <= MAX_BUFFER_SIZE
    requires SocketReads(script)
    modifies parser, parser.buffer
    ensures parser.Valid() && parser.fed == old(parser.fed) + Received(r.log)
    ensures Reads(r.log) <= script && (r.exit == StillRunning ==> Reads(r.log) == script)
    ensures Lawful(Esl(parser.cfg), old(parser.Value()), dispatches, r, parser.Value())
  {
    ghost var g, start := Esl(parser.cfg), parser.Value();
    var l, i := StartLoop(), 0;
    StartKeeps(g, start, dispatches, parser.fed);
    while true
      invariant 0 <= i <= |script| && Reads(l.log) == script[..i]
      invariant parser.Valid() && parser.fed == old(parser.fed) + Received(l.log)
      invariant Inv(g, start, dispatches, l, parser.Value()) == true // kept folded: the steps below unfold it
      decreases |script| - i, |parser.Value().buffer|
    {
      var exit, blocked;
      l, exit, blocked := ParseStep(parser, l, dispatches, start);
      if exit.Some? {
        return Report(exit.value, l.log, None);
      }
      if blocked {
        var done;
        l, i, done := BlockedStep(parser, l, script, i, start, dispatches, old(parser.fed));
        if done.Some? {
          return done.value;
        }
      }
    }
  }

  /** What the loop does with nothing left to parse: tear down if it is stopping between messages,
      wait on the socket otherwise. */
  method BlockedStep(parser: EslParser.Parser, l: Loop, script: seq<Read>, i: nat,
                     ghost start: Framer.Parser, ghost dispatches: nat -> Dispatch, ghost base: Bytes)
    returns (l': Loop, i': nat, done: Option<Report>)
    requires parser.Valid() && Inv(Esl(parser.cfg), start, dispatches, l, parser.Value())
    requires Rested(Esl(parser.cfg), start, l.log, parser.Value())
    requires SocketReads(script) && i <= |script|
    requires Reads(l.log) == script[..i] && parser.fed == base + Received(l.log)
    modifies parser, parser.buffer
    ensures parser.Valid() && i <= i' <= |script| && Reads(l'.log) == script[..i'] && parser.fed == base + Received(l'.log)
    ensures done.None? ==> i < i' && Inv(Esl(parser.cfg), start, dispatches, l', parser.Value())
    ensures done.Some? ==> done.value.log == l'.log && (done.value.exit == StillRunning ==> i' == |script|)
    ensures done.Some? ==> Lawful(Esl(parser.cfg), start, dispatches, done.value, parser.Value())
  {
    ghost var g := Esl(parser.cfg);
    l', i', done := l, i, None;
    if l.draining && parser.state.WaitingForHeaders? {
      var residual := parser.RemainingBytes();
      TeardownLawful(g, start, dispatches, l, parser.Value());
      done := Some(Report(ReexecTeardown, l.log, Some(residual)));
    } else if i == |script| {
      RunningLawful(g, start, dispatches, l, parser.Value());
      done := Some(Report(StillRunning, l.log, None));
    } else {
      ReadAdvances(l.log, script, i, base);
      var exit;
      l', exit := ReadStep(parser, l, script[i], start, dispatches);
      i' := i + 1;
      if exit.Some? {
        done := Some(Report(exit.value, l'.log, None));
      }
    }
  }

  /** One `parse_message` call, and the dispatch of the message it may give. */
  method ParseStep(parser: EslParser.Parser, l: Loop, dispatches: nat -> Dispatch, ghost start: Framer.Parser)
    returns (l': Loop, exit: Option<Exit>, blocked: bool)
    requires parser.Valid() && Inv(Esl(parser.cfg), start, dispatches, l, parser.Value())
    modifies parser, parser.buffer
    ensures parser.Valid() && parser.fed == old(parser.fed)
    ensures Received(l'.log) == Received(l.log) && Reads(l'.log) == Reads(l.log)
    ensures exit.None? ==> Inv(Esl(parser.cfg), start, dispatches, l', parser.Value())
    ensures exit.None? && !blocked ==> |parser.Value().buffer| < |old(parser.Value()).buffer|
    ensures exit.None? && blocked ==> Rested(Esl(parser.cfg), start, l'.log, parser.Value())
    ensures exit.Some? ==> exit.value != StillRunning
                           && Lawful(Esl(parser.cfg), start, dispatches, Report(exit.value, l'.log, None), parser.Value())
  {
    ghost var g, before := Esl(parser.cfg), parser.Value();
    var parsed := parser.ParseMessage();
    l', exit, blocked := l, None, false;
    match parsed {
      case Error(e) =>
        ParserErrorLawful(g, start, dispatches, l, before);
        exit := Some(ParserError(e));
      case Got(m) =>
        var met := dispatches(|Messages(l.log)|);
        DispatchKeeps(g, start, dispatches, l, before, m, parser.Value());
        l', exit := AfterDispatch(l, m, met), EndsLoop(m, met.receiverGone);
      case NeedMore =>
        NeedMoreRests(g, start, dispatches, l, before);
        blocked := true;
    }
  }

  lemma ReadAdvances(log: Log, script: seq<Read>, i: nat, base: Bytes)
    requires i < |script| && Reads(log) == script[..i]
    ensures var e := Saw(script[i]);
            && Reads(log + [e]) == script[..i + 1]
            && base + Received(log + [e]) == (base + Received(log)) + BytesIn(e)
  {
    Snoc(log, Saw(script[i]));
  }

  /** The loop's variables after a wait on the socket. A drain leaves the clock mark alone. */
  function AfterRead(l: Loop, step: Read): Loop
  {
    var logged := l.(log := l.log + [Saw(step)]);
    match step
    case StopSignal => logged.(draining := true)
    case Idle(waited, _) => logged.(now := l.now + waited)
    case Data(_, waited) =>
      logged.(now := l.now + waited, lastRecv := if l.draining then l.lastRecv else l.now + waited)
    case _ => logged
  }

  /** Whether the wait ends the loop. Idle ticks run `liveness_expired`, which a zero limit disables;
      while draining an idle wait is the drain timeout. */
  function ReadExit(l: Loop, step: Read): Option<Exit>
  {
    match step
    case Eof => Some(if l.draining then DrainFailed else ConnectionClosed)
    case IoError => Some(if l.draining then DrainFailed else IoFailure)
    case Idle(waited, limit) =>
      if l.draining then Some(DrainFailed)
      else if limit != 0 && l.now + waited - l.lastRecv > limit then Some(HeartbeatExpired)
      else None
    case _ => None
  }

  /** Up to `n` ticks of exact length on a silent socket, ending early when one expires. */
  function SilentTicks(l: Loop, limit: nat, n: nat): (Loop, Option<Exit>)
    decreases n
  {
    var tick := Idle(READER_TICK_MS, limit);
    if n == 0 then (l, None)
    else if ReadExit(l, tick).Some? then (AfterRead(l, tick), ReadExit(l, tick))
    else SilentTicks(AfterRead(l, tick), limit, n - 1)
  }

  /** Silence is detected: with the check enabled and not yet due, the loop runs through every tick
      before number `k` and expires on tick `k`, at most one tick past the limit. */
  lemma {:induction false} SilenceDetected(l: Loop, limit: nat)
    requires 0 < limit && !l.draining && l.lastRecv <= l.now && l.now - l.lastRecv <= limit
    ensures var k := (limit - (l.now - l.lastRecv)) / READER_TICK_MS + 1;
            && (forall n: nat :: n < k ==> SilentTicks(l, limit, n).1.None?)
            && SilentTicks(l, limit, k).1 == Some(HeartbeatExpired)
            && limit < SilentTicks(l, limit, k).0.now - l.lastRecv <= limit + READER_TICK_MS
    decreases limit - (l.now - l.lastRecv)
  {
    var l' := AfterRead(l, Idle(READER_TICK_MS, limit));
    if l'.now - l'.lastRecv <= limit {
      SilenceDetected(l', limit);
      forall n: nat | n < (limit - (l.now - l.lastRecv)) / READER_TICK_MS + 1
        ensures SilentTicks(l, limit, n).1.None?
      {
        if n > 0 {
          assert SilentTicks(l, limit, n) == SilentTicks(l', limit, n - 1);
        }
      }
    }
  }

  /** One wait on the socket with nothing left to parse: the normal read with its liveness check,
      or, while draining, the read that completes the pending body. */
  method ReadStep(parser: EslParser.Parser, l: Loop, step: Read, ghost start: Framer.Parser, ghost dispatches: nat -> Dispatch)
    returns (l': Loop, exit: Option<Exit>)
    requires parser.Valid() && Inv(Esl(parser.cfg), start, dispatches, l, parser.Value())
    requires Rested(Esl(parser.cfg), start, l.log, parser.Value())
    requires l.draining ==> parser.state.WaitingForBody?
    requires SocketRead(step)
    modifies parser, parser.buffer
    ensures parser.Valid() && l'.log == l.log + [Saw(step)] && parser.fed == old(parser.fed) + BytesIn(Saw(step))
    ensures exit.None? ==> Inv(Esl(parser.cfg), start, dispatches, l', parser.Value())
    ensures exit.Some? ==> exit.value != StillRunning
                           && Lawful(Esl(parser.cfg), start, dispatches, Report(exit.value, l'.log, None), parser.Value())
  {
    ReadKeeps(Esl(parser.cfg), start, dispatches, l, parser.Value(), step);
    l', exit := AfterRead(l, step), ReadExit(l, step);
    if step.Data? {
      var added := parser.AddData(step.bytes);
      if added.Err? {
        exit := Some(BufferError(added.error.size));
      }
    } else {
      assert parser.fed + [] == parser.fed && parser.Value().buffer + [] == parser.Value().buffer;
    }
  }

  lemma ReadKeeps(g: Grammar, start: Framer.Parser, dispatches: nat -> Dispatch, l: Loop, p: Framer.Parser, step: Read)
    requires Inv(g, start, dispatches, l, p) && Rested(g, start, l.log, p) && (l.draining ==> p.state.WaitingForBody?)
    requires SocketRead(step)
    ensures var q, exit := p.Feed(BytesIn(Saw(step))), ReadExit(l, step);
            var l' := AfterRead(l, step);
            && l'.log == l.log + [Saw(step)]
            && (exit.Some? ==> Lawful(g, start, dispatches, Report(exit.value, l'.log, None), q))
            && (exit.None? && |q.buffer| <= MAX_BUFFER_SIZE ==> Inv(g, start, dispatches, l', q))
            && (exit.None? && |q.buffer| > MAX_BUFFER_SIZE ==>
                  Lawful(g, start, dispatches, Report(BufferError(|q.buffer|), l'.log, None), q))
  {
    if !step.Data? {
      OtherReadKeeps(g, start, dispatches, l, p, step);
    } else if |p.Feed(step.bytes).buffer| > MAX_BUFFER_SIZE {
      OverflowLawful(g, start, dispatches, l, p, step);
    } else {
      ProperRead(g, start, dispatches, l, p, step);
    }
  }

  lemma OtherReadKeeps(g: Grammar, start: Framer.Parser, dispatches: nat -> Dispatch, l: Loop, p: Framer.Parser, step: Read)
    requires Inv(g, start, dispatches, l, p) && Rested(g, start, l.log, p) && (l.draining ==> p.state.WaitingForBody?)
    requires !step.Data?
    ensures var l', exit := AfterRead(l, step), ReadExit(l, step);
            && p.Feed(BytesIn(Saw(step))) == p
            && (exit.Some? ==> Lawful(g, start, dispatches, Report(exit.value, l'.log, None), p))
            && (exit.None? ==> Inv(g, start, dispatches, l', p))
  {
    ProperRead(g, start, dispatches, l, p, step);
  }

  /** A wait on the socket leaves a proper log, and the parser where the rest continues. */
  lemma ProperRead(g: Grammar, start: Framer.Parser, dispatches: nat -> Dispatch, l: Loop, p: Framer.Parser, step: Read)
    requires Inv(g, start, dispatches, l, p) && Rested(g, start, l.log, p) && (l.draining ==> p.state.WaitingForBody?)
    ensures var log := l.log + [Saw(step)];
            && Proper(g, start, dispatches, log)
            && Front(log) == l.log && Last(log) == Saw(step)
            && StopSeen(log) == (step.StopSignal? || l.draining)
            && Silence(log) == SilenceAfter(Silence(l.log), Saw(step))
            && Accounts(g, start, Received(log), Messages(log), p.Feed(BytesIn(Saw(step))))
            && ExitOf(log) == ReadExit(l, step)
            && (!step.Data? ==> Rested(g, start, log, p) && p.Feed(BytesIn(Saw(step))) == p)
            && Messages(log) <= Drain(g, start.Feed(Received(log))).0
  {
    var e := Saw(step);
    Snoc(l.log, e);
    assert Front(l.log + [e]) == l.log && Last(l.log + [e]) == e;
    assert Messages(l.log) + [] == Messages(l.log);
    assert MayRead(g, start, l.log);
    AccountsFeed(g, start, Received(l.log), Messages(l.log), p, BytesIn(e));
    assert p.buffer + [] == p.buffer && Received(l.log) + [] == Received(l.log);
  }

  lemma OverflowLawful(g: Grammar, start: Framer.Parser, dispatches: nat -> Dispatch, l: Loop, p: Framer.Parser, step: Read)
    requires Inv(g, start, dispatches, l, p) && Rested(g, start, l.log, p) && (l.draining ==> p.state.WaitingForBody?)
    requires step.Data? && SocketRead(step) && |p.Feed(step.bytes).buffer| > MAX_BUFFER_SIZE
    ensures var q := p.Feed(step.bytes);
            Lawful(g, start, dispatches, Report(BufferError(|q.buffer|), l.log + [Saw(step)], None), q)
  {
    ProperRead(g, start, dispatches, l, p, step);
    if p.state.WaitingForBody? {
      PendingBodyBound(p, step.bytes);
    }
    var q, k := p.Feed(step.bytes), |p.buffer|;
    assert q.buffer[..k] == p.buffer;
    assert HeldNoBlankLine(q.buffer, k);
  }

  // ---- Across a re-exec -----------------------------------------------------------------------------

  /** `adopt_stream_with_options`: a new parser fed the residual bytes. */
  method Adopt(cfg: Config, residual: Bytes) returns (r: Result<EslParser.Parser, EslError>)
    ensures r.Ok? <==> |residual| <= MAX_BUFFER_SIZE
    ensures r.Ok? ==> fresh(r.value) && fresh(r.value.buffer) && r.value.Valid() && r.value.cfg == cfg
    ensures r.Ok? ==> r.value.Value() == Fresh(residual) && r.value.fed == residual
  {
    var parser := new EslParser.Parser(cfg);
    if residual != [] {
      var added := parser.AddData(residual);
      if added.Err? {
        return Err(added.error);
      }
    }
    return Ok(parser);
  }

  /** A lawful run that ends at a boundary has dispatched every message of the bytes received. */
  lemma BoundaryDispatchedAll(g: Grammar, start: Framer.Parser, dispatches: nat -> Dispatch, r: Report, p: Framer.Parser)
    requires start.Valid() && Lawful(g, start, dispatches, r, p) && AtBoundary(r.exit)
    ensures var (whole, stop) := Drain(g, start.Feed(Received(r.log)));
            Messages(r.log) == whole && stop.Blocked?
  {
    if ExitOf(r.log).Some? {
      assert MayRead(g, start, Front(r.log));
      assert Received(Front(r.log)) + [] == Received(Front(r.log));
      assert Messages(Front(r.log)) + [] == Messages(Front(r.log));
    }
  }

  /** The two processes' messages are, in order, the first messages of one process reading both
      their bytes: all of them if the second ended at a boundary or is still running, all up to the
      same error if it ended at one, and up to the last one dispatched if that ended it. */
  ghost predicate OneReader(g: Grammar, start: Framer.Parser, r1: Report, r2: Report)
    requires start.Valid()
  {
    var (whole, stop) := Drain(g, start.Feed(Received(r1.log) + Received(r2.log)));
    var seen := Messages(r1.log) + Messages(r2.log);
    && seen <= whole
    && (AtBoundary(r2.exit) ==> seen == whole && stop.Blocked?)
    && (r2.exit.ParserError? ==> seen == whole && stop == Failure(r2.exit.error))
  }

  lemma ReexecJoins(g: Grammar, start: Framer.Parser, d1: nat -> Dispatch, r1: Report, p1: Framer.Parser, d2: nat -> Dispatch, r2: Report, p2: Framer.Parser)
    requires start.Valid() && Lawful(g, start, d1, r1, p1) && r1.exit == ReexecTeardown
    requires Lawful(g, Fresh(p1.buffer), d2, r2, p2)
    ensures OneReader(g, start, r1, r2)
  {
    assert Fresh(p1.buffer).Feed(Received(r2.log)) == Fresh(p1.buffer + Received(r2.log));
    if AtBoundary(r2.exit) {
      BoundaryDispatchedAll(g, Fresh(p1.buffer), d2, r2, p2);
    }
  }

  /** A connection that lives through a re-exec: when the first process reports success, adopting
      its residual never fails, and the pair is one uninterrupted reader of the whole stream. */
  method RunAcrossReexec(parser: EslParser.Parser, s1: seq<Read>, d1: nat -> Dispatch, s2: seq<Read>, d2: nat -> Dispatch)
    returns (first: Report, second: Option<Report>)
    requires parser.Valid() && |parser.Value().buffer| <= MAX_BUFFER_SIZE && SocketReads(s1) && SocketReads(s2)
    modifies parser, parser.buffer
    ensures second.Some? <==> first.exit == ReexecTeardown
    ensures second.Some? ==> OneReader(Esl(parser.cfg), old(parser.Value()), first, second.value)
    ensures second.Some? && second.value.exit == StillRunning ==> Reads(second.value.log) == s2
  {
    ghost var start := parser.Value();
    first := Run(parser, s1, d1);
    if first.exit != ReexecTeardown {
      return first, None;
    }
    var adopted := Adopt(parser.cfg, first.residual.value);
    ghost var g, p1 := Esl(parser.cfg), parser.Value();
    var next := adopted.value;
    var report := Run(next, s2, d2);
    ReexecJoins(g, start, d1, first, p1, d2, report, next.Value());
    second := Some(report);
  }
}
