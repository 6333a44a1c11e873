/** Command/reply correlation without correlation ids.

    Any number of clients call `send_command` on one connection. Each holds the writer lock from
    before it installs its waiter until it returns; the reader routes each reply by a slot with one
    waiter, a count of stale replies and a dead flag, all behind one mutex. The model takes one
    atomic step per critical section, in every order. The server answers each command it received
    in full, once, in order; calls run to completion, and a write that fails put no complete
    command on the wire. */
module Correlation {
  import opened Bytes

  type Client = nat

  /** Commands are numbered as they are issued; a reply is named by the command it answers. */
  type Cmd = nat

  /** Where one `send_command` call stands. */
  datatype Phase =
    | Idle
    | AwaitingWriter(cmd: Cmd)
    | HoldingWriter(cmd: Cmd)
    | Installed(cmd: Cmd)
    | WriteFailed(cmd: Cmd)
    | AwaitingReply(cmd: Cmd)
    | TimedOut(cmd: Cmd)

  datatype Outcome = NotConnected | ConnectionClosed | IoError | Timeout | Response(reply: Cmd)

  /** The one-shot channel of a command's waiter. */
  datatype Channel = Empty | Delivered(reply: Cmd) | Dropped

  /** `PendingReply`. */
  datatype Slot = Slot(waiting: Option<Cmd>, staleReplies: nat, readerDead: bool)

  /** What the reader did with a reply. */
  datatype Routed = HandedTo(reply: Cmd, waiter: Cmd) | DiscardedStale(reply: Cmd) | Unsolicited(reply: Cmd)

  datatype State = State(
    phases: map<Client, Phase>,
    writer: Option<Client>,
    slot: Slot,
    connected: bool,
    readerRunning: bool,
    channels: map<Cmd, Channel>,
    nextCmd: Cmd,
    unanswered: seq<Cmd>,
    inFlight: seq<Cmd>,
    written: seq<Cmd>,
    routed: seq<Routed>,
    outcomes: seq<(Cmd, Outcome)>)

  function Init(): State
  {
    State(map[], None, Slot(None, 0, false), true, true, map[], 0, [], [], [], [], [])
  }

  function PhaseOf(s: State, c: Client): Phase
  {
    if c in s.phases then s.phases[c] else Idle
  }

  function ChannelOf(s: State, x: Cmd): Channel
  {
    if x in s.channels then s.channels[x] else Empty
  }

  predicate Holds(p: Phase)
  {
    !p.Idle? && !p.AwaitingWriter?
  }

  datatype Action =
    | Call(client: Client)
    | AcquireWriter(client: Client)
    | Install(client: Client)
    | WriteCompletes(client: Client)
    | WriteFails(client: Client)
    | ClearAfterWriteFailure(client: Client)
    | TakeReply(client: Client)
    | SeeDropped(client: Client)
    | TimerFires(client: Client)
    | SettleTimeout(client: Client)
    | ServerAnswers
    | ReaderRoutesReply
    | ReaderStops(publishes: bool)
    | FailPendingReply
    | Disconnect

  /** The call returns: its outcome is recorded and the writer lock, if it holds it, released. */
  function Return(s: State, c: Client, outcome: Outcome): State
    requires !PhaseOf(s, c).Idle?
  {
    s.(phases := s.phases[c := Idle],
       writer := if Holds(PhaseOf(s, c)) then None else s.writer,
       outcomes := s.outcomes + [(PhaseOf(s, c).cmd, outcome)])
  }

  function MoveTo(s: State, c: Client, p: Phase): State
  {
    s.(phases := s.phases[c := p])
  }

  /** One step; a step that is not enabled changes nothing. */
  function Step(s: State, a: Action): State
  {
    match a
    case Call(c) => if PhaseOf(s, c).Idle? then StepCall(s, c) else s
    case AcquireWriter(c) =>
      if PhaseOf(s, c).AwaitingWriter? && s.writer.None?
      then MoveTo(s, c, HoldingWriter(PhaseOf(s, c).cmd)).(writer := Some(c)) else s
    case Install(c) => if PhaseOf(s, c).HoldingWriter? then StepInstall(s, c) else s
    case WriteCompletes(c) => if PhaseOf(s, c).Installed? then StepWritten(s, c) else s
    case WriteFails(c) => if PhaseOf(s, c).Installed? then MoveTo(s, c, WriteFailed(PhaseOf(s, c).cmd)) else s
    case ClearAfterWriteFailure(c) =>
      if PhaseOf(s, c).WriteFailed?
      then Return(s.(slot := s.slot.(waiting := None)), c, IoError) else s
    case TakeReply(c) =>
      if PhaseOf(s, c).AwaitingReply? && ChannelOf(s, PhaseOf(s, c).cmd).Delivered?
      then Return(s, c, Response(ChannelOf(s, PhaseOf(s, c).cmd).reply)) else s
    case SeeDropped(c) =>
      if PhaseOf(s, c).AwaitingReply? && ChannelOf(s, PhaseOf(s, c).cmd).Dropped?
      then Return(s, c, ConnectionClosed) else s
    case TimerFires(c) => if PhaseOf(s, c).AwaitingReply? then MoveTo(s, c, TimedOut(PhaseOf(s, c).cmd)) else s
    case SettleTimeout(c) => if PhaseOf(s, c).TimedOut? then StepSettle(s, c) else s
    case ServerAnswers =>
      if s.unanswered == [] then s
      else s.(unanswered := s.unanswered[1..], inFlight := s.inFlight + [s.unanswered[0]])
    case ReaderRoutesReply => if s.readerRunning && s.inFlight != [] then StepRoute(s) else s
    case ReaderStops(publishes) =>
      if s.readerRunning then s.(readerRunning := false, connected := s.connected && !publishes) else s
    case FailPendingReply => if s.readerRunning then s else StepFail(s)
    case Disconnect => s.(connected := false)
  }

  function StepCall(s: State, c: Client): State
  {
    var x := s.nextCmd;
    if s.connected then MoveTo(s, c, AwaitingWriter(x)).(nextCmd := x + 1)
    else s.(nextCmd := x + 1, outcomes := s.outcomes + [(x, NotConnected)])
  }

  function StepInstall(s: State, c: Client): State
    requires PhaseOf(s, c).HoldingWriter?
  {
    var x := PhaseOf(s, c).cmd;
    if s.slot.readerDead then Return(s, c, ConnectionClosed)
    else MoveTo(s, c, Installed(x)).(slot := s.slot.(waiting := Some(x)))
  }

  function StepWritten(s: State, c: Client): State
    requires PhaseOf(s, c).Installed?
  {
    var x := PhaseOf(s, c).cmd;
    MoveTo(s, c, AwaitingReply(x)).(unanswered := s.unanswered + [x], written := s.written + [x])
  }

  /** The timeout arm: a waiter still in the slot means the reply is still to come. */
  function StepSettle(s: State, c: Client): State
    requires PhaseOf(s, c).TimedOut?
  {
    var settled := if s.slot.waiting.Some?
                   then s.slot.(waiting := None, staleReplies := s.slot.staleReplies + 1) else s.slot;
    Return(s.(slot := settled), c, Timeout)
  }

  /** The reply arm of `dispatch_message`. */
  function StepRoute(s: State): State
    requires s.inFlight != []
  {
    var r := s.inFlight[0];
    var s' := s.(inFlight := s.inFlight[1..]);
    if s.slot.staleReplies > 0 then
      s'.(slot := s.slot.(staleReplies := s.slot.staleReplies - 1), routed := s.routed + [DiscardedStale(r)])
    else match s.slot.waiting
      case Some(w) => s'.(slot := s.slot.(waiting := None),
                          channels := s.channels[w := Delivered(r)],
                          routed := s.routed + [HandedTo(r, w)])
      case None => s'.(routed := s.routed + [Unsolicited(r)])
  }

  /** `fail_pending_reply`. */
  function StepFail(s: State): State
  {
    s.(slot := Slot(None, 0, true),
       channels := if s.slot.waiting.Some? then s.channels[s.slot.waiting.value := Dropped] else s.channels)
  }

  function Run(s: State, actions: seq<Action>): State
    decreases actions
  {
    if actions == [] then s else Run(Step(s, actions[0]), actions[1..])
  }

  // ---- The invariant ---------------------------------------------------------------------

  function Owed(s: State): seq<Cmd> { s.inFlight + s.unanswered }

  /** The lock holder is the one client inside the critical part of its call. */
  ghost predicate LockOk(s: State)
  {
    forall c: Client :: Holds(PhaseOf(s, c)) <==> s.writer == Some(c)
  }

  /** Calls in progress have their own command numbers, unwritten and unanswered until they are. */
  ghost predicate NumbersOk(s: State)
  {
    && (forall c: Client :: !PhaseOf(s, c).Idle? ==> PhaseOf(s, c).cmd < s.nextCmd)
    && (forall c: Client, d: Client :: c != d && !PhaseOf(s, c).Idle? && !PhaseOf(s, d).Idle? ==> PhaseOf(s, c).cmd != PhaseOf(s, d).cmd)
    && (forall x: Cmd :: x in s.written ==> x < s.nextCmd)
    && (forall i, j :: 0 <= i < j < |s.written| ==> s.written[i] != s.written[j])
    && (forall c: Client :: NotWritten(PhaseOf(s, c)) ==> PhaseOf(s, c).cmd !in s.written)
    && (forall x: Cmd :: x in s.channels ==> x < s.nextCmd)
    && (forall c: Client :: NotInstalled(PhaseOf(s, c)) ==> PhaseOf(s, c).cmd !in s.channels)
  }

  predicate NotInstalled(p: Phase) { p.AwaitingWriter? || p.HoldingWriter? }

  predicate NotWritten(p: Phase) { NotInstalled(p) || p.Installed? || p.WriteFailed? }

  predicate OnTheWire(p: Phase) { p.AwaitingReply? || p.TimedOut? }

  /** The phase of the call that holds the writer lock. */
  function Holder(s: State): Phase
  {
    if s.writer.Some? then PhaseOf(s, s.writer.value) else Idle
  }

  /** The slot waits for the lock holder or for no one, and no one awaits a reply in vain. */
  ghost predicate SlotOk(s: State)
  {
    var p := Holder(s);
    && (s.slot.waiting.Some? ==> Holds(p) && !p.HoldingWriter? && s.slot.waiting == Some(p.cmd)
                                 && ChannelOf(s, p.cmd).Empty?)
    && (s.slot.readerDead ==> s.slot.waiting.None? && s.slot.staleReplies == 0 && !s.readerRunning)
    && ((p.Installed? || p.WriteFailed?) && s.slot.waiting.None? ==>
          s.slot.readerDead && ChannelOf(s, p.cmd).Dropped?)
    && (p.AwaitingReply? && s.slot.waiting.None? ==> !ChannelOf(s, p.cmd).Empty?)
  }

  /** With the reader not yet dead, the replies still owed are, in order, one for each stale count,
      all of timed-out commands, and then the current command's if its waiter is installed and it
      was written. */
  ghost predicate OwedOk(s: State)
  {
    var current := s.slot.waiting.Some? && OnTheWire(Holder(s));
    !s.slot.readerDead ==>
      && |Owed(s)| == s.slot.staleReplies + (if current then 1 else 0)
      && (current ==> Owed(s)[s.slot.staleReplies] == s.slot.waiting.value)
      && forall i :: 0 <= i < s.slot.staleReplies ==> (Owed(s)[i], Timeout) in s.outcomes
  }

  ghost predicate RoutedOk(s: State, r: Routed)
  {
    match r
    case HandedTo(reply, waiter) => reply == waiter
    case DiscardedStale(reply) => (reply, Timeout) in s.outcomes
    case Unsolicited(_) => false
  }

  function Replies(routed: seq<Routed>): seq<Cmd>
  {
    seq(|routed|, i requires 0 <= i < |routed| => routed[i].reply)
  }

  /** Every written command's reply has been routed, once and in order, or is still owed. */
  ghost predicate HistoryOk(s: State)
  {
    && s.written == Replies(s.routed) + Owed(s)
    && (forall i :: 0 <= i < |s.routed| ==> RoutedOk(s, s.routed[i]))
    && (forall x: Cmd :: x in s.channels && s.channels[x].Delivered? ==> s.channels[x].reply == x)
    && (forall i :: 0 <= i < |s.outcomes| && s.outcomes[i].1.Response? ==> s.outcomes[i].1.reply == s.outcomes[i].0)
  }

  ghost predicate Inv(s: State)
  {
    LockOk(s) && NumbersOk(s) && SlotOk(s) && OwedOk(s) && HistoryOk(s)
  }

  // ---- Preservation ------------------------------------------------------------------------

  /** A client that moves on within its call, or returns from it, keeps the lock and the numbering. */
  lemma MoveKeepsCalls(s: State, t: State, c: Client, p: Phase)
    requires LockOk(s) && NumbersOk(s) && !PhaseOf(s, c).Idle?
    requires t.phases == s.phases[c := p] && (!p.Idle? ==> p.cmd == PhaseOf(s, c).cmd)
    requires NotWritten(p) ==> NotWritten(PhaseOf(s, c))
    requires NotInstalled(p) ==> NotInstalled(PhaseOf(s, c))
    requires t.nextCmd == s.nextCmd && t.written == s.written && t.channels == s.channels
    requires Holds(p) ==> t.writer == Some(c) && (s.writer.None? || s.writer == Some(c))
    requires !Holds(p) ==> t.writer == if s.writer == Some(c) then None else s.writer
    ensures LockOk(t) && NumbersOk(t)
    ensures Holder(t) == if Holds(p) then p else if s.writer == Some(c) then Idle else Holder(s)
  {
    assert PhaseOf(t, c) == p;
    assert forall d: Client :: d != c ==> PhaseOf(t, d) == PhaseOf(s, d);
  }

  /** A step that touches no call keeps them, even when it resolves the waiter's channel. */
  lemma SameCalls(s: State, t: State)
    requires LockOk(s) && NumbersOk(s) && SlotOk(s)
    requires t.phases == s.phases && t.writer == s.writer && t.nextCmd == s.nextCmd && t.written == s.written
    requires forall x: Cmd :: x in t.channels ==> x in s.channels || s.slot.waiting == Some(x)
    ensures LockOk(t) && NumbersOk(t) && Holder(t) == Holder(s)
  {
    assert forall d: Client :: PhaseOf(t, d) == PhaseOf(s, d);
    if s.slot.waiting.Some? {
      var h := s.writer.value;
      assert forall d: Client :: d != h && !PhaseOf(s, d).Idle? ==> PhaseOf(s, d).cmd != s.slot.waiting.value;
    }
  }

  /** History after a step that routes nothing and answers nothing wrong. */
  lemma SameHistory(s: State, t: State)
    requires HistoryOk(s) && t.routed == s.routed && t.channels == s.channels
    requires t.written == s.written && Owed(t) == Owed(s)
    requires t.outcomes == s.outcomes
             || exists o :: t.outcomes == s.outcomes + [o] && (o.1.Response? ==> o.1.reply == o.0)
    ensures HistoryOk(t)
    ensures forall o :: o in s.outcomes ==> o in t.outcomes
  {
    forall i | 0 <= i < |t.routed| ensures RoutedOk(t, t.routed[i]) {
      assert RoutedOk(s, s.routed[i]);
    }
  }

  lemma CallKeeps(s: State, c: Client)
    requires Inv(s) && PhaseOf(s, c).Idle?
    ensures Inv(StepCall(s, c))
  {
    var t := StepCall(s, c);
    if !s.connected {
      assert t.outcomes == s.outcomes + [(s.nextCmd, NotConnected)];
    }
    SameHistory(s, t);
    assert forall d: Client :: d != c ==> PhaseOf(t, d) == PhaseOf(s, d);
    assert Holder(t) == Holder(s);
  }

  lemma AcquireKeeps(s: State, c: Client)
    requires Inv(s) && PhaseOf(s, c).AwaitingWriter? && s.writer.None?
    ensures Inv(Step(s, AcquireWriter(c)))
  {
    var t := Step(s, AcquireWriter(c));
    MoveKeepsCalls(s, t, c, HoldingWriter(PhaseOf(s, c).cmd));
    SameHistory(s, t);
  }

  lemma InstallKeeps(s: State, c: Client)
    requires Inv(s) && PhaseOf(s, c).HoldingWriter?
    ensures Inv(StepInstall(s, c))
  {
    var t := StepInstall(s, c);
    if s.slot.readerDead {
      assert t.outcomes == s.outcomes + [(PhaseOf(s, c).cmd, ConnectionClosed)];
    }
    MoveKeepsCalls(s, t, c, if s.slot.readerDead then Idle else Installed(PhaseOf(s, c).cmd));
    SameHistory(s, t);
  }

  lemma WrittenKeeps(s: State, c: Client)
    requires Inv(s) && PhaseOf(s, c).Installed?
    ensures Inv(StepWritten(s, c))
  {
    var t, x := StepWritten(s, c), PhaseOf(s, c).cmd;
    MoveKeepsCalls(s, t.(written := s.written), c, AwaitingReply(x));
    assert Owed(t) == Owed(s) + [x];
    assert t.written == Replies(t.routed) + Owed(t);
    forall i | 0 <= i < |t.routed| ensures RoutedOk(t, t.routed[i]) {
      assert RoutedOk(s, s.routed[i]);
    }
    WrittenKeepsNumbers(s, c);
  }

  lemma WrittenKeepsNumbers(s: State, c: Client)
    requires LockOk(s) && NumbersOk(s) && PhaseOf(s, c).Installed?
    ensures LockOk(StepWritten(s, c)) && NumbersOk(StepWritten(s, c))
  {
    var t := StepWritten(s, c);
    assert forall d: Client :: d != c ==> PhaseOf(t, d) == PhaseOf(s, d);
  }

  lemma WriteFailsKeeps(s: State, c: Client)
    requires Inv(s) && PhaseOf(s, c).Installed?
    ensures Inv(Step(s, WriteFails(c)))
  {
    var t := Step(s, WriteFails(c));
    MoveKeepsCalls(s, t, c, WriteFailed(PhaseOf(s, c).cmd));
    SameHistory(s, t);
  }

  lemma ClearKeeps(s: State, c: Client)
    requires Inv(s) && PhaseOf(s, c).WriteFailed?
    ensures Inv(Step(s, ClearAfterWriteFailure(c)))
  {
    var t := Step(s, ClearAfterWriteFailure(c));
    assert t.outcomes == s.outcomes + [(PhaseOf(s, c).cmd, IoError)];
    MoveKeepsCalls(s, t, c, Idle);
    SameHistory(s, t);
  }

  lemma TakeReplyKeeps(s: State, c: Client)
    requires Inv(s) && PhaseOf(s, c).AwaitingReply? && ChannelOf(s, PhaseOf(s, c).cmd).Delivered?
    ensures Inv(Step(s, TakeReply(c)))
  {
    var t, x := Step(s, TakeReply(c)), PhaseOf(s, c).cmd;
    assert t.outcomes == s.outcomes + [(x, Response(x))];
    MoveKeepsCalls(s, t, c, Idle);
    SameHistory(s, t);
  }

  lemma SeeDroppedKeeps(s: State, c: Client)
    requires Inv(s) && PhaseOf(s, c).AwaitingReply? && ChannelOf(s, PhaseOf(s, c).cmd).Dropped?
    ensures Inv(Step(s, SeeDropped(c)))
  {
    var t := Step(s, SeeDropped(c));
    assert t.outcomes == s.outcomes + [(PhaseOf(s, c).cmd, ConnectionClosed)];
    MoveKeepsCalls(s, t, c, Idle);
    SameHistory(s, t);
  }

  lemma TimerKeeps(s: State, c: Client)
    requires Inv(s) && PhaseOf(s, c).AwaitingReply?
    ensures Inv(Step(s, TimerFires(c)))
  {
    var t := Step(s, TimerFires(c));
    MoveKeepsCalls(s, t, c, TimedOut(PhaseOf(s, c).cmd));
    SameHistory(s, t);
  }

  lemma SettleKeeps(s: State, c: Client)
    requires Inv(s) && PhaseOf(s, c).TimedOut?
    ensures Inv(StepSettle(s, c))
  {
    var t, o := StepSettle(s, c), (PhaseOf(s, c).cmd, Timeout);
    assert t.outcomes == s.outcomes + [o] && o in t.outcomes;
    MoveKeepsCalls(s, t, c, Idle);
    SameHistory(s, t);
  }

  lemma AnswerKeeps(s: State)
    requires Inv(s)
    ensures Inv(Step(s, ServerAnswers))
  {
    if s.unanswered != [] {
      var t := s.(unanswered := s.unanswered[1..], inFlight := s.inFlight + [s.unanswered[0]]);
      assert Owed(t) == Owed(s);
      SameCalls(s, t);
      SameHistory(s, t);
    }
  }

  lemma RouteKeeps(s: State)
    requires Inv(s) && s.readerRunning && s.inFlight != []
    ensures Inv(StepRoute(s))
  {
    var t := StepRoute(s);
    assert Owed(t) == Owed(s)[1..];
    SameCalls(s, t);
    RouteKeepsHistory(s);
  }

  lemma RouteKeepsHistory(s: State)
    requires HistoryOk(s) && SlotOk(s) && OwedOk(s) && s.readerRunning && s.inFlight != []
    ensures HistoryOk(StepRoute(s))
  {
    var t, r := StepRoute(s), s.inFlight[0];
    assert r == Owed(s)[0] && Owed(t) == Owed(s)[1..];
    assert Replies(t.routed) == Replies(s.routed) + [r];
    assert Replies(s.routed) + Owed(s) == Replies(t.routed) + Owed(t);
    forall i | 0 <= i < |t.routed| ensures RoutedOk(t, t.routed[i]) {
      if i < |s.routed| {
        assert RoutedOk(s, s.routed[i]);
      }
    }
  }

  lemma StopKeeps(s: State, a: Action)
    requires Inv(s) && (a.ReaderStops? || a.Disconnect?)
    ensures Inv(Step(s, a))
  {
    var t := Step(s, a);
    SameCalls(s, t);
    SameHistory(s, t);
  }

  lemma FailKeeps(s: State)
    requires Inv(s) && !s.readerRunning
    ensures Inv(StepFail(s))
  {
    var t := StepFail(s);
    SameCalls(s, t);
    SameHistory(s, t.(channels := s.channels));
    forall i | 0 <= i < |t.routed| ensures RoutedOk(t, t.routed[i]) {
      assert RoutedOk(s, s.routed[i]);
    }
  }

  /** Steps up to a command being on the wire. */
  lemma SendingKeeps(s: State, a: Action)
    requires Inv(s)
    requires a.Call? || a.AcquireWriter? || a.Install? || a.WriteCompletes? || a.WriteFails? || a.ClearAfterWriteFailure?
    ensures Inv(Step(s, a))
  {
    var c := a.client;
    match a
    case Call(_) => if PhaseOf(s, c).Idle? { CallKeeps(s, c); }
    case AcquireWriter(_) => if PhaseOf(s, c).AwaitingWriter? && s.writer.None? { AcquireKeeps(s, c); }
    case Install(_) => if PhaseOf(s, c).HoldingWriter? { InstallKeeps(s, c); }
    case WriteCompletes(_) => if PhaseOf(s, c).Installed? { WrittenKeeps(s, c); }
    case WriteFails(_) => if PhaseOf(s, c).Installed? { WriteFailsKeeps(s, c); }
    case ClearAfterWriteFailure(_) => if PhaseOf(s, c).WriteFailed? { ClearKeeps(s, c); }
  }

  /** Steps from there on. */
  lemma ReturningKeeps(s: State, a: Action)
    requires Inv(s) && (a.TakeReply? || a.SeeDropped? || a.TimerFires? || a.SettleTimeout?)
    ensures Inv(Step(s, a))
  {
    var c := a.client;
    match a
    case TakeReply(_) =>
      if PhaseOf(s, c).AwaitingReply? && ChannelOf(s, PhaseOf(s, c).cmd).Delivered? { TakeReplyKeeps(s, c); }
    case SeeDropped(_) =>
      if PhaseOf(s, c).AwaitingReply? && ChannelOf(s, PhaseOf(s, c).cmd).Dropped? { SeeDroppedKeeps(s, c); }
    case TimerFires(_) => if PhaseOf(s, c).AwaitingReply? { TimerKeeps(s, c); }
    case SettleTimeout(_) => if PhaseOf(s, c).TimedOut? { SettleKeeps(s, c); }
  }

  lemma StepKeeps(s: State, a: Action)
    requires Inv(s)
    ensures Inv(Step(s, a))
  {
    match a
    case ServerAnswers => AnswerKeeps(s);
    case ReaderRoutesReply => if s.readerRunning && s.inFlight != [] { RouteKeeps(s); }
    case ReaderStops(_) => StopKeeps(s, a);
    case FailPendingReply => if !s.readerRunning { FailKeeps(s); }
    case Disconnect => StopKeeps(s, a);
    case _ =>
      if a.TakeReply? || a.SeeDropped? || a.TimerFires? || a.SettleTimeout? {
        ReturningKeeps(s, a);
      } else {
        SendingKeeps(s, a);
      }
  }

  lemma {:induction false} RunKeeps(s: State, actions: seq<Action>)
    requires Inv(s)
    ensures Inv(Run(s, actions))
    decreases actions
  {
    if actions != [] {
      StepKeeps(s, actions[0]);
      RunKeeps(Step(s, actions[0]), actions[1..]);
    }
  }

  // ---- What holds over every run -------------------------------------------------------------

  /** Correlation: in every run, of any number of clients in any interleaving with timeouts, write
      failures, disconnects and reader exit, a call that returns a response returns the reply to
      its own command. */
  lemma ResponsesMatchCommands(actions: seq<Action>, i: nat)
    requires i < |Run(Init(), actions).outcomes| && Run(Init(), actions).outcomes[i].1.Response?
    ensures Run(Init(), actions).outcomes[i].1.reply == Run(Init(), actions).outcomes[i].0
  {
    RunKeeps(Init(), actions);
  }

  /** Accounting: every command written is answered once. Its reply was handed to its own waiter,
      or discarded because the command had timed out, or is still on its way; none is ever
      unsolicited, none is seen twice, and the order is the order of writing. */
  lemma EveryReplyAccountedOnce(actions: seq<Action>)
    ensures var s := Run(Init(), actions);
            && s.written == Replies(s.routed) + s.inFlight + s.unanswered
            && (forall i, j :: 0 <= i < j < |s.written| ==> s.written[i] != s.written[j])
            && (forall i :: 0 <= i < |s.routed| ==> RoutedOk(s, s.routed[i]))
  {
    RunKeeps(Init(), actions);
    var s := Run(Init(), actions);
    assert Replies(s.routed) + Owed(s) == Replies(s.routed) + s.inFlight + s.unanswered;
  }

  /** Until the reader is dead, the replies on their way are those of `stale_replies` timed-out
      commands, then the current command's if it was written and its waiter is still installed. */
  lemma OwedReplies(actions: seq<Action>)
    ensures OwedOk(Run(Init(), actions))
  {
    RunKeeps(Init(), actions);
  }

  /** A dead reader stays dead, with an empty slot and nothing counted stale. */
  lemma {:induction false} DeadStaysDead(s: State, actions: seq<Action>)
    requires Inv(s) && s.slot.readerDead
    ensures Run(s, actions).slot == Slot(None, 0, true)
  {
    DeadRun(s, actions);
  }

  lemma {:induction false} DeadRun(s: State, actions: seq<Action>)
    requires s.slot == Slot(None, 0, true) && !s.readerRunning
    ensures Run(s, actions).slot == Slot(None, 0, true)
    decreases actions
  {
    if actions != [] {
      DeadStep(s, actions[0]);
      DeadRun(Step(s, actions[0]), actions[1..]);
    }
  }

  lemma DeadStep(s: State, a: Action)
    requires s.slot == Slot(None, 0, true) && !s.readerRunning
    ensures Step(s, a).slot == Slot(None, 0, true) && !Step(s, a).readerRunning
  {
  }

  /** The calling client's own next steps once the reader is dead. */
  function Finish(s: State, c: Client): seq<Action>
  {
    match PhaseOf(s, c)
    case Idle => []
    case AwaitingWriter(_) => [AcquireWriter(c), Install(c)]
    case HoldingWriter(_) => [Install(c)]
    case Installed(_) => [WriteCompletes(c), SeeDropped(c)]
    case WriteFailed(_) => [ClearAfterWriteFailure(c)]
    case AwaitingReply(x) => if ChannelOf(s, x).Delivered? then [TakeReply(c)] else [SeeDropped(c)]
    case TimedOut(_) => [SettleTimeout(c)]
  }

  lemma RunOne(s: State, a: Action)
    ensures Run(s, [a]) == Step(s, a)
  {
    assert Run(s, [a]) == Run(Step(s, a), [a][1..]);
  }

  lemma RunTwo(s: State, a: Action, b: Action)
    ensures Run(s, [a, b]) == Step(Step(s, a), b)
  {
    assert [a, b][1..] == [b];
    RunOne(Step(s, a), b);
  }

  /** The call of `c` is over, with this outcome and the lock free; no other call moved. */
  ghost predicate Returned(s: State, t: State, c: Client, x: Cmd, o: Outcome)
  {
    t.phases == s.phases[c := Idle] && t.writer.None? && t.channels == s.channels && t.outcomes == s.outcomes + [(x, o)]
  }

  lemma FinishInOne(s: State, c: Client) returns (o: Outcome)
    requires LockOk(s) && SlotOk(s) && s.slot.readerDead && s.writer == Some(c) && !PhaseOf(s, c).Installed?
    ensures Returned(s, Run(s, Finish(s, c)), c, PhaseOf(s, c).cmd, o)
    ensures o.Response? ==> ChannelOf(s, PhaseOf(s, c).cmd) == Delivered(o.reply)
  {
    var p := PhaseOf(s, c);
    RunOne(s, Finish(s, c)[0]);
    o := if p.WriteFailed? then IoError
         else if p.TimedOut? then Timeout
         else if p.AwaitingReply? && ChannelOf(s, p.cmd).Delivered? then Response(ChannelOf(s, p.cmd).reply)
         else ConnectionClosed;
  }

  lemma FinishInTwo(s: State, c: Client)
    requires LockOk(s) && SlotOk(s) && s.slot.readerDead
    requires (s.writer.None? && PhaseOf(s, c).AwaitingWriter?) || (s.writer == Some(c) && PhaseOf(s, c).Installed?)
    ensures Returned(s, Run(s, Finish(s, c)), c, PhaseOf(s, c).cmd, ConnectionClosed)
  {
    var steps := Finish(s, c);
    RunTwo(s, steps[0], steps[1]);
  }

  /** No stranded waiter: once the reader is dead, a call that holds the writer lock, or that finds
      it free, finishes by its own steps alone. It returns an error unless its own reply had already
      been delivered, and it leaves the lock free for the next. */
  lemma NoStrandedWaiter(s: State, c: Client) returns (o: Outcome)
    requires Inv(s) && s.slot.readerDead && !PhaseOf(s, c).Idle?
    requires s.writer == Some(c) || s.writer.None?
    ensures Returned(s, Run(s, Finish(s, c)), c, PhaseOf(s, c).cmd, o)
    ensures o.Response? ==> o.reply == PhaseOf(s, c).cmd && ChannelOf(s, o.reply) == Delivered(o.reply)
  {
    assert Holds(PhaseOf(s, c)) <==> s.writer == Some(c);
    if PhaseOf(s, c).AwaitingWriter? || PhaseOf(s, c).Installed? {
      FinishInTwo(s, c);
      o := ConnectionClosed;
    } else {
      o := FinishInOne(s, c);
    }
  }

  /** The clients inside a call. */
  function Active(s: State): set<Client>
  {
    set c | c in s.phases && !s.phases[c].Idle?
  }

  lemma {:induction false} RunAppend(s: State, a: seq<Action>, b: seq<Action>)
    ensures Run(s, a + b) == Run(Run(s, a), b)
    decreases a
  {
    if a == [] {
      assert a + b == b;
    } else {
      assert (a + b)[0] == a[0] && (a + b)[1..] == a[1..] + b;
      RunAppend(Step(s, a[0]), a[1..], b);
    }
  }

  lemma HolderIsActive(s: State)
    requires LockOk(s)
    ensures s.writer.Some? ==> s.writer.value in Active(s)
  {
    if s.writer.Some? {
      assert Holds(PhaseOf(s, s.writer.value));
    }
  }

  lemma PickNext(s: State)
    requires LockOk(s) && Active(s) != {}
    ensures exists c :: c in Active(s) && (s.writer.Some? ==> s.writer == Some(c))
  {
    if s.writer.Some? {
      HolderIsActive(s);
    } else {
      var c :| c in Active(s);
    }
  }

  // ---- How a call goes ---------------------------------------------------------------------------------

  /** The steps of a call up to its command being on the wire. */
  function SendSteps(c: Client): seq<Action>
  {
    [Call(c), AcquireWriter(c), Install(c), WriteCompletes(c)]
  }

  function Sent(s: State, c: Client): State
  {
    var x := s.nextCmd;
    s.(phases := s.phases[c := AwaitingReply(x)], writer := Some(c), slot := s.slot.(waiting := Some(x)),
       nextCmd := x + 1, unanswered := s.unanswered + [x], written := s.written + [x])
  }

  lemma SendRuns(s: State, c: Client)
    requires PhaseOf(s, c).Idle? && s.connected && s.writer.None? && !s.slot.readerDead
    ensures Run(s, SendSteps(c)) == Sent(s, c)
  {
    var x := s.nextCmd;
    RunTwo(Step(Step(s, Call(c)), AcquireWriter(c)), Install(c), WriteCompletes(c));
    assert SendSteps(c)[1..] == [AcquireWriter(c), Install(c), WriteCompletes(c)];
    assert SendSteps(c)[1..][1..] == [Install(c), WriteCompletes(c)];
    assert s.phases[c := AwaitingWriter(x)][c := HoldingWriter(x)][c := Installed(x)][c := AwaitingReply(x)]
        == s.phases[c := AwaitingReply(x)];
  }

  /** The reply owed right after the stale ones goes to whoever waits, whatever it answers. */
  lemma {:induction false} OwedReachesWaiter(s: State, d: Client, y: Cmd) returns (actions: seq<Action>)
    requires s.readerRunning && s.slot.waiting == Some(y) && PhaseOf(s, d) == AwaitingReply(y)
    requires s.slot.staleReplies < |Owed(s)|
    ensures Run(s, actions).outcomes == s.outcomes + [(y, Response(Owed(s)[s.slot.staleReplies]))]
    decreases s.slot.staleReplies, |s.unanswered|
  {
    if s.inFlight == [] {
      var t := Step(s, ServerAnswers);
      assert Owed(t) == Owed(s);
      var rest := OwedReachesWaiter(t, d, y);
      actions := [ServerAnswers] + rest;
    } else if s.slot.staleReplies > 0 {
      var t := Step(s, ReaderRoutesReply);
      assert Owed(t) == Owed(s)[1..];
      var rest := OwedReachesWaiter(t, d, y);
      actions := [ReaderRoutesReply] + rest;
    } else {
      assert Owed(s)[0] == s.inFlight[0];
      actions := [ReaderRoutesReply, TakeReply(d)];
      RunTwo(s, ReaderRoutesReply, TakeReply(d));
    }
  }

  /** The call whose waiter is in the slot holds the lock. */
  lemma WaiterIsHolder(s: State, c: Client)
    requires LockOk(s) && NumbersOk(s) && SlotOk(s) && !PhaseOf(s, c).Idle? && s.slot.waiting == Some(PhaseOf(s, c).cmd)
    ensures s.writer == Some(c)
  {
    var h := s.writer.value;
    assert Holds(PhaseOf(s, h)) && PhaseOf(s, h).cmd == PhaseOf(s, c).cmd;
  }
}
