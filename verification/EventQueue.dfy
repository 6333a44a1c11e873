/** Event dispatch into the bounded queue: drops counted and announced, over every interleaving of
    the reader's steps with the consumer's.

    An event here is any item the reader dispatches, a parse error included; the `QueueFull` notice
    is the one item the queue adds of its own. A dispatch is not atomic: the consumer may receive
    between the notice flush and the send, and at any time while the reader is parked. */
module EventQueue {
  import opened Bytes

  type Event = nat

  datatype Item = Delivery(event: Event) | QueueFull

  /** Where the reader stands inside `dispatch_event`; `Exited` once it found the receiver gone. */
  datatype Reader = Ready | Flushed(event: Event, mayWait: bool) | Parked(event: Event) | Exited(lost: Event)

  /** What became of each dispatch, and each notice sent, in order. */
  datatype Entry = Sent(event: Event) | SentNotice | Lost(event: Event)

  datatype State = State(
    capacity: nat,
    queue: seq<Item>,
    receiverGone: bool,
    armed: bool,
    dropped: nat,
    stalls: nat,
    stopFired: bool,
    reader: Reader,
    dispatched: seq<Event>,
    log: seq<Entry>,
    received: seq<Item>)

  /** A new connection; the queue holds at least one item. */
  function Init(queueSize: nat): State
  {
    State(if queueSize == 0 then 1 else queueSize, [], false, false, 0, 0, false, Ready, [], [], [])
  }

  datatype Action =
    | Dispatch(event: Event, mayWait: bool)
    | TrySend
    | PermitGranted
    | FindReceiverGone
    | BudgetExpires
    | StopFires(permitHeld: bool)
    | Receive
    | ReceiverDrops

  predicate HasRoom(s: State) { |s.queue| < s.capacity }

  function Enqueue(s: State, e: Event): State
  {
    s.(queue := s.queue + [Delivery(e)], log := s.log + [Sent(e)], reader := Ready)
  }

  /** `drop_event`. */
  function Drop(s: State, e: Event): State
  {
    s.(armed := true, dropped := s.dropped + 1, log := s.log + [Lost(e)], reader := Ready)
  }

  /** `flush_queue_full_notice`, at the head of every dispatch; it never waits. */
  function Flush(s: State): State
  {
    if s.armed && HasRoom(s)
    then s.(queue := s.queue + [QueueFull], armed := false, log := s.log + [SentNotice]) else s
  }

  /** One step of the reader or the consumer; a step that is not enabled changes nothing. */
  function Step(s: State, a: Action): State
  {
    match a
    case Dispatch(e, mayWait) =>
      if !s.reader.Ready? then s
      else
        var s' := s.(dispatched := s.dispatched + [e]);
        if s.armed && s.receiverGone then s'.(reader := Exited(e))
        else Flush(s').(reader := Flushed(e, mayWait))
    case TrySend =>
      if !s.reader.Flushed? then s
      else if s.receiverGone then s.(reader := Exited(s.reader.event))
      else if HasRoom(s) then Enqueue(s, s.reader.event)
      else if s.reader.mayWait then s.(stalls := s.stalls + 1, reader := Parked(s.reader.event))
      else Drop(s, s.reader.event)
    case PermitGranted =>
      if s.reader.Parked? && !s.receiverGone && HasRoom(s) then Enqueue(s, s.reader.event) else s
    case FindReceiverGone =>
      if s.reader.Parked? && s.receiverGone then s.(reader := Exited(s.reader.event)) else s
    case BudgetExpires => if s.reader.Parked? then Drop(s, s.reader.event) else s
    case StopFires(permitHeld) => if s.reader.Parked? then StepStop(s, permitHeld) else s
    case Receive =>
      if s.queue == [] || s.receiverGone then s
      else s.(queue := s.queue[1..], received := s.received + [s.queue[0]])
    case ReceiverDrops => s.(receiverGone := true)
  }

  /** The stop signal wins the wait: one last free attempt. Room freed meanwhile may already be
      promised to the abandoned wait, and then the attempt finds the queue full. */
  function StepStop(s: State, permitHeld: bool): State
    requires s.reader.Parked?
  {
    var e, s' := s.reader.event, s.(stopFired := true);
    if s.receiverGone then s'.(reader := Exited(e))
    else if HasRoom(s) && !permitHeld then Enqueue(s', e)
    else Drop(s', e)
  }

  function Run(s: State, actions: seq<Action>): State
    decreases actions
  {
    if actions == [] then s else Run(Step(s, actions[0]), actions[1..])
  }

  // ---- What the log says ------------------------------------------------------------------------

  /** The event an entry settles. */
  function EventOf(x: Entry): seq<Event>
  {
    match x
    case Sent(e) => [e]
    case SentNotice => []
    case Lost(e) => [e]
  }

  /** The item an entry put in the queue. */
  function ItemOf(x: Entry): seq<Item>
  {
    match x
    case Sent(e) => [Delivery(e)]
    case SentNotice => [QueueFull]
    case Lost(_) => []
  }

  /** Every event of the log, sent or lost, in order. */
  function Settled(log: seq<Entry>): seq<Event>
  {
    if log == [] then [] else Settled(log[..|log| - 1]) + EventOf(log[|log| - 1])
  }

  /** Every item put in the queue, in order. */
  function Items(log: seq<Entry>): seq<Item>
  {
    if log == [] then [] else Items(log[..|log| - 1]) + ItemOf(log[|log| - 1])
  }

  /** The events among queued items. */
  function Events(items: seq<Item>): seq<Event>
  {
    if items == [] then []
    else Events(items[..|items| - 1]) + (if items[|items| - 1].QueueFull? then [] else [items[|items| - 1].event])
  }

  function LostCount(log: seq<Entry>): nat
  {
    if log == [] then 0
    else LostCount(log[..|log| - 1]) + (if log[|log| - 1].Lost? then 1 else 0)
  }

  /** Whether an event was lost after the last notice. */
  predicate LostSinceNotice(log: seq<Entry>)
  {
    log != [] && (log[|log| - 1].Lost? || (log[|log| - 1].Sent? && LostSinceNotice(log[..|log| - 1])))
  }

  /** Every notice announces a loss that no earlier notice announced. */
  predicate NoticesHonest(log: seq<Entry>)
  {
    log == []
    || (NoticesHonest(log[..|log| - 1]) && (log[|log| - 1].SentNotice? ==> LostSinceNotice(log[..|log| - 1])))
  }

  lemma Snoc(log: seq<Entry>, x: Entry)
    ensures Settled(log + [x]) == Settled(log) + EventOf(x)
    ensures Items(log + [x]) == Items(log) + ItemOf(x)
    ensures LostCount(log + [x]) == LostCount(log) + (if x.Lost? then 1 else 0)
    ensures LostSinceNotice(log + [x]) == (x.Lost? || (x.Sent? && LostSinceNotice(log)))
    ensures NoticesHonest(log + [x]) == (NoticesHonest(log) && (x.SentNotice? ==> LostSinceNotice(log)))
  {
    assert (log + [x])[..|log|] == log;
  }

  function InHand(r: Reader): seq<Event>
  {
    match r
    case Ready => []
    case Flushed(e, _) => [e]
    case Parked(e) => [e]
    case Exited(e) => [e]
  }

  ghost predicate Inv(s: State)
  {
    && 0 < s.capacity && |s.queue| <= s.capacity
    && Items(s.log) == s.received + s.queue
    && s.dispatched == Settled(s.log) + InHand(s.reader)
    && s.dropped == LostCount(s.log)
    && (s.armed <==> LostSinceNotice(s.log))
    && NoticesHonest(s.log)
    && (s.reader.Exited? ==> s.receiverGone)
  }

  lemma EnqueueKeeps(s: State, e: Event)
    requires Inv(s) && HasRoom(s) && InHand(s.reader) == [e]
    ensures Inv(Enqueue(s, e))
  {
    Snoc(s.log, Sent(e));
    assert (s.received + s.queue) + [Delivery(e)] == s.received + (s.queue + [Delivery(e)]);
    assert Settled(s.log) + [e] + [] == Settled(s.log) + [e];
  }

  lemma DropKeeps(s: State, e: Event)
    requires Inv(s) && InHand(s.reader) == [e]
    ensures Inv(Drop(s, e))
  {
    Snoc(s.log, Lost(e));
    assert Settled(s.log) + [e] + [] == Settled(s.log) + [e];
  }

  lemma FlushKeeps(s: State)
    requires Inv(s)
    ensures Inv(Flush(s))
  {
    Snoc(s.log, SentNotice);
    assert (s.received + s.queue) + [QueueFull] == s.received + (s.queue + [QueueFull]);
    assert Settled(s.log) + [] == Settled(s.log);
  }

  lemma TakeInHandKeeps(s: State, e: Event, r: Reader)
    requires Inv(s) && s.reader.Ready? && InHand(r) == [e] && (r.Exited? ==> s.receiverGone)
    ensures Inv(s.(dispatched := s.dispatched + [e], reader := r))
  {
    assert Settled(s.log) + [] + [e] == Settled(s.log) + [e];
  }

  lemma ReceiveKeeps(s: State)
    requires Inv(s) && s.queue != []
    ensures Inv(s.(queue := s.queue[1..], received := s.received + [s.queue[0]]))
  {
    assert s.received + s.queue == (s.received + [s.queue[0]]) + s.queue[1..];
  }

  lemma DispatchKeeps(s: State, e: Event, mayWait: bool)
    requires Inv(s) && s.reader.Ready?
    ensures Inv(Step(s, Dispatch(e, mayWait)))
  {
    FlushKeeps(s);
    if s.armed && s.receiverGone {
      TakeInHandKeeps(s, e, Exited(e));
    } else {
      TakeInHandKeeps(Flush(s), e, Flushed(e, mayWait));
    }
  }

  /** Every way of settling the event in hand. */
  lemma SettleKeeps(s: State, e: Event)
    requires Inv(s) && InHand(s.reader) == [e] && !s.reader.Exited?
    ensures Inv(Drop(s, e)) && Inv(s.(reader := Parked(e), stalls := s.stalls + 1))
    ensures HasRoom(s) ==> Inv(Enqueue(s, e))
    ensures s.receiverGone ==> Inv(s.(reader := Exited(e)))
  {
    DropKeeps(s, e);
    if HasRoom(s) {
      EnqueueKeeps(s, e);
    }
  }

  lemma ParkedKeeps(s: State, a: Action)
    requires Inv(s) && s.reader.Parked?
    requires a.PermitGranted? || a.FindReceiverGone? || a.BudgetExpires? || a.StopFires?
    ensures Inv(Step(s, a))
  {
    if a.StopFires? {
      SettleKeeps(s.(stopFired := true), s.reader.event);
    } else {
      SettleKeeps(s, s.reader.event);
    }
  }

  lemma SendKeeps(s: State)
    requires Inv(s) && s.reader.Flushed?
    ensures Inv(Step(s, TrySend))
  {
    SettleKeeps(s, s.reader.event);
  }

  lemma StepKeeps(s: State, a: Action)
    requires Inv(s)
    ensures Inv(Step(s, a))
  {
    match a
    case Dispatch(e, mayWait) => if s.reader.Ready? { DispatchKeeps(s, e, mayWait); }
    case Receive => if s.queue != [] { ReceiveKeeps(s); }
    case ReceiverDrops =>
    case TrySend => if s.reader.Flushed? { SendKeeps(s); }
    case _ => if s.reader.Parked? { ParkedKeeps(s, a); }
  }

  lemma {:induction false} RunKeeps(s: State, actions: seq<Action>)
    requires Inv(s)
    ensures Inv(Run(s, actions))
    decreases actions
  {
    if actions != [] {
      StepKeeps(s, actions[0]);
      RunKeeps(Step(s, actions[0]), actions[1..]);
    }
  }

  // ---- What holds over every run -------------------------------------------------------------------

  /** `a` is `b` with some events left out. */
  predicate Subsequence(a: seq<Event>, b: seq<Event>)
  {
    a == [] || (b != [] && (if a[|a| - 1] == b[|b| - 1] then Subsequence(a[..|a| - 1], b[..|b| - 1])
                            else Subsequence(a, b[..|b| - 1])))
  }

  /** Adding the same event to both, and to the longer one alone, unfolded. */
  lemma SubsequenceSnoc(a: seq<Event>, b: seq<Event>, x: Event)
    ensures Subsequence(a + [x], b + [x]) <==> Subsequence(a, b)
    ensures a != [] && a[|a| - 1] != x ==> (Subsequence(a, b + [x]) <==> Subsequence(a, b))
    ensures a != [] && a[|a| - 1] == x ==> (Subsequence(a, b + [x]) <==> Subsequence(a[..|a| - 1], b))
  {
    assert (b + [x])[..|b|] == b && (a + [x])[..|a|] == a;
  }

  lemma {:induction false} SubsequenceWeaken(a: seq<Event>, b: seq<Event>, x: Event)
    requires Subsequence(a, b)
    ensures Subsequence(a, b + [x]) && Subsequence(a + [x], b + [x])
    decreases |b|, 1
  {
    SubsequenceSnoc(a, b, x);
    if a != [] && a[|a| - 1] == x {
      SubsequenceDropsLast(a, b);
    }
  }

  lemma {:induction false} SubsequenceDropsLast(a: seq<Event>, b: seq<Event>)
    requires a != [] && Subsequence(a, b)
    ensures Subsequence(a[..|a| - 1], b)
    decreases |b|, 0
  {
    var b' := b[..|b| - 1];
    assert b' + [b[|b| - 1]] == b;
    if a[|a| - 1] == b[|b| - 1] {
      SubsequenceWeaken(a[..|a| - 1], b', b[|b| - 1]);
    } else {
      SubsequenceDropsLast(a, b');
      SubsequenceWeaken(a[..|a| - 1], b', b[|b| - 1]);
    }
  }

  lemma EventsSnoc(items: seq<Item>, x: Item)
    ensures Events(items + [x]) == Events(items) + (if x.QueueFull? then [] else [x.event])
  {
    assert (items + [x])[..|items|] == items;
  }

  /** Queued events are the settled ones with the lost ones left out. */
  ghost predicate QueuedFromSettled(log: seq<Entry>)
  {
    Subsequence(Events(Items(log)), Settled(log)) && |Settled(log)| == |Events(Items(log))| + LostCount(log)
  }

  lemma QueuedSnoc(log: seq<Entry>, x: Entry, all: seq<Entry>)
    requires QueuedFromSettled(log) && all == log + [x]
    ensures QueuedFromSettled(all)
  {
    Snoc(log, x);
    match x
    case Sent(e) =>
      EventsSnoc(Items(log), Delivery(e));
      SubsequenceWeaken(Events(Items(log)), Settled(log), e);
    case SentNotice =>
      EventsSnoc(Items(log), QueueFull);
      assert Settled(log) + [] == Settled(log) && Events(Items(log)) + [] == Events(Items(log));
    case Lost(e) =>
      SubsequenceWeaken(Events(Items(log)), Settled(log), e);
      assert Items(log) + [] == Items(log);
  }

  lemma {:induction false} QueuedAreSettled(log: seq<Entry>)
    ensures QueuedFromSettled(log)
    decreases |log|
  {
    if log != [] {
      var front, last := log[..|log| - 1], log[|log| - 1];
      QueuedAreSettled(front);
      QueuedSnoc(front, last, log);
    }
  }

  /** Queue accounting, over every interleaving of dispatches under either overflow policy with
      receives, timeouts, the stop signal and the receiver going away:

      - what the consumer received, then what is queued, is everything ever queued, in order;
      - its events are, in order, dispatched events;
      - every dispatched event was queued or counted as dropped, but the one in hand;
      - a notice is armed exactly when an event was lost since the last one queued, and every
        notice queued announces such a loss. */
  lemma QueueAccounting(queueSize: nat, actions: seq<Action>)
    ensures var s := Run(Init(queueSize), actions);
            var queued := s.received + s.queue;
            && |s.queue| <= s.capacity
            && queued == Items(s.log)
            && Subsequence(Events(queued), Settled(s.log))
            && s.dispatched == Settled(s.log) + InHand(s.reader)
            && |s.dispatched| == |Events(queued)| + s.dropped + |InHand(s.reader)|
            && (s.armed <==> LostSinceNotice(s.log)) && NoticesHonest(s.log)
  {
    RunKeeps(Init(queueSize), actions);
    QueuedAreSettled(Run(Init(queueSize), actions).log);
  }

  lemma RunTwo(s: State, a: Action, b: Action)
    ensures Run(s, [a, b]) == Step(Step(s, a), b)
  {
    assert [a, b][1..] == [b] && [b][1..] == [];
    assert Run(Step(s, a), [b]) == Step(Step(s, a), b);
  }

  /** No step of the run settles the event in hand. */
  predicate Unsettled(s: State, actions: seq<Action>)
    decreases actions
  {
    !s.reader.Ready? && (actions == [] || Unsettled(Step(s, actions[0]), actions[1..]))
  }

  /** Until it is settled, the event stays in hand and neither the notice nor the log moves, whatever
      the consumer does meanwhile. */
  lemma {:induction false} UnsettledWaits(s: State, actions: seq<Action>)
    requires Unsettled(s, actions)
    ensures var u := Run(s, actions);
            !u.reader.Ready? && InHand(u.reader) == InHand(s.reader) && u.armed == s.armed && u.log == s.log
    decreases actions
  {
    if actions != [] {
      UnsettledStep(s, actions[0]);
      UnsettledWaits(Step(s, actions[0]), actions[1..]);
    }
  }

  lemma UnsettledStep(s: State, a: Action)
    requires !s.reader.Ready? && !Step(s, a).reader.Ready?
    ensures var t := Step(s, a);
            InHand(t.reader) == InHand(s.reader) && t.armed == s.armed && t.log == s.log
  {
  }

  /** The step that settles it sends it, leaving the notice as it is, or loses it and arms the notice. */
  lemma SettlingStep(s: State, a: Action)
    requires !s.reader.Ready? && Step(s, a).reader.Ready?
    ensures var t, e := Step(s, a), InHand(s.reader)[0];
            (t.log == s.log + [Sent(e)] && t.armed == s.armed) || (t.log == s.log + [Lost(e)] && t.armed)
  {
  }

  /** What a dispatch does with a due notice before anything else. */
  function NoticeDue(s: State): seq<Entry>
  {
    if s.armed && HasRoom(s) then [SentNotice] else []
  }

  /** The notice's place, exactly: whatever the consumer does between the steps of a dispatch, under
      either overflow policy, the dispatch adds to the log its notice, if one was due and there was
      room when it began, and then its event. So an event sent goes out ahead of a due notice if and
      only if the queue was full at the flush. */
  lemma NoticeFirstIff(s: State, e: Event, mayWait: bool, waiting: seq<Action>, settling: Action)
    requires s.reader.Ready? && Unsettled(Step(s, Dispatch(e, mayWait)), waiting)
    requires Step(Run(Step(s, Dispatch(e, mayWait)), waiting), settling).reader.Ready?
    ensures var t := Step(Run(Step(s, Dispatch(e, mayWait)), waiting), settling);
            && (t.log == s.log + NoticeDue(s) + [Sent(e)] || t.log == s.log + NoticeDue(s) + [Lost(e)])
            && (t.log == s.log + NoticeDue(s) + [Sent(e)] ==> (t.armed <==> s.armed && !HasRoom(s)))
            && (t.log == s.log + NoticeDue(s) + [Lost(e)] ==> t.armed)
  {
    var d := Step(s, Dispatch(e, mayWait));
    UnsettledWaits(d, waiting);
    SettlingStep(Run(d, waiting), settling);
    DispatchFlushes(s, e, mayWait);
    var base := s.log + NoticeDue(s);
    assert (base + [Sent(e)])[|base|] == Sent(e) && (base + [Lost(e)])[|base|] == Lost(e);
    if d.reader.Exited? {
      ExitedStays(d, waiting + [settling]);
      RunSnoc(d, waiting, settling);
    }
  }

  lemma DispatchFlushes(s: State, e: Event, mayWait: bool)
    requires s.reader.Ready?
    ensures var d := Step(s, Dispatch(e, mayWait));
            && InHand(d.reader) == [e]
            && (!d.reader.Exited? ==> d.log == s.log + NoticeDue(s) && (d.armed <==> s.armed && !HasRoom(s)))
  {
    assert s.log + [] == s.log;
  }

  lemma {:induction false} ExitedStays(s: State, actions: seq<Action>)
    requires s.reader.Exited?
    ensures Run(s, actions).reader == s.reader
    decreases actions
  {
    if actions != [] {
      ExitedStays(Step(s, actions[0]), actions[1..]);
    }
  }

  lemma {:induction false} RunSnoc(s: State, actions: seq<Action>, a: Action)
    ensures Run(s, actions + [a]) == Step(Run(s, actions), a)
    decreases actions
  {
    if actions == [] {
      assert [] + [a] == [a] && [a][1..] == [];
    } else {
      assert (actions + [a])[0] == actions[0] && (actions + [a])[1..] == actions[1..] + [a];
      RunSnoc(Step(s, actions[0]), actions[1..], a);
    }
  }

  /** A dispatch the consumer does not interrupt sends its event if and only if there is room for it
      and for the notice due, with the receiver there; and then no notice is left due. */
  lemma UninterruptedNoticeFirst(s: State, e: Event, mayWait: bool)
    requires Inv(s) && s.reader.Ready?
    ensures var t := Run(s, [Dispatch(e, mayWait), TrySend]);
            && (t.log == s.log + NoticeDue(s) + [Sent(e)] <==>
                !s.receiverGone && |s.queue| + |NoticeDue(s)| < s.capacity)
            && (t.log == s.log + NoticeDue(s) + [Sent(e)] ==> !t.armed)
  {
    RunTwo(s, Dispatch(e, mayWait), TrySend);
    DispatchFlushes(s, e, mayWait);
    var base := s.log + NoticeDue(s);
    assert (base + [Sent(e)])[|base|] == Sent(e);
  }

  /** One it does interrupt may send the event first. */
  lemma InterruptedNoticeLate()
    ensures var s := Run(Init(1), [Dispatch(0, false), TrySend, Dispatch(1, false), TrySend]);
            var t := Run(s, [Dispatch(2, false), Receive, TrySend]);
            t.armed && t.log == [Sent(0), Lost(1), Sent(2)]
  {
    var s1 := Run(Init(1), [Dispatch(0, false), TrySend]);
    RunTwo(Init(1), Dispatch(0, false), TrySend);
    RunTwo(s1, Dispatch(1, false), TrySend);
    var all := [Dispatch(0, false), TrySend, Dispatch(1, false), TrySend];
    assert all[1..] == [TrySend, Dispatch(1, false), TrySend] && all[1..][1..] == [Dispatch(1, false), TrySend];
    var s := Run(s1, [Dispatch(1, false), TrySend]);
    assert s.queue == [Delivery(0)] && s.log == [Sent(0), Lost(1)];
    var last := [Dispatch(2, false), Receive, TrySend];
    assert last[1..] == [Receive, TrySend];
    RunTwo(Step(s, Dispatch(2, false)), Receive, TrySend);
  }
}
