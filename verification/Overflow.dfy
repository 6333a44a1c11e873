/** When the event queue loses an event, and when it may not, over every run. */
module Overflow {
  import opened Bytes
  import opened EventQueue

  /** The reader holds `e` and the application is there to take it. */
  predicate Holding(s: State, e: Event)
  {
    !s.receiverGone && InHand(s.reader) == [e] && !s.reader.Exited?
  }

  /** Why an entry may be logged by taking step `a` in state `s`:

      - an event is sent only into room, by the first attempt, by a granted permit or by the last
        attempt when the stop signal ends the wait;
      - it is lost only because the queue was full and it would not wait, because the budget of its
        wait ran out, or because the stop signal found no free place;
      - a notice is sent only at the head of a dispatch, when due, into room. */
  ghost predicate Because(s: State, a: Action, x: Entry)
  {
    match x
    case Sent(e) =>
      && Holding(s, e) && |s.queue| < s.capacity
      && (match a
          case TrySend => s.reader.Flushed?
          case PermitGranted => s.reader.Parked?
          case StopFires(permitHeld) => s.reader.Parked? && !permitHeld
          case _ => false)
    case Lost(e) =>
      && InHand(s.reader) == [e]
      && (match a
          case TrySend => s.reader == Flushed(e, false) && |s.queue| >= s.capacity && !s.receiverGone
          case BudgetExpires => s.reader.Parked?
          case StopFires(permitHeld) => s.reader.Parked? && !s.receiverGone && (permitHeld || |s.queue| >= s.capacity)
          case _ => false)
    case SentNotice => a.Dispatch? && s.reader.Ready? && s.armed && |s.queue| < s.capacity && !s.receiverGone
  }

  lemma StepBecause(s: State, a: Action)
    ensures Step(s, a).log == s.log
            || exists x :: Step(s, a).log == s.log + [x] && Because(s, a, x)
  {
    var t := Step(s, a);
    if t.log != s.log {
      var x := t.log[|s.log|];
      assert t.log == s.log + [x];
      assert Because(s, a, x);
    }
  }

  /** Every entry of every run has its cause: some step of the run logged it, from a state with exactly
      the earlier entries in its log. */
  lemma {:induction false} EveryEntryCaused(s: State, actions: seq<Action>, i: nat) returns (k: nat)
    requires |s.log| <= i < |Run(s, actions).log|
    ensures k < |actions|
    ensures var before := Run(s, actions[..k]);
            before.log == Run(s, actions).log[..i] && Because(before, actions[k], Run(s, actions).log[i])
    decreases actions
  {
    var t := Step(s, actions[0]);
    StepBecause(s, actions[0]);
    LogGrows(t, actions[1..]);
    if i == |s.log| && t.log != s.log {
      k := 0;
      assert actions[..0] == [];
      assert Run(s, actions).log[..i] == s.log;
    } else {
      k := EveryEntryCaused(t, actions[1..], i);
      assert actions[..k + 1][0] == actions[0] && actions[..k + 1][1..] == actions[1..][..k];
      k := k + 1;
    }
  }

  lemma {:induction false} LogGrows(s: State, actions: seq<Action>)
    ensures s.log <= Run(s, actions).log
    decreases actions
  {
    if actions != [] {
      StepBecause(s, actions[0]);
      LogGrows(Step(s, actions[0]), actions[1..]);
    }
  }

  // ---- What each policy promises -------------------------------------------------------------------------

  /** With room and the application there, the event in hand goes out: at once, or as soon as its
      permit is granted; the queue gets it last and nothing is counted lost. */
  lemma RoomSends(s: State, e: Event, a: Action)
    requires Holding(s, e) && |s.queue| < s.capacity
    requires (s.reader.Flushed? && a == TrySend) || (s.reader.Parked? && (a == PermitGranted || a == StopFires(false)))
    ensures var t := Step(s, a);
            && t.queue == s.queue + [Delivery(e)] && t.log == s.log + [Sent(e)] && t.reader.Ready?
            && t.dropped == s.dropped && t.armed == s.armed && t.stalls == s.stalls
  {
  }

  /** With a full queue, an event that may wait parks, which counts as a stall, and is not lost; one that
      may not is lost, counted, and a notice armed. Either way the queue is untouched. */
  lemma FullQueueParksOrDrops(s: State, e: Event, mayWait: bool)
    requires s.reader == Flushed(e, mayWait) && !s.receiverGone && |s.queue| >= s.capacity
    ensures var t := Step(s, TrySend);
            && t.queue == s.queue
            && (mayWait ==> t.reader == Parked(e) && t.stalls == s.stalls + 1 && t.log == s.log && t.dropped == s.dropped)
            && (!mayWait ==> t.reader.Ready? && t.stalls == s.stalls && t.log == s.log + [Lost(e)] && t.dropped == s.dropped + 1 && t.armed)
  {
  }

  /** A wait whose budget runs out loses its event, counts it and arms the notice. */
  lemma BudgetRunsOut(s: State, e: Event)
    requires s.reader == Parked(e)
    ensures var t := Step(s, BudgetExpires);
            t.reader.Ready? && t.log == s.log + [Lost(e)] && t.dropped == s.dropped + 1 && t.armed && t.queue == s.queue
  {
  }

  /** The stop signal ends the wait whatever it finds: its event is sent or lost, and the reader told. */
  lemma StopEndsWait(s: State, e: Event, permitHeld: bool)
    requires s.reader == Parked(e) && !s.receiverGone
    ensures var t := Step(s, StopFires(permitHeld));
            && t.reader.Ready? && t.stopFired
            && t.log == s.log + [if |s.queue| < s.capacity && !permitHeld then Sent(e) else Lost(e)]
  {
  }

  /** The queue holds what it was asked to, and at least one item, throughout. */
  lemma {:induction false} CapacityStays(s: State, actions: seq<Action>)
    ensures Run(s, actions).capacity == s.capacity
    decreases actions
  {
    if actions != [] {
      CapacityStays(Step(s, actions[0]), actions[1..]);
    }
  }

  lemma QueueSizeHonoured(queueSize: nat, actions: seq<Action>)
    ensures Run(Init(queueSize), actions).capacity >= 1
    ensures queueSize >= 1 ==> Run(Init(queueSize), actions).capacity == queueSize
    ensures queueSize == 0 ==> Run(Init(queueSize), actions).capacity == 1
  {
    CapacityStays(Init(queueSize), actions);
  }

  /** Once the application has dropped its stream, the next attempt on the event in hand ends the
      reader, with nothing sent and nothing counted. */
  lemma GoneReceiverEnds(s: State, a: Action)
    requires (s.reader.Flushed? && a == TrySend) || (s.reader.Parked? && (a == FindReceiverGone || a.StopFires?))
    ensures var t := Step(Step(s, ReceiverDrops), a);
            t.reader.Exited? && InHand(t.reader) == InHand(s.reader) && t.log == s.log && t.queue == s.queue && t.dropped == s.dropped
  {
  }

  /** The waiting policy, as long as no wait runs out of budget and no stop signal comes. */
  predicate InTime(a: Action)
  {
    !a.BudgetExpires? && !a.StopFires? && (a.Dispatch? ==> a.mayWait)
  }

  lemma InTimeStep(s: State, a: Action)
    requires InTime(a) && (s.reader.Flushed? ==> s.reader.mayWait)
    ensures var t := Step(s, a);
            && t.dropped == s.dropped && (t.armed ==> s.armed) && (t.reader.Flushed? ==> t.reader.mayWait)
            && forall i :: |s.log| <= i < |t.log| ==> !t.log[i].Lost?
  {
    StepBecause(s, a);
  }

  /** Waiting loses nothing: in every such run, no event is ever lost and no notice ever due. */
  lemma {:induction false} WaitingLosesNothing(s: State, actions: seq<Action>)
    requires forall i :: 0 <= i < |actions| ==> InTime(actions[i])
    requires s.reader.Flushed? ==> s.reader.mayWait
    ensures var t := Run(s, actions);
            && t.dropped == s.dropped && (t.armed ==> s.armed)
            && forall i :: |s.log| <= i < |t.log| ==> !t.log[i].Lost?
    decreases actions
  {
    if actions != [] {
      var t := Step(s, actions[0]);
      InTimeStep(s, actions[0]);
      LogGrows(t, actions[1..]);
      WaitingLosesNothing(t, actions[1..]);
      forall i | |s.log| <= i < |Run(s, actions).log| ensures !Run(s, actions).log[i].Lost? {
        if i < |t.log| {
          assert Run(s, actions).log[i] == t.log[i];
        }
      }
    }
  }

  /** So, from a new connection, everything dispatched but the event in hand is queued, in order. */
  lemma WaitingDeliversAll(queueSize: nat, actions: seq<Action>)
    requires forall i :: 0 <= i < |actions| ==> InTime(actions[i])
    ensures var s := Run(Init(queueSize), actions);
            s.dispatched == Events(s.received + s.queue) + InHand(s.reader)
  {
    var s := Run(Init(queueSize), actions);
    WaitingLosesNothing(Init(queueSize), actions);
    RunKeeps(Init(queueSize), actions);
    NothingLostIsEverything(s.log);
  }

  lemma {:induction false} NothingLostIsEverything(log: seq<Entry>)
    requires forall i :: 0 <= i < |log| ==> !log[i].Lost?
    ensures Events(Items(log)) == Settled(log)
    decreases |log|
  {
    if log != [] {
      var front, last := log[..|log| - 1], log[|log| - 1];
      NothingLostIsEverything(front);
      EventsSnoc(Items(front), ItemOf(last)[0]);
    }
  }

  /** The dropping policy never parks the reader: in every run without waiting, no stall is counted. */
  lemma {:induction false} DroppingNeverStalls(s: State, actions: seq<Action>)
    requires forall i :: 0 <= i < |actions| && actions[i].Dispatch? ==> !actions[i].mayWait
    requires !s.reader.Parked? && (s.reader.Flushed? ==> !s.reader.mayWait)
    ensures var t := Run(s, actions);
            t.stalls == s.stalls && !t.reader.Parked?
    decreases actions
  {
    if actions != [] {
      DroppingNeverStalls(Step(s, actions[0]), actions[1..]);
    }
  }
}
