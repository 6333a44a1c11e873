/** How each call goes: what every way of returning does to the slot, the lock and the wire, and that
    every call returns once. */
module Lifecycle {
  import opened Bytes
  import opened Correlation

  /** Nothing of the connection moved but what the call itself has to report. */
  predicate SameConnection(s: State, t: State)
  {
    && t.slot == s.slot && t.unanswered == s.unanswered && t.inFlight == s.inFlight && t.written == s.written
    && t.routed == s.routed && t.channels == s.channels && t.readerRunning == s.readerRunning
  }

  /** On a connection known to be down, a call returns at once and touches nothing. */
  lemma DisconnectedRefuses(s: State, c: Client)
    requires PhaseOf(s, c).Idle? && !s.connected
    ensures var t := Step(s, Call(c));
            && t.outcomes == s.outcomes + [(s.nextCmd, NotConnected)] && t.nextCmd == s.nextCmd + 1
            && SameConnection(s, t) && t.phases == s.phases && t.writer == s.writer && !t.connected
  {
  }

  /** Disconnecting only makes it known to be down. */
  lemma DisconnectMarks(s: State)
    ensures var t := Step(s, Disconnect);
            && !t.connected && SameConnection(s, t) && t.phases == s.phases && t.writer == s.writer
            && t.outcomes == s.outcomes && t.nextCmd == s.nextCmd
  {
  }

  /** No one gets the lock while someone holds it. */
  lemma LockExcludes(s: State, c: Client)
    requires s.writer.Some?
    ensures Step(s, AcquireWriter(c)) == s
  {
  }

  /** A write that fails returns its error, takes the waiter out of the slot and leaves the stale count
      and the wire as they were, with the lock free. */
  lemma WriteFailureReturns(s: State, c: Client)
    requires Inv(s) && PhaseOf(s, c).Installed?
    ensures var t := Run(s, [WriteFails(c), ClearAfterWriteFailure(c)]);
            && t.outcomes == s.outcomes + [(PhaseOf(s, c).cmd, IoError)]
            && t.slot == s.slot.(waiting := None) && t.writer.None? && PhaseOf(t, c).Idle?
            && t.written == s.written && t.unanswered == s.unanswered && t.inFlight == s.inFlight
  {
    RunTwo(s, WriteFails(c), ClearAfterWriteFailure(c));
  }

  /** A timeout returns as one; with the waiter still in the slot the reply is still to come and is
      counted stale, and otherwise nothing is. */
  lemma TimeoutReturns(s: State, c: Client)
    requires Inv(s) && PhaseOf(s, c).AwaitingReply?
    ensures var t := Run(s, [TimerFires(c), SettleTimeout(c)]);
            && t.outcomes == s.outcomes + [(PhaseOf(s, c).cmd, Timeout)] && t.writer.None? && PhaseOf(t, c).Idle?
            && t.slot.waiting.None? && t.slot.readerDead == s.slot.readerDead
            && t.slot.staleReplies == s.slot.staleReplies + (if s.slot.waiting.Some? then 1 else 0)
            && t.written == s.written && t.unanswered == s.unanswered && t.inFlight == s.inFlight
  {
    RunTwo(s, TimerFires(c), SettleTimeout(c));
  }

  /** With the reader running and its waiter in the slot, a call can get its own reply, however many
      stale ones are ahead of it. */
  lemma ReplyReturns(s: State, c: Client) returns (actions: seq<Action>)
    requires Inv(s) && s.readerRunning && PhaseOf(s, c).AwaitingReply? && s.slot.waiting == Some(PhaseOf(s, c).cmd)
    ensures Run(s, actions).outcomes == s.outcomes + [(PhaseOf(s, c).cmd, Response(PhaseOf(s, c).cmd))]
  {
    var x := PhaseOf(s, c).cmd;
    WaiterIsHolder(s, c);
    actions := OwedReachesWaiter(s, c, x);
  }

  /** From a free connection, a call can be made, sent, answered and returned. */
  lemma CallSucceeds(s: State, c: Client) returns (actions: seq<Action>)
    requires Inv(s) && s.connected && s.readerRunning && s.writer.None? && PhaseOf(s, c).Idle?
    ensures Run(s, actions).outcomes == s.outcomes + [(s.nextCmd, Response(s.nextCmd))]
  {
    SendRuns(s, c);
    RunKeeps(s, SendSteps(c));
    var t := Run(s, SendSteps(c));
    var rest := ReplyReturns(t, c);
    actions := SendSteps(c) + rest;
    RunAppend(s, SendSteps(c), rest);
  }

  /** When the reader exits, it publishes the disconnect or not, drops the waiter there is, empties the
      slot and marks it dead; calls and wire are as they were. */
  lemma ReaderExits(s: State, publishes: bool)
    requires s.readerRunning
    ensures var t := Run(s, [ReaderStops(publishes), FailPendingReply]);
            && t.slot == Slot(None, 0, true) && !t.readerRunning && t.connected == (s.connected && !publishes)
            && (s.slot.waiting.Some? ==> ChannelOf(t, s.slot.waiting.value).Dropped?)
            && (forall x: Cmd :: s.slot.waiting != Some(x) ==> ChannelOf(t, x) == ChannelOf(s, x))
            && t.phases == s.phases && t.writer == s.writer && t.outcomes == s.outcomes
            && t.unanswered == s.unanswered && t.inFlight == s.inFlight && t.written == s.written
  {
    RunTwo(s, ReaderStops(publishes), FailPendingReply);
  }

  // ---- Once each ---------------------------------------------------------------------------------------

  /** Outcomes belong to commands issued, one each, whose calls are over. */
  ghost predicate OutcomesOk(s: State)
  {
    && (forall i :: 0 <= i < |s.outcomes| ==> s.outcomes[i].0 < s.nextCmd)
    && (forall i, j :: 0 <= i < j < |s.outcomes| ==> s.outcomes[i].0 != s.outcomes[j].0)
    && (forall c: Client, i :: 0 <= i < |s.outcomes| && !PhaseOf(s, c).Idle? ==> s.outcomes[i].0 != PhaseOf(s, c).cmd)
  }

  /** A step that makes no call return, or one return. */
  lemma KeepsOutcomes(s: State, t: State)
    requires OutcomesOk(s) && t.outcomes == s.outcomes && s.nextCmd <= t.nextCmd
    requires forall c: Client :: !PhaseOf(t, c).Idle? ==>
               PhaseOf(t, c).cmd == s.nextCmd || (!PhaseOf(s, c).Idle? && PhaseOf(t, c).cmd == PhaseOf(s, c).cmd)
    ensures OutcomesOk(t)
  {
  }

  lemma AddsOutcome(s: State, t: State, c: Client, o: Outcome)
    requires OutcomesOk(s) && NumbersOk(s) && !PhaseOf(s, c).Idle? && t.nextCmd == s.nextCmd
    requires t.phases == s.phases[c := Idle] && t.outcomes == s.outcomes + [(PhaseOf(s, c).cmd, o)]
    ensures OutcomesOk(t)
  {
    assert forall d: Client :: d != c ==> PhaseOf(t, d) == PhaseOf(s, d);
    assert PhaseOf(t, c).Idle?;
  }

  lemma CallOutcome(s: State, c: Client)
    requires OutcomesOk(s) && NumbersOk(s) && PhaseOf(s, c).Idle?
    ensures OutcomesOk(StepCall(s, c))
  {
    var t := StepCall(s, c);
    assert forall d: Client :: d != c ==> PhaseOf(t, d) == PhaseOf(s, d);
    if s.connected {
      KeepsOutcomes(s, t);
    }
  }

  /** Every step but a new call makes no call return, or exactly the one that takes it. */
  lemma StepReturns(s: State, a: Action)
    requires !a.Call?
    ensures var t := Step(s, a);
            && t.nextCmd == s.nextCmd
            && (t.outcomes != s.outcomes ==>
                  && (a.Install? || a.ClearAfterWriteFailure? || a.TakeReply? || a.SeeDropped? || a.SettleTimeout?)
                  && !PhaseOf(s, a.client).Idle? && t.phases == s.phases[a.client := Idle]
                  && |t.outcomes| == |s.outcomes| + 1 && t.outcomes[..|s.outcomes|] == s.outcomes
                  && t.outcomes[|s.outcomes|].0 == PhaseOf(s, a.client).cmd)
  {
  }

  lemma StepNumbers(s: State, a: Action, c: Client)
    requires !a.Call? && !PhaseOf(Step(s, a), c).Idle?
    ensures !PhaseOf(s, c).Idle? && PhaseOf(Step(s, a), c).cmd == PhaseOf(s, c).cmd
  {
  }

  lemma StepOutcomes(s: State, a: Action)
    requires OutcomesOk(s) && NumbersOk(s)
    ensures OutcomesOk(Step(s, a))
  {
    var t := Step(s, a);
    if a.Call? {
      if PhaseOf(s, a.client).Idle? {
        CallOutcome(s, a.client);
      }
    } else {
      StepReturns(s, a);
      if t.outcomes == s.outcomes {
        forall c: Client | !PhaseOf(t, c).Idle?
          ensures !PhaseOf(s, c).Idle? && PhaseOf(t, c).cmd == PhaseOf(s, c).cmd
        {
          StepNumbers(s, a, c);
        }
        KeepsOutcomes(s, t);
      } else {
        AddsOutcome(s, t, a.client, t.outcomes[|s.outcomes|].1);
      }
    }
  }

  lemma {:induction false} RunOutcomes(s: State, actions: seq<Action>)
    requires Inv(s) && OutcomesOk(s)
    ensures OutcomesOk(Run(s, actions))
    decreases actions
  {
    if actions != [] {
      StepKeeps(s, actions[0]);
      StepOutcomes(s, actions[0]);
      RunOutcomes(Step(s, actions[0]), actions[1..]);
    }
  }

  /** In every run no command returns twice, and none returns while its call is still open. */
  lemma ReturnsOnce(actions: seq<Action>)
    ensures OutcomesOk(Run(Init(), actions))
  {
    RunOutcomes(Init(), actions);
  }
}
