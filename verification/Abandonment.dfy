/** Calls that do not run to completion: a `send_command` future dropped in mid-flight.

    Nothing in the client handles that. These results say what it can cost, and when. */
module Abandonment {
  import opened Bytes
  import opened Correlation

  /** Dropping the `send_command` future: the lock is released and nothing else is done. */
  function Abandon(s: State, c: Client): State
  {
    s.(phases := s.phases[c := Idle], writer := if s.writer == Some(c) then None else s.writer)
  }

  /** Abandoning a call keeps the invariant exactly when its waiter is not in the slot. */
  lemma AbandonKeepsIff(s: State, c: Client)
    requires Inv(s) && !PhaseOf(s, c).Idle?
    ensures Inv(Abandon(s, c)) <==> s.slot.waiting != Some(PhaseOf(s, c).cmd)
  {
    var t := Abandon(s, c);
    assert Holds(PhaseOf(s, c)) <==> s.writer == Some(c);
    if s.slot.waiting != Some(PhaseOf(s, c).cmd) {
      MoveKeepsCalls(s, t, c, Idle);
      SameHistory(s, t);
    } else {
      assert forall d: Client :: d != c && !PhaseOf(s, d).Idle? ==> PhaseOf(s, d).cmd != PhaseOf(s, c).cmd;
      assert s.writer == Some(c);
      assert !SlotOk(t);
    }
  }

  /** With nothing counted stale, the next reply answers whoever waits, whatever it answers. */
  lemma NextReplyAnswersWaiter(s: State, c: Client, w: Cmd)
    requires s.readerRunning && s.inFlight == [] && s.unanswered != []
    requires s.slot.staleReplies == 0 && s.slot.waiting == Some(w) && PhaseOf(s, c) == AwaitingReply(w)
    ensures Run(s, [ServerAnswers, ReaderRoutesReply, TakeReply(c)]).outcomes
            == s.outcomes + [(w, Response(s.unanswered[0]))]
  {
    var answered := Step(s, ServerAnswers);
    assert answered.inFlight == [s.unanswered[0]];
    RunTwo(answered, ReaderRoutesReply, TakeReply(c));
    assert [ServerAnswers, ReaderRoutesReply, TakeReply(c)][1..] == [ReaderRoutesReply, TakeReply(c)];
  }

  /** Otherwise a later call can be handed the abandoned command's reply. */
  lemma AbandonedReplyGoesAstray()
    ensures var abandoned := Abandon(Run(Init(), SendSteps(0)), 0);
            Run(Run(abandoned, SendSteps(1)), [ServerAnswers, ReaderRoutesReply, TakeReply(1)]).outcomes
            == [(1, Response(0))]
  {
    SendRuns(Init(), 0);
    var abandoned := Abandon(Sent(Init(), 0), 0);
    SendRuns(abandoned, 1);
    var s := Sent(abandoned, 1);
    assert s.unanswered[0] == 0 && s.outcomes == [];
    NextReplyAnswersWaiter(s, 1, 1);
  }

  // ---- When an abandoned call can misdeliver ---------------------------------------------------------

  /** Every response so far answers its own command. */
  ghost predicate Correlated(s: State)
  {
    forall i :: 0 <= i < |s.outcomes| && s.outcomes[i].1.Response? ==> s.outcomes[i].1.reply == s.outcomes[i].0
  }

  /** Some run from here returns a reply to the wrong command. */
  ghost predicate CanMisdeliver(s: State)
  {
    exists actions :: !Correlated(Run(s, actions))
  }

  function Cleared(s: State): State { s.(slot := s.slot.(waiting := None)) }

  /** The slot holds the waiter of `x`, whose call is gone and was never written; but for that, all is
      well. It lasts until the next command installs its own waiter, or the reader dies. */
  ghost predicate Phantom(s: State, x: Cmd)
  {
    && s.slot.waiting == Some(x) && !s.slot.readerDead
    && Inv(Cleared(s))
    && (Holder(s).Idle? || Holder(s).HoldingWriter?)
    && x < s.nextCmd
    && forall c: Client :: !PhaseOf(s, c).Idle? ==> PhaseOf(s, c).cmd != x
  }

  /** A channel no one listens to may be closed. */
  lemma CloseUnheard(s: State, x: Cmd)
    requires Inv(s) && x < s.nextCmd
    requires forall c: Client :: !PhaseOf(s, c).Idle? ==> PhaseOf(s, c).cmd != x
    ensures Inv(s.(channels := s.channels[x := Dropped]))
  {
    var t := s.(channels := s.channels[x := Dropped]);
    assert forall c: Client :: PhaseOf(t, c) == PhaseOf(s, c);
    assert Holder(t) == Holder(s) && Owed(t) == Owed(s);
    assert Holds(Holder(s)) ==> Holder(s).cmd != x;
    forall i | 0 <= i < |t.routed| ensures RoutedOk(t, t.routed[i]) {
      assert RoutedOk(s, s.routed[i]);
    }
  }

  /** Steps of a call that has not installed its waiter do not see the phantom. */
  lemma PhantomCall(s: State, c: Client, x: Cmd)
    requires Phantom(s, x) && PhaseOf(s, c).Idle?
    ensures Phantom(StepCall(s, c), x)
  {
    var t := StepCall(s, c);
    assert PhaseOf(Cleared(s), c) == PhaseOf(s, c);
    CallKeeps(Cleared(s), c);
    assert Cleared(t) == StepCall(Cleared(s), c);
    assert Holds(PhaseOf(Cleared(s), c)) <==> s.writer == Some(c);
    assert forall d: Client :: d != c ==> PhaseOf(t, d) == PhaseOf(s, d);
  }

  lemma PhantomAcquire(s: State, c: Client, x: Cmd)
    requires Phantom(s, x) && PhaseOf(s, c).AwaitingWriter? && s.writer.None?
    ensures Phantom(Step(s, AcquireWriter(c)), x)
  {
    var t := Step(s, AcquireWriter(c));
    assert PhaseOf(Cleared(s), c) == PhaseOf(s, c);
    AcquireKeeps(Cleared(s), c);
    assert Cleared(t) == Step(Cleared(s), AcquireWriter(c));
    assert forall d: Client :: d != c ==> PhaseOf(t, d) == PhaseOf(s, d);
  }

  /** Steps of the switch, of the reader before it is dead, and of disconnecting do not either. */
  lemma PhantomOthers(s: State, a: Action, x: Cmd)
    requires Phantom(s, x) && (a.ServerAnswers? || a.ReaderRoutesReply? || a.ReaderStops? || a.Disconnect?)
    ensures Phantom(Step(s, a), x)
  {
    var t := Step(s, a);
    StepKeeps(Cleared(s), a);
    PhantomOwesNothing(s, x);
    PhantomUnseen(s, a);
    assert forall d: Client :: PhaseOf(t, d) == PhaseOf(s, d);
  }

  lemma PhantomUnseen(s: State, a: Action)
    requires a.ServerAnswers? || a.ReaderRoutesReply? || a.ReaderStops? || a.Disconnect?
    requires s.inFlight != [] ==> s.slot.staleReplies > 0
    ensures var t := Step(s, a);
            && Cleared(t) == Step(Cleared(s), a)
            && t.slot.waiting == s.slot.waiting && t.slot.readerDead == s.slot.readerDead
            && t.phases == s.phases && t.writer == s.writer && t.nextCmd == s.nextCmd
  {
  }

  /** With a phantom in the slot every owed reply is a stale one. */
  lemma PhantomOwesNothing(s: State, x: Cmd)
    requires Phantom(s, x)
    ensures |s.inFlight| <= |Owed(s)| == s.slot.staleReplies
  {
    assert Owed(Cleared(s)) == Owed(s) && OwedOk(Cleared(s));
  }

  lemma PhantomInstall(s: State, c: Client, x: Cmd)
    requires Phantom(s, x)
    ensures Phantom(Step(s, Install(c)), x) || Inv(Step(s, Install(c)))
  {
    if PhaseOf(s, c).HoldingWriter? {
      assert PhaseOf(Cleared(s), c) == PhaseOf(s, c);
      InstallKeeps(Cleared(s), c);
      assert StepInstall(s, c) == StepInstall(Cleared(s), c);
    }
  }

  lemma PhantomFail(s: State, x: Cmd)
    requires Phantom(s, x) && !s.readerRunning
    ensures Inv(StepFail(s))
  {
    FailKeeps(Cleared(s));
    var t := StepFail(Cleared(s));
    assert forall c: Client :: PhaseOf(t, c) == PhaseOf(s, c);
    CloseUnheard(t, x);
    assert StepFail(s) == t.(channels := t.channels[x := Dropped]);
  }

  /** A phantom is harmless: every step keeps it so, or ends it with the invariant whole again. */
  lemma PhantomStep(s: State, a: Action, x: Cmd)
    requires Phantom(s, x)
    ensures Phantom(Step(s, a), x) || Inv(Step(s, a))
  {
    if a.Call? {
      if PhaseOf(s, a.client).Idle? {
        PhantomCall(s, a.client, x);
      }
    } else if a.AcquireWriter? {
      if PhaseOf(s, a.client).AwaitingWriter? && s.writer.None? {
        PhantomAcquire(s, a.client, x);
      }
    } else if a.ServerAnswers? || a.ReaderRoutesReply? || a.ReaderStops? || a.Disconnect? {
      PhantomOthers(s, a, x);
    } else if a.Install? {
      PhantomInstall(s, a.client, x);
    } else if a.FailPendingReply? {
      if !s.readerRunning {
        PhantomFail(s, x);
      }
    } else {
      PhantomHasNoCaller(s, a.client, x);
    }
  }

  /** No call is past installing. */
  lemma PhantomHasNoCaller(s: State, c: Client, x: Cmd)
    requires Phantom(s, x)
    ensures !Holds(PhaseOf(s, c)) || PhaseOf(s, c).HoldingWriter?
  {
    assert LockOk(Cleared(s));
    assert PhaseOf(Cleared(s), c) == PhaseOf(s, c);
    assert Holds(PhaseOf(Cleared(s), c)) <==> s.writer == Some(c);
  }

  lemma {:induction false} PhantomRun(s: State, actions: seq<Action>, x: Cmd)
    requires Phantom(s, x) || Inv(s)
    ensures Correlated(Run(s, actions))
    decreases actions
  {
    if actions == [] {
      assert HistoryOk(s) || HistoryOk(Cleared(s));
    } else {
      if Phantom(s, x) {
        PhantomStep(s, actions[0], x);
      } else {
        StepKeeps(s, actions[0]);
      }
      PhantomRun(Step(s, actions[0]), actions[1..], x);
    }
  }

  /** With the reader stopped nothing more is delivered, so what was right stays right. */
  ghost predicate Stopped(s: State)
  {
    && !s.readerRunning && Correlated(s)
    && forall x: Cmd :: x in s.channels && s.channels[x].Delivered? ==> s.channels[x].reply == x
  }

  lemma {:induction false} StoppedRun(s: State, actions: seq<Action>)
    requires Stopped(s)
    ensures Correlated(Run(s, actions))
    decreases actions
  {
    if actions != [] {
      StoppedStep(s, actions[0]);
      StoppedRun(Step(s, actions[0]), actions[1..]);
    }
  }

  lemma StoppedStep(s: State, a: Action)
    requires Stopped(s)
    ensures Stopped(Step(s, a))
  {
  }

  /** With no call open and none to come, nothing more is returned. */
  ghost predicate Over(s: State)
  {
    !s.connected && Correlated(s) && forall c: Client :: PhaseOf(s, c).Idle?
  }

  lemma {:induction false} OverRun(s: State, actions: seq<Action>)
    requires Over(s)
    ensures Correlated(Run(s, actions))
    decreases actions
  {
    if actions != [] {
      OverStep(s, actions[0]);
      OverRun(Step(s, actions[0]), actions[1..]);
    }
  }

  lemma OverStep(s: State, a: Action)
    requires Over(s)
    ensures Over(Step(s, a))
  {
    var t := Step(s, a);
    assert forall c: Client :: PhaseOf(t, c) == PhaseOf(s, c);
  }

  /** A call waiting for the free lock gets its command on the wire. */
  lemma WaitingCallSends(s: State, d: Client)
    requires PhaseOf(s, d).AwaitingWriter? && s.writer.None? && !s.slot.readerDead
    ensures var y := PhaseOf(s, d).cmd;
            var t := Run(s, [AcquireWriter(d), Install(d), WriteCompletes(d)]);
            && t.slot == s.slot.(waiting := Some(y)) && PhaseOf(t, d) == AwaitingReply(y)
            && t.inFlight == s.inFlight && t.unanswered == s.unanswered + [y]
            && t.readerRunning == s.readerRunning && t.outcomes == s.outcomes
  {
    var held := Step(s, AcquireWriter(d));
    assert [AcquireWriter(d), Install(d), WriteCompletes(d)][1..] == [Install(d), WriteCompletes(d)];
    RunTwo(held, Install(d), WriteCompletes(d));
  }

  /** From an abandoned state with the written command's waiter in the slot, a call waiting for the
      lock is handed the abandoned command's reply. */
  lemma WaitingCallMisled(s: State, d: Client, x: Cmd) returns (actions: seq<Action>)
    requires s.readerRunning && !s.slot.readerDead && s.writer.None?
    requires PhaseOf(s, d).AwaitingWriter? && PhaseOf(s, d).cmd != x
    requires s.slot.staleReplies < |Owed(s)| && Owed(s)[s.slot.staleReplies] == x
    ensures !Correlated(Run(s, actions))
  {
    var y, sending := PhaseOf(s, d).cmd, [AcquireWriter(d), Install(d), WriteCompletes(d)];
    var t := Run(s, sending);
    WaitingCallSends(s, d);
    assert Owed(t) == Owed(s) + [y];
    var rest := OwedReachesWaiter(t, d, y);
    actions := sending + rest;
    RunAppend(s, sending, rest);
    var u := Run(s, actions);
    assert u.outcomes[|s.outcomes|] == (y, Response(x));
  }

  /** Someone can still get a command on the wire once `c` is gone. */
  ghost predicate OthersCanSend(s: State, c: Client)
  {
    s.connected || exists d: Client :: d != c && PhaseOf(s, d).AwaitingWriter?
  }

  lemma MisledByAbandoned(s: State, c: Client) returns (actions: seq<Action>)
    requires Inv(s) && s.readerRunning && OnTheWire(PhaseOf(s, c)) && s.slot.waiting == Some(PhaseOf(s, c).cmd)
    requires OthersCanSend(s, c)
    ensures !Correlated(Run(Abandon(s, c), actions))
  {
    var t, x := Abandon(s, c), PhaseOf(s, c).cmd;
    assert Holds(PhaseOf(s, c)) <==> s.writer == Some(c);
    assert Owed(t) == Owed(s);
    if s.connected {
      var called := Step(t, Call(c));
      assert Owed(called) == Owed(t);
      var rest := WaitingCallMisled(called, c, x);
      actions := [Call(c)] + rest;
    } else {
      var d: Client :| d != c && PhaseOf(s, d).AwaitingWriter?;
      assert PhaseOf(t, d) == PhaseOf(s, d);
      assert PhaseOf(s, d).cmd != x;
      actions := WaitingCallMisled(t, d, x);
    }
  }

  /** Abandoned before its command was written, a call leaves a phantom. */
  lemma UnwrittenLeavesPhantom(s: State, c: Client)
    requires Inv(s) && !PhaseOf(s, c).Idle? && !OnTheWire(PhaseOf(s, c)) && s.slot.waiting == Some(PhaseOf(s, c).cmd)
    ensures Phantom(Abandon(s, c), PhaseOf(s, c).cmd)
  {
    var t, x := Abandon(s, c), PhaseOf(s, c).cmd;
    assert Holds(PhaseOf(s, c)) <==> s.writer == Some(c);
    WaiterIsHolder(s, c);
    assert forall d: Client :: d != c && !PhaseOf(s, d).Idle? ==> PhaseOf(s, d).cmd != x;
    MoveKeepsCalls(s, Cleared(t), c, Idle);
    SameHistory(s, Cleared(t));
    assert forall d: Client :: d != c ==> PhaseOf(t, d) == PhaseOf(s, d);
    assert Owed(Cleared(t)) == Owed(s);
  }

  lemma AbandonedOver(s: State, c: Client)
    requires Inv(s) && !PhaseOf(s, c).Idle? && s.slot.waiting == Some(PhaseOf(s, c).cmd) && !OthersCanSend(s, c)
    ensures Over(Abandon(s, c))
  {
    var t := Abandon(s, c);
    WaiterIsHolder(s, c);
    forall d: Client ensures PhaseOf(t, d).Idle? {
      if d != c {
        assert PhaseOf(t, d) == PhaseOf(s, d);
        assert Holds(PhaseOf(s, d)) <==> s.writer == Some(d);
      }
    }
  }

  /** Dropping a call in mid-flight can make a later response answer the wrong command if and only if
      its command is written, its waiter still waits, the reader still reads, and another command can
      still be sent. In every other case every response of every later run is right. */
  lemma AbandonMisdeliversIff(s: State, c: Client)
    requires Inv(s) && !PhaseOf(s, c).Idle?
    ensures CanMisdeliver(Abandon(s, c)) <==>
              && s.slot.waiting == Some(PhaseOf(s, c).cmd) && OnTheWire(PhaseOf(s, c))
              && s.readerRunning && OthersCanSend(s, c)
  {
    var t, x := Abandon(s, c), PhaseOf(s, c).cmd;
    if s.slot.waiting == Some(x) && OnTheWire(PhaseOf(s, c)) && s.readerRunning && OthersCanSend(s, c) {
      var actions := MisledByAbandoned(s, c);
    } else {
      forall actions ensures Correlated(Run(t, actions)) {
        AbandonHarmless(s, c, actions);
      }
    }
  }

  lemma AbandonHarmless(s: State, c: Client, actions: seq<Action>)
    requires Inv(s) && !PhaseOf(s, c).Idle?
    requires !(s.slot.waiting == Some(PhaseOf(s, c).cmd) && OnTheWire(PhaseOf(s, c)) && s.readerRunning && OthersCanSend(s, c))
    ensures Correlated(Run(Abandon(s, c), actions))
  {
    var t, x := Abandon(s, c), PhaseOf(s, c).cmd;
    if s.slot.waiting != Some(x) {
      AbandonKeepsIff(s, c);
      PhantomRun(t, actions, x);
    } else if !OnTheWire(PhaseOf(s, c)) {
      UnwrittenLeavesPhantom(s, c);
      PhantomRun(t, actions, x);
    } else if !s.readerRunning {
      StoppedRun(t, actions);
    } else {
      AbandonedOver(s, c);
      OverRun(t, actions);
    }
  }
}
