/** Once the reader is dead, the open calls return under every schedule. */
module Schedules {
  import opened Bytes
  import opened Correlation

  /** How far a call is from returning. */
  function Rank(p: Phase): nat
  {
    match p
    case Idle => 0
    case AwaitingWriter(_) => 5
    case HoldingWriter(_) => 4
    case Installed(_) => 3
    case AwaitingReply(_) => 2
    case WriteFailed(_) => 1
    case TimedOut(_) => 1
  }

  /** How far all calls are, together. */
  function TotalOver(phases: map<Client, Phase>, clients: set<Client>): nat
    requires clients <= phases.Keys
  {
    if clients == {} then 0
    else
      var c := Least(clients);
      Rank(phases[c]) + TotalOver(phases, clients - {c})
  }

  function Total(s: State): nat { TotalOver(s.phases, s.phases.Keys) }

  function Least(clients: set<Client>): (c: Client)
    requires clients != {}
    ensures c in clients && forall d :: d in clients ==> c <= d
  {
    LeastExists(clients);
    var c: Client :| c in clients && forall d :: d in clients ==> c <= d;
    c
  }

  lemma {:induction false} LeastExists(clients: set<Client>)
    requires clients != {}
    ensures exists c :: c in clients && forall d :: d in clients ==> c <= d
  {
    var c :| c in clients;
    var rest := clients - {c};
    assert clients == {c} + rest;
    if rest != {} {
      LeastExists(rest);
      var m :| m in rest && forall d :: d in rest ==> m <= d;
      var least := if c <= m then c else m;
      assert least in clients && forall d :: d in clients ==> least <= d;
    } else {
      assert clients == {c};
    }
  }

  /** Moving one client changes the total by what its own rank changes. */
  lemma {:induction false} TotalMoves(phases: map<Client, Phase>, clients: set<Client>, c: Client, p: Phase)
    requires clients <= phases.Keys
    ensures var moved := phases[c := p];
            if c in clients then TotalOver(moved, clients) + Rank(phases[c]) == TotalOver(phases, clients) + Rank(p)
            else TotalOver(moved, clients) == TotalOver(phases, clients)
    decreases clients
  {
    if clients != {} {
      var least := Least(clients);
      TotalMoves(phases, clients - {least}, c, p);
    }
  }

  /** A step a client takes inside a call. */
  predicate OwnStep(a: Action)
  {
    a.AcquireWriter? || a.Install? || a.WriteCompletes? || a.WriteFails? || a.ClearAfterWriteFailure?
    || a.TakeReply? || a.SeeDropped? || a.TimerFires? || a.SettleTimeout?
  }

  /** With the reader dead, every step inside a call that does anything brings the calls together
      nearer to returning. */
  lemma OwnStepLowers(s: State, a: Action)
    requires s.slot.readerDead && OwnStep(a)
    ensures Step(s, a) == s || Total(Step(s, a)) < Total(s)
  {
    var t, c := Step(s, a), a.client;
    if t != s {
      assert c in s.phases;
      assert t.phases == s.phases[c := t.phases[c]] && t.phases.Keys == s.phases.Keys;
      TotalMoves(s.phases, s.phases.Keys, c, t.phases[c]);
    }
  }

  /** Steps of the switch and the reader leave the calls where they are. */
  lemma OtherStepKeeps(s: State, a: Action)
    requires !OwnStep(a) && !a.Call?
    ensures Total(Step(s, a)) == Total(s)
  {
  }

  /** The steps of a run, inside calls, that did something. */
  function Moves(s: State, actions: seq<Action>): nat
    decreases actions
  {
    if actions == [] then 0
    else (if OwnStep(actions[0]) && Step(s, actions[0]) != s then 1 else 0) + Moves(Step(s, actions[0]), actions[1..])
  }

  /** While a call is open, with the reader dead, some call can take a step. */
  lemma SomeoneCanMove(s: State) returns (a: Action)
    requires Inv(s) && s.slot.readerDead && Active(s) != {}
    ensures OwnStep(a) && Step(s, a) != s
  {
    PickNext(s);
    var c: Client :| c in Active(s) && (s.writer.Some? ==> s.writer == Some(c));
    a := Finish(s, c)[0];
    var t := Step(s, a);
    assert Holds(PhaseOf(s, c)) <==> s.writer == Some(c);
    assert PhaseOf(t, c) != PhaseOf(s, c);
  }

  /** Between `s` and `t` calls only returned, once each, with an error or with a reply that had been
      delivered to them before. */
  ghost predicate OnlyReturned(s: State, t: State)
  {
    && t.channels == s.channels && s.outcomes <= t.outcomes && Active(t) <= Active(s)
    && |t.outcomes| + |Active(t)| == |s.outcomes| + |Active(s)|
    && forall i :: |s.outcomes| <= i < |t.outcomes| && t.outcomes[i].1.Response? ==>
         ChannelOf(s, t.outcomes[i].0) == Delivered(t.outcomes[i].0)
  }

  /** A call that returns, as a step of the whole. */
  lemma ReturnIsReturn(s: State, c: Client, o: Outcome, t: State)
    requires c in Active(s) && t.phases == s.phases[c := Idle] && t.channels == s.channels
    requires t.outcomes == s.outcomes + [(PhaseOf(s, c).cmd, o)]
    requires o.Response? ==> ChannelOf(s, PhaseOf(s, c).cmd) == Delivered(PhaseOf(s, c).cmd)
    ensures OnlyReturned(s, t)
  {
    assert Active(t) == Active(s) - {c};
  }

  /** A call that moves on. */
  lemma MoveIsNoReturn(s: State, c: Client, p: Phase, t: State)
    requires c in Active(s) && !p.Idle? && t.phases == s.phases[c := p]
    requires t.channels == s.channels && t.outcomes == s.outcomes
    ensures OnlyReturned(s, t)
  {
    assert Active(t) == Active(s);
  }

  /** With the reader dead, every step but a new call keeps to that. */
  lemma DeadStepReturns(s: State, a: Action)
    requires Inv(s) && s.slot.readerDead && !a.Call?
    ensures OnlyReturned(s, Step(s, a))
  {
    var t := Step(s, a);
    if OwnStep(a) && t != s {
      var c := a.client;
      var p := PhaseOf(s, c);
      assert c in Active(s);
      if t.phases[c].Idle? {
        ReturnIsReturn(s, c, t.outcomes[|s.outcomes|].1, t);
      } else {
        MoveIsNoReturn(s, c, t.phases[c], t);
      }
    } else {
      assert t.phases == s.phases;
    }
  }

  lemma OnlyReturnedThrough(s: State, t: State, u: State)
    requires OnlyReturned(s, t) && OnlyReturned(t, u)
    ensures OnlyReturned(s, u)
  {
    forall i | |s.outcomes| <= i < |u.outcomes| && u.outcomes[i].1.Response?
      ensures ChannelOf(s, u.outcomes[i].0) == Delivered(u.outcomes[i].0)
    {
      if i < |t.outcomes| {
        assert u.outcomes[i] == t.outcomes[i];
      }
    }
  }

  /** Every schedule returns: with the reader dead and no new call, a run of any steps in any order
      has at most `Total` steps that do anything inside a call; calls only return, once each, with an
      error or a reply delivered before; and wherever the run stops, either no call is open or one
      can still move. */
  lemma {:induction false} EveryScheduleReturns(s: State, actions: seq<Action>)
    requires Inv(s) && s.slot.readerDead
    requires forall i :: 0 <= i < |actions| ==> !actions[i].Call?
    ensures var t := Run(s, actions);
            && Moves(s, actions) + Total(t) <= Total(s)
            && OnlyReturned(s, t)
            && (Active(t) != {} ==> exists a :: OwnStep(a) && Step(t, a) != t)
    decreases actions
  {
    if actions == [] {
      if Active(s) != {} {
        var a := SomeoneCanMove(s);
      }
    } else {
      var a, t := actions[0], Step(s, actions[0]);
      StepKeeps(s, a);
      DeadStep(s, a);
      StepNearer(s, a);
      DeadStepReturns(s, a);
      EveryScheduleReturns(t, actions[1..]);
      OnlyReturnedThrough(s, t, Run(s, actions));
    }
  }

  lemma StepNearer(s: State, a: Action)
    requires s.slot.readerDead && !a.Call?
    ensures Total(Step(s, a)) <= Total(s)
    ensures OwnStep(a) && Step(s, a) != s ==> Total(Step(s, a)) < Total(s)
  {
    if OwnStep(a) {
      OwnStepLowers(s, a);
    } else {
      OtherStepKeeps(s, a);
    }
  }

  /** So some schedule lets everyone return. */
  lemma {:induction false} EveryoneReturns(s: State) returns (actions: seq<Action>)
    requires Inv(s) && s.slot.readerDead
    ensures forall i :: 0 <= i < |actions| ==> !actions[i].Call?
    ensures Active(Run(s, actions)) == {} && OnlyReturned(s, Run(s, actions))
    decreases Total(s)
  {
    actions := [];
    if Active(s) != {} {
      var a := SomeoneCanMove(s);
      var t := Step(s, a);
      OwnStepLowers(s, a);
      StepKeeps(s, a);
      DeadStep(s, a);
      DeadStepReturns(s, a);
      var rest := EveryoneReturns(t);
      actions := [a] + rest;
      assert actions[1..] == rest;
      OnlyReturnedThrough(s, t, Run(s, actions));
    }
  }
}
