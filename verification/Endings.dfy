/** Which messages end the reader, and which it goes on past, over whole runs. */
module Endings {
  import opened Bytes
  import opened HeaderBlock
  import opened Framer
  import opened ReaderLoop

  /** The `k`-th entry of a lawful run dispatched `m`, and `met` this. */
  ghost predicate DispatchedAt(g: Grammar, start: Framer.Parser, dispatches: nat -> Dispatch, r: Report, p: Framer.Parser,
                               k: nat, m: Message, met: Dispatch)
  {
    start.Valid() && Lawful(g, start, dispatches, r, p) && k < |r.log| && r.log[k] == Dispatched(m, met)
  }

  /** Asks to keep the connection until the switch is done with it. */
  predicate Lingering(m: Message)
  {
    m.messageType == Disconnect && Get(m.headers, "Content-Disposition") == Some("linger")
  }

  /** The run goes on past `k`, or stops there for a reason that is not the message: the parser cannot
      go on, the drain is over, or there is nothing more to observe. */
  ghost predicate GoesOn(g: Grammar, start: Framer.Parser, r: Report, p: Framer.Parser, k: nat)
    requires start.Valid()
  {
    k + 1 < |r.log| || (!CalledFor(r.exit) && ParserExit(g, start, r.exit, r.log, p))
  }

  /** The run ends at `k`, with this exit. */
  predicate EndsAt(r: Report, k: nat, exit: Exit)
  {
    k + 1 == |r.log| && r.exit == exit
  }

  /** The entry at `k` is the last of the log up to it. */
  lemma UpTo(r: Report, k: nat)
    requires k < |r.log|
    ensures var upTo := r.log[..k + 1];
            upTo != [] && ReaderLoop.Front(upTo) == r.log[..k] && Last(upTo) == r.log[k]
    ensures k + 1 == |r.log| ==> r.log[..k + 1] == r.log
  {
  }

  lemma NothingFollows(g: Grammar, start: Framer.Parser, dispatches: nat -> Dispatch, r: Report, p: Framer.Parser, k: nat)
    requires start.Valid() && Lawful(g, start, dispatches, r, p) && k < |r.log| && ExitOf(r.log[..k + 1]).Some?
    ensures EndsAt(r, k, ExitOf(r.log[..k + 1]).value)
  {
    UpTo(r, k);
    if k + 1 < |r.log| {
      ProperAt(g, start, dispatches, r.log, k + 1);
    }
  }

  lemma SomethingFollows(g: Grammar, start: Framer.Parser, dispatches: nat -> Dispatch, r: Report, p: Framer.Parser, k: nat)
    requires start.Valid() && Lawful(g, start, dispatches, r, p) && k < |r.log| && ExitOf(r.log[..k + 1]).None?
    ensures GoesOn(g, start, r, p, k)
  {
    UpTo(r, k);
  }

  /** Replies, events the application still takes, and lingering notices never end the run. */
  lemma GoesOnPast(g: Grammar, start: Framer.Parser, dispatches: nat -> Dispatch, r: Report, p: Framer.Parser, k: nat, m: Message, met: Dispatch)
    requires DispatchedAt(g, start, dispatches, r, p, k, m, met)
    requires m.messageType == CommandReply || m.messageType == ApiResponse
             || (m.messageType == Event && !met.receiverGone) || Lingering(m)
    ensures GoesOn(g, start, r, p, k)
  {
    UpTo(r, k);
    SomethingFollows(g, start, dispatches, r, p, k);
  }

  /** A disconnect notice that does not linger is the last thing dispatched. */
  lemma NoticeEnds(g: Grammar, start: Framer.Parser, dispatches: nat -> Dispatch, r: Report, p: Framer.Parser, k: nat, m: Message, met: Dispatch)
    requires DispatchedAt(g, start, dispatches, r, p, k, m, met) && m.messageType == Disconnect && !Lingering(m)
    ensures EndsAt(r, k, ServerNotice)
  {
    UpTo(r, k);
    NothingFollows(g, start, dispatches, r, p, k);
  }

  /** So is a rejection. */
  lemma RejectionEnds(g: Grammar, start: Framer.Parser, dispatches: nat -> Dispatch, r: Report, p: Framer.Parser, k: nat, m: Message, met: Dispatch)
    requires DispatchedAt(g, start, dispatches, r, p, k, m, met) && m.messageType == RudeRejection
    ensures EndsAt(r, k, AccessDenied)
  {
    UpTo(r, k);
    NothingFollows(g, start, dispatches, r, p, k);
  }

  /** So is a challenge to authenticate again. */
  lemma ChallengeEnds(g: Grammar, start: Framer.Parser, dispatches: nat -> Dispatch, r: Report, p: Framer.Parser, k: nat, m: Message, met: Dispatch)
    requires DispatchedAt(g, start, dispatches, r, p, k, m, met) && m.messageType == AuthRequest
    ensures EndsAt(r, k, UnsolicitedAuth)
  {
    UpTo(r, k);
    NothingFollows(g, start, dispatches, r, p, k);
  }

  /** And an event no one takes any more. */
  lemma LostReceiverEnds(g: Grammar, start: Framer.Parser, dispatches: nat -> Dispatch, r: Report, p: Framer.Parser, k: nat, m: Message, met: Dispatch)
    requires DispatchedAt(g, start, dispatches, r, p, k, m, met) && m.messageType == Event && met.receiverGone
    ensures EndsAt(r, k, ReceiverGone)
  {
    UpTo(r, k);
    NothingFollows(g, start, dispatches, r, p, k);
  }
}
