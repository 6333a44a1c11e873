/** The reader's own reads never trip the buffer limit on what the switch sends, so everything sent is
    delivered without condition on how the network cuts it. */
module Delivery {
  import opened Bytes
  import opened HeaderBlock
  import opened Framer
  import opened EventFormat
  import opened Incoming

  /** An open header block this long still leaves room for one more read. */
  const HEAD_LIMIT: nat := MAX_BUFFER_SIZE - SOCKET_BUF_SIZE

  /** Whenever a first part of `s` leaves the parser in a header block, that block leaves room. */
  ghost predicate HeadsFit(g: Grammar, p: Parser, s: Bytes)
    requires p.Valid()
  {
    forall n: nat :: n <= |s| ==> HeadFits(Drain(g, p.Feed(s[..n])).1)
  }

  predicate HeadFits(stop: Stop)
  {
    stop.Blocked? && stop.parser.state.WaitingForHeaders? ==> |stop.parser.buffer| <= HEAD_LIMIT
  }

  /** One read on a parser at rest stays within the limit. */
  lemma OneReadFits(g: Grammar, p: Parser, s: Bytes, c: Bytes)
    requires p.Valid() && Stuck(p) && HeadsFit(g, p, s) && |c| <= SOCKET_BUF_SIZE
    ensures |p.Feed(c).buffer| <= MAX_BUFFER_SIZE
  {
    assert p.Feed(s[..0]) == p;
    DrainOfStuck(g, p);
    assert HeadFits(Drain(g, p.Feed(s[..0])).1);
  }

  lemma HeadsFitLater(g: Grammar, p: Parser, c: Bytes, rest: Bytes, ms: seq<Message>, q: Parser)
    requires p.Valid() && HeadsFit(g, p, c + rest) && Drain(g, p.Feed(c)) == (ms, Blocked(q)) && q.Valid()
    ensures HeadsFit(g, q, rest)
  {
    forall n: nat | n <= |rest| ensures HeadFits(Drain(g, q.Feed(rest[..n])).1) {
      assert HeadFits(Drain(g, p.Feed((c + rest)[..|c| + n])).1);
      assert (c + rest)[..|c| + n] == c + rest[..n];
      Associate(p.buffer, c, rest[..n]);
      assert p.Feed(c).Feed(rest[..n]) == p.Feed(c + rest[..n]);
      DrainOn(g, p.Feed(c), rest[..n], ms, q);
    }
  }

  /** Reads of the reader's size never trip the limit while header blocks leave room. */
  lemma {:induction false} NeverTrips(g: Grammar, p: Parser, chunks: seq<Bytes>)
    requires p.Valid() && Stuck(p) && HeadsFit(g, p, Concat(chunks))
    requires forall i :: 0 <= i < |chunks| ==> |chunks[i]| <= SOCKET_BUF_SIZE
    ensures FeedChunks(g, p, chunks).1.Stopped?
    decreases |chunks|
  {
    if chunks != [] {
      var c, rest := chunks[0], Concat(chunks[1..]);
      OneReadFits(g, p, Concat(chunks), c);
      var (ms, stop) := Drain(g, p.Feed(c));
      if stop.Blocked? {
        DrainBlocks(g, p.Feed(c));
        HeadsFitLater(g, p, c, rest, ms, stop.parser);
        NeverTrips(g, stop.parser, chunks[1..]);
      }
    }
  }

  /** The header block of every message leaves room for a read. */
  ghost predicate SmallHeads(es: seq<Envelope>)
  {
    forall i :: 0 <= i < |es| ==> es[i].fields != [] && |RenderHead(es[i].fields)| < HEAD_LIMIT
  }

  ghost predicate AllFramed(cfg: Config, es: seq<Envelope>)
  {
    forall i :: 0 <= i < |es| ==> Framed(cfg, es[i])
  }

  /** The bytes an end leaves in an open header block leave room. */
  predicate TailFits(end: End)
  {
    end.Incomplete? && Find(end.tail, BLANK_LINE).None? ==> |end.tail| <= HEAD_LIMIT
  }

  /** A proper first part of one frame has no message in it, and its header block leaves room. */
  lemma CutFrameFits(g: Grammar, wire: Bytes, head: Bytes, body: Bytes, p: PendingBody, n: nat)
    requires wire == head + BLANK_LINE + body && Find(wire, BLANK_LINE) == Some(|head|)
    requires g.readHead(head) == Ok(p) && p.bodyLength == |body| <= MAX_MESSAGE_SIZE
    requires n < |wire| && |head| < HEAD_LIMIT
    ensures TailFits(Frames(g, wire[..n]).1)
  {
    var r := wire[..n];
    assert wire == r + wire[n..];
    if Find(r, BLANK_LINE).Some? {
      FindStable(r, wire[n..], BLANK_LINE);
      assert r[..|head|] == head;
    } else if n >= |head| + 2 {
      MatchInPrefix(r, wire[n..], BLANK_LINE, |head|);
    }
    assert FrontFrame(g, r) == Short;
  }

  lemma CutEnvelopeFits(cfg: Config, e: Envelope, n: nat)
    requires Framed(cfg, e) && e.fields != [] && |RenderHead(e.fields)| < HEAD_LIMIT && n < |WireForm(e)|
    ensures TailFits(Frames(Esl(cfg), WireForm(e)[..n]).1)
  {
    var head, pending := PartsRead(cfg, e);
    HeadLength(e, head);
    CutFrameFits(Esl(cfg), WireForm(e), head, e.body, pending, n);
  }

  /** However far a stream of messages has been read, an open header block leaves room. */
  lemma {:induction false} CutStreamFits(cfg: Config, es: seq<Envelope>, n: nat)
    requires AllFramed(cfg, es) && SmallHeads(es) && n <= |Stream(es)|
    ensures TailFits(Frames(Esl(cfg), Stream(es)[..n]).1)
    decreases |es|
  {
    if es == [] {
      NothingLeft(cfg);
      assert Stream(es)[..n] == [];
    } else {
      var e, rest := es[0], Stream(es[1..]);
      CutJoined(WireForm(e), rest, n);
      if n < |WireForm(e)| {
        CutEnvelopeFits(cfg, e, n);
      } else {
        CutStreamFits(cfg, es[1..], n - |WireForm(e)|);
        FramesStep(cfg, e, rest[..n - |WireForm(e)|]);
      }
    }
  }

  lemma CutJoined(a: Bytes, b: Bytes, n: nat)
    requires n <= |a + b|
    ensures (a + b)[..n] == if n < |a| then a[..n] else a + b[..n - |a|]
  {
  }

  lemma HeadLength(e: Envelope, head: Bytes)
    requires e.fields != [] && AllWire(e.fields) && WireForm(e) == head + BLANK_LINE + e.body
    ensures |head| == |RenderHead(e.fields)|
  {
    LinesOfRender(e.fields);
  }

  /** The stream from a framed message on: refused there, or ending as the rest ends. */
  lemma FramesStep(cfg: Config, e: Envelope, rest: Bytes)
    requires Framed(cfg, e) && TailFits(Frames(Esl(cfg), rest).1)
    ensures TailFits(Frames(Esl(cfg), WireForm(e) + rest).1)
  {
    FrontIsEnvelope(cfg, e, rest);
    StepFits(Esl(cfg), WireForm(e), rest, Outcome(cfg, e));
  }

  lemma StepFits(g: Grammar, wire: Bytes, rest: Bytes, outcome: Result<Message, EslError>)
    requires FrontFrame(g, wire + rest) == Finished(outcome, |wire|) && TailFits(Frames(g, rest).1)
    ensures TailFits(Frames(g, wire + rest).1)
  {
    assert (wire + rest)[|wire|..] == rest;
  }

  lemma StreamHeadsFit(cfg: Config, es: seq<Envelope>)
    requires AllFramed(cfg, es) && SmallHeads(es)
    ensures HeadsFit(Esl(cfg), Fresh([]), Stream(es))
  {
    var g, s := Esl(cfg), Stream(es);
    forall n: nat | n <= |s| ensures HeadFits(Drain(g, Fresh([]).Feed(s[..n])).1) {
      assert Fresh([]).Feed(s[..n]) == Fresh(s[..n]);
      DrainIsFrames(g, s[..n]);
      CutStreamFits(cfg, es, n);
      RunFits(g, Drain(g, Fresh(s[..n])), Frames(g, s[..n]));
    }
  }

  lemma RunFits(g: Grammar, drained: (seq<Message>, Stop), framed: (seq<Message>, End))
    requires SameRun(g, drained, framed) && TailFits(framed.1)
    ensures HeadFits(drained.1)
  {
  }

  /** Everything the switch sends is received, with no condition on the cut: reads of at most one
      socket buffer, of messages whose header blocks leave room for one, never trip the size limit,
      and the client sees exactly those messages. */
  lemma SentIsDelivered(cfg: Config, es: seq<Envelope>, chunks: seq<Bytes>)
    requires AllWellFormed(cfg, es) && SmallHeads(es) && Concat(chunks) == Stream(es)
    requires forall i :: 0 <= i < |chunks| ==> |chunks[i]| <= SOCKET_BUF_SIZE
    ensures FeedChunks(Esl(cfg), Fresh([]), chunks) == (MessagesOf(cfg, es), Stopped(Blocked(Fresh([]))))
  {
    ReadsNeverTrip(cfg, es, chunks);
    SentIsReceived(cfg, es, chunks);
  }

  lemma ReadsNeverTrip(cfg: Config, es: seq<Envelope>, chunks: seq<Bytes>)
    requires AllFramed(cfg, es) && SmallHeads(es) && Concat(chunks) == Stream(es)
    requires forall i :: 0 <= i < |chunks| ==> |chunks[i]| <= SOCKET_BUF_SIZE
    ensures FeedChunks(Esl(cfg), Fresh([]), chunks).1.Stopped?
  {
    StreamHeadsFit(cfg, es);
    assert Find([], BLANK_LINE).None?;
    NeverTrips(Esl(cfg), Fresh([]), chunks);
  }
}
