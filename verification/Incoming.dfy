/** What the switch sends, and that the client reads back exactly that, however the bytes arrive. */
module Incoming {
  import opened Bytes
  import Utf8
  import opened HeaderKeys
  import opened HeaderBlock
  import opened Framer
  import opened EventFormat
  import Commands

  /** What the switch has to say. */
  datatype Kind =
    | AuthChallenge
    | Reply
    | ApiResult
    | PlainEvent
    | JsonEvent
    | XmlEvent
    | LogLine
    | DisconnectNotice
    | Rejection

  /** How it says so on the wire. */
  function ContentTypeOf(kind: Kind): Bytes
  {
    match kind
    case AuthChallenge => "auth/request"
    case Reply => "command/reply"
    case ApiResult => "api/response"
    case PlainEvent => "text/event-plain"
    case JsonEvent => "text/event-json"
    case XmlEvent => "text/event-xml"
    case LogLine => "log/data"
    case DisconnectNotice => "text/disconnect-notice"
    case Rejection => "text/rude-rejection"
  }

  /** What the client should take it for; a log line travels as an event. */
  function TypeOf(kind: Kind): MessageType
  {
    match kind
    case AuthChallenge => AuthRequest
    case Reply => CommandReply
    case ApiResult => ApiResponse
    case DisconnectNotice => Disconnect
    case Rejection => RudeRejection
    case _ => MessageType.Event
  }

  /** Every kind is recognised as itself from its wire text. */
  lemma KindReadsBack(kind: Kind)
    ensures FromContentType(ContentTypeOf(kind)) == Ok(TypeOf(kind))
  {
  }

  /** And nothing else is recognised. */
  lemma OnlyKindsRead(ct: Bytes)
    ensures FromContentType(ct).Ok? <==> exists kind :: ct == ContentTypeOf(kind)
    ensures FromContentType(ct).Err? ==> FromContentType(ct).error == UnrecognizedContentType(ct)
  {
    if ct == ContentTypeOf(AuthChallenge) || ct == ContentTypeOf(Reply) || ct == ContentTypeOf(ApiResult)
       || ct == ContentTypeOf(PlainEvent) || ct == ContentTypeOf(JsonEvent) || ct == ContentTypeOf(XmlEvent)
       || ct == ContentTypeOf(LogLine) || ct == ContentTypeOf(DisconnectNotice) || ct == ContentTypeOf(Rejection) {
    } else {
      forall kind ensures ct != ContentTypeOf(kind) {
        match kind
        case _ =>
      }
    }
  }

  /** A message as the switch writes it: what it has to say, header fields in any order, and a body. */
  datatype Envelope = Envelope(kind: Kind, fields: seq<Field>, body: Bytes)

  function WireForm(e: Envelope): Bytes { Render(e.fields) + ['\n'] + e.body }

  /** One of the fields has this canonical name and this value. */
  ghost predicate Says(known: seq<Bytes>, fields: seq<Field>, key: Bytes, value: Bytes)
  {
    exists j :: 0 <= j < |fields| && Normalize(known, fields[j].key) == key && ValueOf(fields[j]) == value
  }

  /** The length the fields announce, wherever among them they do; zero if they announce none. */
  function LengthOf(known: seq<Bytes>, fields: seq<Field>): Option<nat>
  {
    if fields == [] then Some(0)
    else if Normalize(known, fields[0].key) == HEADER_CONTENT_LENGTH then ParseUsize(ValueOf(fields[0]))
    else LengthOf(known, fields[1..])
  }

  /** What the switch keeps to: fields that fit on their lines under distinct names, the content
      type of its kind, the body's length announced truthfully, or not at all for no body, UTF-8
      headers that strict decoding accepts, and a body within the limit. */
  ghost predicate Framed(cfg: Config, e: Envelope)
  {
    && AllWire(e.fields) && Readable(cfg, e.fields) && DistinctKeys(cfg.known, e.fields)
    && Says(cfg.known, e.fields, HEADER_CONTENT_TYPE, ContentTypeOf(e.kind)) && LengthOf(cfg.known, e.fields) == Some(|e.body|)
    && Utf8.Valid(Render(e.fields))
    && |e.body| <= MAX_MESSAGE_SIZE
  }

  /** And, under strict decoding, a body that is text. */
  ghost predicate WellFormed(cfg: Config, e: Envelope)
  {
    Framed(cfg, e) && (cfg.strict ==> Utf8.Valid(e.body))
  }

  /** The message the client should see. */
  function MessageOf(cfg: Config, e: Envelope): Message
    requires Framed(cfg, e)
  {
    Message(
      TypeOf(e.kind),
      Expected(cfg.known, e.fields, false),
      if e.body == [] then None else Some(Utf8.Lossy(e.body)),
      if Utf8.Valid(e.body) then None else Some(e.body),
      Recorded(cfg.known, e.fields))
  }

  // ---- The length, anywhere ---------------------------------------------------------------------------

  function LengthField(n: nat): Field { Field(HEADER_CONTENT_LENGTH, Commands.Decimal(n)) }

  /** A plain decimal length announces itself at any place among the fields, zero included. */
  lemma {:induction false} LengthAnywhere(known: seq<Bytes>, before: seq<Field>, n: nat, after: seq<Field>)
    requires Normalize(known, HEADER_CONTENT_LENGTH) == HEADER_CONTENT_LENGTH && n < 0x1_0000_0000_0000_0000
    requires forall i :: 0 <= i < |before| ==> Normalize(known, before[i].key) != HEADER_CONTENT_LENGTH
    ensures LengthOf(known, before + [LengthField(n)] + after) == Some(n)
    ensures Wire(LengthField(n)) && IsText(LengthField(n))
    decreases |before|
  {
    LengthFieldFacts(n);
    var all := before + [LengthField(n)] + after;
    if before == [] {
      assert all[0] == LengthField(n);
      Commands.DecimalParses(n);
    } else {
      LengthAnywhere(known, before[1..], n, after);
      LengthSkips(known, before, [LengthField(n)] + after);
      Associate(before, [LengthField(n)], after);
      Associate(before[1..], [LengthField(n)], after);
    }
  }

  lemma LengthSkips(known: seq<Bytes>, fields: seq<Field>, rest: seq<Field>)
    requires fields != [] && Normalize(known, fields[0].key) != HEADER_CONTENT_LENGTH
    ensures LengthOf(known, fields + rest) == LengthOf(known, fields[1..] + rest)
  {
    assert (fields + rest)[0] == fields[0] && (fields + rest)[1..] == fields[1..] + rest;
  }

  lemma LengthFieldFacts(n: nat)
    ensures Wire(LengthField(n)) && IsText(LengthField(n)) && ValueOf(LengthField(n)) == Commands.Decimal(n)
  {
    DecimalDigits(n);
    DigitsAreText(Commands.Decimal(n));
    DigitsFit(Commands.Decimal(n));
  }

  lemma DigitsFit(d: Bytes)
    requires Digits(d)
    ensures Wire(Field(HEADER_CONTENT_LENGTH, d))
  {}

  lemma DigitsAreText(d: Bytes)
    requires Digits(d)
    ensures PercentDecode(d) == d && Utf8.Valid(d) && Utf8.Lossy(d) == d
  {
    DigitsDecode(d);
    Utf8.AsciiIsValid(d);
    Utf8.LossyOfValid(d);
  }

  predicate Digits(s: Bytes)
  {
    forall i :: 0 <= i < |s| ==> '0' <= s[i] <= '9'
  }

  lemma {:induction false} DecimalDigits(n: nat)
    ensures Digits(Commands.Decimal(n))
  {
    if n >= 10 {
      DecimalDigits(n / 10);
    }
  }

  lemma {:induction false} DigitsDecode(s: Bytes)
    requires Digits(s)
    ensures PercentDecode(s) == s
  {
    if s != [] {
      DigitsDecode(s[1..]);
    }
  }

  // ---- One frame ------------------------------------------------------------------------------------

  /** The header block is text without its last newline too. */
  lemma HeadIsText(e: Envelope)
    requires e.fields != [] && AllWire(e.fields) && Utf8.Valid(Render(e.fields))
    ensures Utf8.Valid(RenderHead(e.fields))
  {
    var head := RenderHead(e.fields);
    LinesOfRender(e.fields);
    assert head + ['\n'] == head + ['\n'] + [];
    Utf8.ValidSplitsAtAscii(head, '\n', []);
  }

  lemma ExpectedCons(known: seq<Bytes>, fields: seq<Field>, key: Bytes)
    requires fields != []
    ensures Get(Expected(known, fields, false), key)
            == if Normalize(known, fields[0].key) == key then Some(ValueOf(fields[0]))
               else Get(Expected(known, fields[1..], false), key)
  {
    var first, rest := (Normalize(known, fields[0].key), ValueOf(fields[0])), Expected(known, fields[1..], false);
    assert Expected(known, fields, false) == [first] + rest;
    assert ([first] + rest)[1..] == rest;
  }

  /** What the fields say is what looking it up in the decoded headers finds. */
  lemma SaidIsFound(known: seq<Bytes>, fields: seq<Field>, key: Bytes, value: Bytes)
    requires DistinctKeys(known, fields) && Says(known, fields, key, value)
    ensures Get(Expected(known, fields, false), key) == Some(value)
  {
    var j :| 0 <= j < |fields| && Normalize(known, fields[j].key) == key && ValueOf(fields[j]) == value;
    GetExpected(known, fields, [], j);
    assert Expected(known, fields, false) + [] == Expected(known, fields, false);
  }

  /** And so is the length. */
  lemma {:induction false} LengthFound(known: seq<Bytes>, fields: seq<Field>)
    requires LengthOf(known, fields).Some?
    ensures ReadLength(Expected(known, fields, false)) == Ok(LengthOf(known, fields).value)
    decreases |fields|
  {
    if fields != [] {
      ExpectedCons(known, fields, HEADER_CONTENT_LENGTH);
      if Normalize(known, fields[0].key) != HEADER_CONTENT_LENGTH {
        LengthFound(known, fields[1..]);
      }
    }
  }

  function PendingOf(cfg: Config, e: Envelope): PendingBody
    requires Framed(cfg, e)
  {
    PendingBody(TypeOf(e.kind), Expected(cfg.known, e.fields, false), |e.body|,
                Recorded(cfg.known, e.fields))
  }

  lemma HeadReads(cfg: Config, e: Envelope)
    requires Framed(cfg, e)
    ensures e.fields != [] && ReadHead(cfg, RenderHead(e.fields)) == Ok(PendingOf(cfg, e))
  {
    HeadIsText(e);
    RenderDecodes(cfg, e.fields, false);
    SaidIsFound(cfg.known, e.fields, HEADER_CONTENT_TYPE, ContentTypeOf(e.kind));
    KindReadsBack(e.kind);
    LengthFound(cfg.known, e.fields);
  }

  /** The front of a stream that opens with a head, a blank line and the body the head announces. */
  lemma FrontOfParts(g: Grammar, wire: Bytes, head: Bytes, body: Bytes, rest: Bytes, p: PendingBody)
    requires wire == head + BLANK_LINE + body && Find(wire, BLANK_LINE) == Some(|head|)
    requires g.readHead(head) == Ok(p) && p.bodyLength == |body| <= MAX_MESSAGE_SIZE
    ensures FrontFrame(g, wire + rest) == Finished(if body == [] then Ok(WithoutBody(p)) else g.finishBody(p, body), |wire|)
  {
    var s := wire + rest;
    FindStable(wire, rest, BLANK_LINE);
    assert s[..|head|] == head && s[|head| + 2..|head| + 2 + |body|] == body;
  }

  function Finished(r: Result<Message, EslError>, size: nat): Front
  {
    match r
    case Ok(m) => Frame(m, size)
    case Err(e) => Bad(e)
  }

  lemma PartsRead(cfg: Config, e: Envelope) returns (head: Bytes, pending: PendingBody)
    requires Framed(cfg, e)
    ensures WireForm(e) == head + BLANK_LINE + e.body && Find(WireForm(e), BLANK_LINE) == Some(|head|)
    ensures Esl(cfg).readHead(head) == Ok(pending) && pending.bodyLength == |e.body| <= MAX_MESSAGE_SIZE
    ensures (if e.body == [] then Ok(WithoutBody(pending)) else Esl(cfg).finishBody(pending, e.body)) == Outcome(cfg, e)
  {
    HeadReads(cfg, e);
    head, pending := RenderHead(e.fields), PendingOf(cfg, e);
    RenderSplits(e.fields, e.body);
    BodyFinishes(cfg, e);
  }

  /** A framed message is read as itself, or refused for a body that strict decoding refuses. */
  function Outcome(cfg: Config, e: Envelope): Result<Message, EslError>
    requires Framed(cfg, e)
  {
    if cfg.strict && !Utf8.Valid(e.body) then Err(BodyNotUtf8) else Ok(MessageOf(cfg, e))
  }

  lemma BodyFinishes(cfg: Config, e: Envelope)
    requires Framed(cfg, e)
    ensures Outcome(cfg, e) == if e.body == [] then Ok(WithoutBody(PendingOf(cfg, e)))
                               else FinishBody(cfg, PendingOf(cfg, e), e.body)
  {
    if Utf8.Valid(e.body) {
      Utf8.LossyOfValid(e.body);
    }
  }

  /** A framed message at the front of any stream is read as itself, taking its own bytes, unless
      strict decoding refuses its body. */
  lemma FrontIsEnvelope(cfg: Config, e: Envelope, rest: Bytes)
    requires Framed(cfg, e)
    ensures FrontFrame(Esl(cfg), WireForm(e) + rest) == Finished(Outcome(cfg, e), |WireForm(e)|)
  {
    var head, pending := PartsRead(cfg, e);
    FrontOfParts(Esl(cfg), WireForm(e), head, e.body, rest, pending);
  }

  // ---- Heads that are refused ----------------------------------------------------------------------------

  /** No field has this canonical name. */
  ghost predicate Silent(known: seq<Bytes>, fields: seq<Field>, key: Bytes)
  {
    forall j :: 0 <= j < |fields| ==> Normalize(known, fields[j].key) != key
  }

  lemma {:induction false} SilentIsMissing(known: seq<Bytes>, fields: seq<Field>, key: Bytes)
    requires Silent(known, fields, key)
    ensures Get(Expected(known, fields, false), key).None?
    decreases |fields|
  {
    if fields != [] {
      ExpectedCons(known, fields, key);
      SilentIsMissing(known, fields[1..], key);
    }
  }

  /** A header block of fields the client can decode. */
  ghost predicate Block(cfg: Config, fields: seq<Field>)
  {
    && fields != [] && AllWire(fields) && Readable(cfg, fields) && DistinctKeys(cfg.known, fields)
    && Utf8.Valid(Render(fields))
  }

  /** What the client makes of such a block depends on its decoded headers alone. */
  lemma BlockReads(cfg: Config, fields: seq<Field>)
    requires Block(cfg, fields)
    ensures Utf8.Valid(RenderHead(fields))
    ensures ParseHeaders(cfg, RenderHead(fields)) == Ok(Decoded(Expected(cfg.known, fields, false), Recorded(cfg.known, fields)))
  {
    HeadIsText(Envelope(Reply, fields, []));
    RenderDecodes(cfg, fields, false);
  }

  /** Without a content type, or with one that is no kind's, a message is refused and says why. */
  lemma UntypedRefused(cfg: Config, fields: seq<Field>, ct: Bytes)
    requires Block(cfg, fields)
    ensures Silent(cfg.known, fields, HEADER_CONTENT_TYPE) ==>
              ReadHead(cfg, RenderHead(fields)) == Err(MissingContentType)
    ensures Says(cfg.known, fields, HEADER_CONTENT_TYPE, ct) && (forall kind :: ct != ContentTypeOf(kind)) ==>
              ReadHead(cfg, RenderHead(fields)) == Err(UnrecognizedContentType(ct))
  {
    BlockReads(cfg, fields);
    OnlyKindsRead(ct);
    if Silent(cfg.known, fields, HEADER_CONTENT_TYPE) {
      SilentIsMissing(cfg.known, fields, HEADER_CONTENT_TYPE);
    }
    if Says(cfg.known, fields, HEADER_CONTENT_TYPE, ct) {
      SaidIsFound(cfg.known, fields, HEADER_CONTENT_TYPE, ct);
    }
  }

  /** A length that is no number is refused with the header named; one over the limit, with the
      length. */
  lemma BadLengthRefused(cfg: Config, fields: seq<Field>, kind: Kind, text: Bytes)
    requires Block(cfg, fields) && Says(cfg.known, fields, HEADER_CONTENT_TYPE, ContentTypeOf(kind))
    requires Says(cfg.known, fields, HEADER_CONTENT_LENGTH, text)
    ensures ParseUsize(text).None? ==>
              ReadHead(cfg, RenderHead(fields)) == Err(InvalidHeader("Content-Length: " + text))
    ensures ParseUsize(text).Some? ==>
              var head := ReadHead(cfg, RenderHead(fields));
              head.Ok? && head.value.bodyLength == ParseUsize(text).value && head.value.messageType == TypeOf(kind)
  {
    BlockReads(cfg, fields);
    SaidIsFound(cfg.known, fields, HEADER_CONTENT_TYPE, ContentTypeOf(kind));
    SaidIsFound(cfg.known, fields, HEADER_CONTENT_LENGTH, text);
    KindReadsBack(kind);
    assert HEADER_CONTENT_LENGTH + ": " == "Content-Length: ";
  }

  // ---- Whole streams ----------------------------------------------------------------------------------

  function Stream(es: seq<Envelope>): Bytes
  {
    if es == [] then [] else WireForm(es[0]) + Stream(es[1..])
  }

  ghost predicate AllWellFormed(cfg: Config, es: seq<Envelope>)
  {
    forall i :: 0 <= i < |es| ==> WellFormed(cfg, es[i])
  }

  function MessagesOf(cfg: Config, es: seq<Envelope>): seq<Message>
    requires AllWellFormed(cfg, es)
  {
    if es == [] then [] else [MessageOf(cfg, es[0])] + MessagesOf(cfg, es[1..])
  }

  lemma StreamCons(first: Bytes, others: Bytes, tail: Bytes)
    ensures first + others + tail == first + (others + tail)
    ensures (first + (others + tail))[|first|..] == others + tail
  {}

  /** Reading any list of messages, followed by anything, gives those messages and then whatever
      reading the rest gives. */
  lemma {:induction false} FramesOfStream(cfg: Config, es: seq<Envelope>, tail: Bytes)
    requires AllWellFormed(cfg, es)
    ensures var (ms, end) := Frames(Esl(cfg), tail);
            Frames(Esl(cfg), Stream(es) + tail) == (MessagesOf(cfg, es) + ms, end)
    decreases |es|
  {
    var (ms, end) := Frames(Esl(cfg), tail);
    if es == [] {
      assert [] + tail == tail && [] + ms == ms;
    } else {
      assert WellFormed(cfg, es[0]) && AllWellFormed(cfg, es[1..]);
      StreamCons(WireForm(es[0]), Stream(es[1..]), tail);
      FrontIsEnvelope(cfg, es[0], Stream(es[1..]) + tail);
      FramesOfStream(cfg, es[1..], tail);
      assert [MessageOf(cfg, es[0])] + (MessagesOf(cfg, es[1..]) + ms) == MessagesOf(cfg, es) + ms;
    }
  }

  lemma NothingLeft(cfg: Config)
    ensures Frames(Esl(cfg), []) == ([], Incomplete([]))
  {
    assert Find([], BLANK_LINE).None?;
  }

  /** The transport is faithful: whatever list of well-formed messages the switch sends, and however
      the network cuts their bytes, the client sees exactly those messages, in order, with no error
      and nothing left over, unless a chunk trips the size limit. */
  lemma SentIsReceived(cfg: Config, es: seq<Envelope>, chunks: seq<Bytes>)
    requires AllWellFormed(cfg, es) && Concat(chunks) == Stream(es)
    requires FeedChunks(Esl(cfg), Fresh([]), chunks).1.Stopped?
    ensures FeedChunks(Esl(cfg), Fresh([]), chunks) == (MessagesOf(cfg, es), Stopped(Blocked(Fresh([]))))
  {
    FramesOfStream(cfg, es, []);
    NothingLeft(cfg);
    assert Stream(es) + [] == Stream(es) && MessagesOf(cfg, es) + [] == MessagesOf(cfg, es);
    FedIsFramed(Esl(cfg), chunks);
  }

  /** What chunks give, from what their stream gives read at once. */
  lemma FedIsFramed(g: Grammar, chunks: seq<Bytes>)
    requires FeedChunks(g, Fresh([]), chunks).1.Stopped?
    ensures var (ms, end) := Frames(g, Concat(chunks));
            && (end == Incomplete([]) ==> FeedChunks(g, Fresh([]), chunks) == (ms, Stopped(Blocked(Fresh([])))))
            && (end.Failed? ==> FeedChunks(g, Fresh([]), chunks) == (ms, Stopped(Failure(end.error))))
  {
    ChunkIndependence(g, chunks);
    var (ms, fed) := FeedChunks(g, Fresh([]), chunks);
    SameRunEnds(g, ms, fed.stop, Frames(g, Concat(chunks)));
  }

  lemma SameRunEnds(g: Grammar, ms: seq<Message>, stop: Stop, framed: (seq<Message>, End))
    requires SameRun(g, (ms, stop), framed)
    ensures ms == framed.0
    ensures framed.1 == Incomplete([]) ==> stop == Blocked(Fresh([]))
    ensures framed.1.Failed? ==> stop == Failure(framed.1.error)
  {
    if framed.1 == Incomplete([]) {
      RestsEmpty(g, stop);
    }
  }

  /** Only the fresh empty parser represents an empty open frame. */
  lemma RestsEmpty(g: Grammar, stop: Stop)
    requires stop.Blocked? && Represents(g, stop.parser, [])
    ensures stop == Blocked(Fresh([]))
  {
    assert Find([], BLANK_LINE).None?;
  }

  // ---- Events ---------------------------------------------------------------------------------------

  /** A plain event's payload: encoded headers, a blank line, the inner body. */
  function Payload(known: seq<Bytes>, pairs: Headers, safe: set<Byte>, inner: Bytes): Bytes
    requires AllSerializable(known, pairs)
  {
    Render(Encode(known, pairs, safe)) + ['\n'] + inner
  }

  /** `e` is the envelope of an event with these headers, encoded as the switch encodes them at least
      as far as it must, and this inner body. */
  ghost predicate Carries(cfg: Config, e: Envelope, pairs: Headers, safe: set<Byte>, inner: Bytes)
  {
    && Framed(cfg, e) && e.kind == Kind.PlainEvent
    && pairs != [] && AllSerializable(cfg.known, pairs) && Distinct(pairs)
    && '%' !in safe && '\r' !in safe && '\n' !in safe
    && Utf8.Valid(Render(Encode(cfg.known, pairs, safe)))
    && e.body == Payload(cfg.known, pairs, safe, inner)
  }

  /** The event the application should get: the same headers in order, the inner body's text, and its
      wire bytes when they are not that text; the lossy record is the envelope's own. */
  function EventSeen(cfg: Config, e: Envelope, pairs: Headers, inner: Bytes): EslEvent
  {
    EslEvent(pairs, NonEmpty(Some(Utf8.Lossy(inner))), if Utf8.Valid(inner) then None else Some(inner),
             Recorded(cfg.known, e.fields))
  }

  /** The payload decodes, as text, to the headers and the inner body's text. */
  lemma PayloadDecodes(cfg: Config, pairs: Headers, safe: set<Byte>, inner: Bytes)
    requires pairs != [] && AllSerializable(cfg.known, pairs) && Distinct(pairs)
    requires '%' !in safe && '\r' !in safe && '\n' !in safe
    requires Utf8.Valid(Render(Encode(cfg.known, pairs, safe)))
    ensures var payload := Payload(cfg.known, pairs, safe, inner);
            && DecodeSerialized(cfg, Utf8.Lossy(payload), false)
               == Ok(EslEvent(pairs, NonEmpty(Some(Utf8.Lossy(inner))), None, []))
            && (Utf8.Valid(payload) <==> Utf8.Valid(inner))
  {
    var section := Render(Encode(cfg.known, pairs, safe));
    Utf8.LossySplitsAtAscii(section, '\n', inner);
    Utf8.ValidSplitsAtAscii(section, '\n', inner);
    Utf8.LossyOfValid(section);
    EncodedRoundTrip(cfg, pairs, safe, Utf8.Lossy(inner), false);
    AllDefined(pairs);
  }

  /** The payload is cut where its headers end. */
  lemma PayloadSplits(cfg: Config, pairs: Headers, safe: set<Byte>, inner: Bytes)
    requires pairs != [] && AllSerializable(cfg.known, pairs)
    requires '%' !in safe && '\r' !in safe && '\n' !in safe
    ensures Utf8.SplitBlankLine(Payload(cfg.known, pairs, safe, inner)).1 == Some(inner)
  {
    EncodedFit(cfg, pairs, safe);
    RenderSplits(Encode(cfg.known, pairs, safe), inner);
  }

  /** The message parsed from the envelope gives that event. */
  lemma EventParses(cfg: Config, e: Envelope, pairs: Headers, safe: set<Byte>, inner: Bytes)
    requires Carries(cfg, e, pairs, safe, inner)
    ensures EventFormat.PlainEvent(cfg, MessageOf(cfg, e)) == Ok(EventSeen(cfg, e, pairs, inner))
  {
    PayloadDecodes(cfg, pairs, safe, inner);
    PayloadSplits(cfg, pairs, safe, inner);
    LossyEmptyIff(inner);
    var none: seq<LossyValue> := [];
    assert Recorded(cfg.known, e.fields) + none == Recorded(cfg.known, e.fields);
  }

  lemma LossyEmptyIff(s: Bytes)
    ensures Utf8.Lossy(s) == [] <==> s == []
  {
    Utf8.LossyNeverShorter(s);
  }

  /** What the client makes of a stream with an event in it: with an inner body that strict decoding
      refuses, the messages before it and that error; otherwise every message, and the event's own
      parses to the event sent. */
  ghost predicate EventDelivered(cfg: Config, before: seq<Envelope>, e: Envelope, after: seq<Envelope>,
                                 pairs: Headers, inner: Bytes, seen: (seq<Message>, Fed))
    requires AllWellFormed(cfg, before) && Framed(cfg, e) && AllWellFormed(cfg, after)
  {
    if cfg.strict && !Utf8.Valid(inner) then
      seen == (MessagesOf(cfg, before), Stopped(Failure(BodyNotUtf8)))
    else
      && seen == (MessagesOf(cfg, before) + ([MessageOf(cfg, e)] + MessagesOf(cfg, after)), Stopped(Blocked(Fresh([]))))
      && EventFormat.PlainEvent(cfg, MessageOf(cfg, e)) == Ok(EventSeen(cfg, e, pairs, inner))
  }

  /** Events survive the whole trip, from the switch's wire bytes, among any other messages and cut in
      any way, through the parsed message, to the event with its headers, body and raw body; an inner
      body that is not text is refused exactly under strict decoding. */
  lemma EventArrives(cfg: Config, before: seq<Envelope>, e: Envelope, after: seq<Envelope>,
                     pairs: Headers, safe: set<Byte>, inner: Bytes, chunks: seq<Bytes>)
    requires AllWellFormed(cfg, before) && AllWellFormed(cfg, after) && Carries(cfg, e, pairs, safe, inner)
    requires Concat(chunks) == Stream(before) + (WireForm(e) + Stream(after))
    requires FeedChunks(Esl(cfg), Fresh([]), chunks).1.Stopped?
    ensures EventDelivered(cfg, before, e, after, pairs, inner, FeedChunks(Esl(cfg), Fresh([]), chunks))
  {
    EventParses(cfg, e, pairs, safe, inner);
    PayloadDecodes(cfg, pairs, safe, inner);
    FramesAround(cfg, before, e, after);
    FedIsFramed(Esl(cfg), chunks);
  }

  /** A stream with a framed message in it. */
  lemma FramesAround(cfg: Config, before: seq<Envelope>, e: Envelope, after: seq<Envelope>)
    requires AllWellFormed(cfg, before) && Framed(cfg, e) && AllWellFormed(cfg, after)
    ensures Frames(Esl(cfg), Stream(before) + (WireForm(e) + Stream(after)))
            == if cfg.strict && !Utf8.Valid(e.body) then (MessagesOf(cfg, before), Failed(BodyNotUtf8))
               else (MessagesOf(cfg, before) + ([MessageOf(cfg, e)] + MessagesOf(cfg, after)), Incomplete([]))
  {
    FramesOfStream(cfg, before, WireForm(e) + Stream(after));
    FramesFrom(cfg, e, after);
    assert MessagesOf(cfg, before) + [] == MessagesOf(cfg, before);
  }

  /** The stream from a framed message on. */
  lemma FramesFrom(cfg: Config, e: Envelope, after: seq<Envelope>)
    requires Framed(cfg, e) && AllWellFormed(cfg, after)
    ensures Frames(Esl(cfg), WireForm(e) + Stream(after))
            == if cfg.strict && !Utf8.Valid(e.body) then ([], Failed(BodyNotUtf8))
               else ([MessageOf(cfg, e)] + MessagesOf(cfg, after), Incomplete([]))
  {
    FrontIsEnvelope(cfg, e, Stream(after));
    assert (WireForm(e) + Stream(after))[|WireForm(e)|..] == Stream(after);
    FramesOfStream(cfg, after, []);
    NothingLeft(cfg);
    assert Stream(after) + [] == Stream(after) && MessagesOf(cfg, after) + [] == MessagesOf(cfg, after);
  }

  lemma {:induction false} AllDefined(pairs: Headers)
    ensures Defined(pairs, false) == pairs
  {
    if pairs != [] {
      AllDefined(pairs[1..]);
    }
  }
}
