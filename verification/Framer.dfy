/** ESL framing: a blank-line-terminated header block, then `Content-Length` body bytes.

    `Frames` reads a whole stream at once and is the reference. `Parse` is one call of the
    resumable parser, which drops the header block as soon as it is read and parks the message
    until its body arrives. The theorems below show that cutting the stream differently never
    shows. */
module Framer {
  import opened Bytes
  import Utf8
  import opened HeaderBlock

  const MAX_MESSAGE_SIZE: nat := 8 * 1024 * 1024
  const MAX_BUFFER_SIZE: nat := 16 * 1024 * 1024
  const SOCKET_BUF_SIZE: nat := 65536

  const HEADER_CONTENT_TYPE: Bytes := "Content-Type"
  const HEADER_CONTENT_LENGTH: Bytes := "Content-Length"

  datatype MessageType = AuthRequest | CommandReply | ApiResponse | Event | Disconnect | RudeRejection

  /** `MessageType::from_content_type`. */
  function FromContentType(ct: Bytes): Result<MessageType, EslError>
  {
    if ct == "auth/request" then Ok(AuthRequest)
    else if ct == "command/reply" then Ok(CommandReply)
    else if ct == "api/response" then Ok(ApiResponse)
    else if ct == "text/event-plain" || ct == "text/event-json" || ct == "text/event-xml" || ct == "log/data"
    then Ok(Event)
    else if ct == "text/disconnect-notice" then Ok(Disconnect)
    else if ct == "text/rude-rejection" then Ok(RudeRejection)
    else Err(UnrecognizedContentType(ct))
  }

  datatype Message = Message(
    messageType: MessageType,
    headers: Headers,
    body: Option<Bytes>,
    rawBody: Option<Bytes>,
    lossy: seq<LossyValue>)

  datatype PendingBody = PendingBody(
    messageType: MessageType,
    headers: Headers,
    bodyLength: nat,
    lossy: seq<LossyValue>)

  function DigitsValue(s: Bytes): Option<nat>
  {
    if s == [] then Some(0)
    else
      var c := s[|s| - 1];
      match DigitsValue(s[..|s| - 1])
      case Some(n) => if '0' <= c <= '9' then Some(n * 10 + (c as int - '0' as int)) else None
      case None => None
  }

  /** `str::parse::<usize>` on a 64-bit target: an optional plus sign, then at least one digit. */
  function ParseUsize(s: Bytes): (r: Option<nat>)
    ensures r.Some? ==> r.value < 0x1_0000_0000_0000_0000
  {
    var digits := if s != [] && s[0] == '+' then s[1..] else s;
    if digits == [] then None
    else match DigitsValue(digits)
      case Some(n) => if n < 0x1_0000_0000_0000_0000 then Some(n) else None
      case None => None
  }

  /** `parse_header_frame` on the text of one header block, up to the size check. */
  function ReadHead(cfg: Config, block: Bytes): Result<PendingBody, EslError>
  {
    if !Utf8.Valid(block) then Err(HeadersNotUtf8)
    else match ParseHeaders(cfg, block)
      case Err(e) => Err(e)
      case Ok(Decoded(headers, lossy)) =>
        match Get(headers, HEADER_CONTENT_TYPE)
        case None => Err(MissingContentType)
        case Some(ct) =>
          match FromContentType(ct)
          case Err(e) => Err(e)
          case Ok(messageType) =>
            match ReadLength(headers)
            case Err(e) => Err(e)
            case Ok(n) => Ok(PendingBody(messageType, headers, n, lossy))
  }

  function ReadLength(headers: Headers): Result<nat, EslError>
  {
    match Get(headers, HEADER_CONTENT_LENGTH)
    case None => Ok(0)
    case Some(text) =>
      match ParseUsize(text)
      case Some(n) => Ok(n)
      case None => Err(InvalidHeader(HEADER_CONTENT_LENGTH + ": " + text))
  }

  /** `parse_body_frame` once the body is there: decoded lossily, keeping the wire bytes. */
  function FinishBody(cfg: Config, p: PendingBody, body: Bytes): (r: Result<Message, EslError>)
    ensures r.Ok? ==> r.value.body == Some(Utf8.Lossy(body))
    ensures r.Ok? ==> r.value.rawBody == if Utf8.Valid(body) then None else Some(body)
  {
    if Utf8.Valid(body) then
      Utf8.LossyOfValid(body);
      Ok(Message(p.messageType, p.headers, Some(body), None, p.lossy))
    else if cfg.strict then Err(BodyNotUtf8)
    else Ok(Message(p.messageType, p.headers, Some(Utf8.Lossy(body)), Some(body), p.lossy))
  }

  /** How header blocks and bodies are read. Framing is proved for every grammar, so nothing in
      it leans on how a header is spelled; `Esl` is the one the parser uses. */
  datatype Grammar = Grammar(
    readHead: Bytes -> Result<PendingBody, EslError>,
    finishBody: (PendingBody, Bytes) -> Result<Message, EslError>)

  function Esl(cfg: Config): Grammar
  {
    Grammar(block => ReadHead(cfg, block), (p, body) => FinishBody(cfg, p, body))
  }

  function WithoutBody(p: PendingBody): Message
  {
    Message(p.messageType, p.headers, None, None, p.lossy)
  }

  // ---- The reference: the whole stream at once -------------------------------------------

  /** One frame at the front of a stream, with the bytes it takes. */
  datatype Front = Frame(message: Message, size: nat) | Bad(error: EslError) | Short

  function FrontFrame(g: Grammar, s: Bytes): (r: Front)
    ensures r.Frame? ==> 0 < r.size <= |s|
  {
    match Find(s, BLANK_LINE)
    case None => Short
    case Some(i) =>
      match g.readHead(s[..i])
      case Err(e) => Bad(e)
      case Ok(p) =>
        var end := i + 2 + p.bodyLength;
        if p.bodyLength > MAX_MESSAGE_SIZE then Bad(MessageTooLarge(p.bodyLength))
        else if p.bodyLength == 0 then Frame(WithoutBody(p), end)
        else if |s| < end then Short
        else match g.finishBody(p, s[i + 2..end])
          case Ok(m) => Frame(m, end)
          case Err(e) => Bad(e)
  }

  /** How reading a stream ends: out of bytes, with the frame still open, or at an error. */
  datatype End = Incomplete(tail: Bytes) | Failed(error: EslError)

  /** Every message of a stream in order, and how it ends. */
  function Frames(g: Grammar, s: Bytes): (seq<Message>, End)
    decreases |s|
  {
    match FrontFrame(g, s)
    case Short => ([], Incomplete(s))
    case Bad(e) => ([], Failed(e))
    case Frame(m, n) => var (ms, end) := Frames(g, s[n..]); ([m] + ms, end)
  }

  // ---- The resumable parser -----------------------------------------------------------------

  datatype ParseState = WaitingForHeaders | WaitingForBody(pending: PendingBody)

  /** The parser's value: its state and the bytes it holds. */
  datatype Parser = Parser(state: ParseState, buffer: Bytes) {
    predicate Valid()
    {
      state.WaitingForBody? ==> 0 < state.pending.bodyLength <= MAX_MESSAGE_SIZE
    }

    function Feed(data: Bytes): Parser
    {
      this.(buffer := buffer + data)
    }
  }

  datatype Parsed = Got(message: Message) | NeedMore | Error(error: EslError)

  /** One `parse_message` call: its result and the parser it leaves. */
  function Parse(g: Grammar, p: Parser): (r: (Parsed, Parser))
    requires p.Valid()
    ensures r.1.Valid()
  {
    match p.state
    case WaitingForHeaders => ParseHeaderFrame(g, p.buffer)
    case WaitingForBody(pending) => ParseBodyFrame(g, pending, p.buffer)
  }

  function ParseHeaderFrame(g: Grammar, buffer: Bytes): (r: (Parsed, Parser))
    ensures r.1.Valid()
  {
    match Find(buffer, BLANK_LINE)
    case None => (NeedMore, Parser(WaitingForHeaders, buffer))
    case Some(i) => AfterHead(g, g.readHead(buffer[..i]), buffer[i + 2..])
  }

  /** What follows a header block, with `rest` behind it. */
  function AfterHead(g: Grammar, head: Result<PendingBody, EslError>, rest: Bytes): (r: (Parsed, Parser))
    ensures r.1.Valid()
  {
    match head
    case Err(e) => (Error(e), Parser(WaitingForHeaders, rest))
    case Ok(p) =>
      if p.bodyLength > MAX_MESSAGE_SIZE then
        (Error(MessageTooLarge(p.bodyLength)), Parser(WaitingForHeaders, rest))
      else if p.bodyLength == 0 then (Got(WithoutBody(p)), Parser(WaitingForHeaders, rest))
      else ParseBodyFrame(g, p, rest)
  }

  function ParseBodyFrame(g: Grammar, pending: PendingBody, buffer: Bytes): (r: (Parsed, Parser))
    requires 0 < pending.bodyLength <= MAX_MESSAGE_SIZE
    ensures r.1.Valid()
  {
    if |buffer| < pending.bodyLength then (NeedMore, Parser(WaitingForBody(pending), buffer))
    else
      var rest := Parser(WaitingForHeaders, buffer[pending.bodyLength..]);
      match g.finishBody(pending, buffer[..pending.bodyLength])
      case Ok(m) => (Got(m), rest)
      case Err(e) => (Error(e), rest)
  }

  /** A call that yields a message or an error consumes bytes; one that asks for more leaves the
      parser mid-header with no blank line, or mid-body and short of it. What it leaves is always
      a suffix of what it was given. */
  lemma ParseConsumes(g: Grammar, p: Parser)
    requires p.Valid()
    ensures var (out, q) := Parse(g, p);
            && |q.buffer| <= |p.buffer| && q.buffer == p.buffer[|p.buffer| - |q.buffer|..]
            && (!out.NeedMore? ==> |q.buffer| < |p.buffer| && q.state.WaitingForHeaders?)
            && (out.NeedMore? ==> Stuck(q))
  {
  }

  predicate Stuck(p: Parser)
  {
    match p.state
    case WaitingForHeaders => Find(p.buffer, BLANK_LINE).None?
    case WaitingForBody(pending) => |p.buffer| < pending.bodyLength
  }

  datatype Stop = Blocked(parser: Parser) | Failure(error: EslError)

  /** `parse_message` called until it asks for more or fails. */
  function Drain(g: Grammar, p: Parser): (seq<Message>, Stop)
    requires p.Valid()
    decreases |p.buffer|
  {
    ParseConsumes(g, p);
    match Parse(g, p)
    case (NeedMore, q) => ([], Blocked(q))
    case (Error(e), _) => ([], Failure(e))
    case (Got(m), q) => var (ms, stop) := Drain(g, q); ([m] + ms, stop)
  }

  /** `left` then `right` as one result: messages in order, the stop of the last. */
  function Then(left: seq<Message>, right: (seq<Message>, Stop)): (seq<Message>, Stop)
  {
    (left + right.0, right.1)
  }

  /** Bytes that arrive after a call that already had enough change nothing but the rest. */
  lemma ParseStable(g: Grammar, p: Parser, more: Bytes)
    requires p.Valid() && !Parse(g, p).0.NeedMore?
    ensures Parse(g, p.Feed(more)) == (Parse(g, p).0, Parse(g, p).1.Feed(more))
  {
    match p.state
    case WaitingForHeaders =>
      FindStable(p.buffer, more, BLANK_LINE);
      var i := Find(p.buffer, BLANK_LINE).value;
      assert (p.buffer + more)[..i] == p.buffer[..i];
      assert (p.buffer + more)[i + 2..] == p.buffer[i + 2..] + more;
      match g.readHead(p.buffer[..i]) {
        case Ok(pending) =>
          if 0 < pending.bodyLength <= MAX_MESSAGE_SIZE {
            BodyStable(g, pending, p.buffer[i + 2..], more);
          }
        case Err(_) =>
      }
    case WaitingForBody(pending) => BodyStable(g, pending, p.buffer, more);
  }

  lemma BodyStable(g: Grammar, pending: PendingBody, buffer: Bytes, more: Bytes)
    requires 0 < pending.bodyLength <= MAX_MESSAGE_SIZE && pending.bodyLength <= |buffer|
    ensures ParseBodyFrame(g, pending, buffer + more)
            == (ParseBodyFrame(g, pending, buffer).0, ParseBodyFrame(g, pending, buffer).1.Feed(more))
  {
    var n := pending.bodyLength;
    assert (buffer + more)[..n] == buffer[..n];
    assert (buffer + more)[n..] == buffer[n..] + more;
  }

  /** Asking once and getting nothing is undone by the next call: it resumes where the whole
      buffer would have been read in one go. */
  lemma ParseResumes(g: Grammar, p: Parser, more: Bytes)
    requires p.Valid() && Parse(g, p).0.NeedMore?
    ensures Parse(g, Parse(g, p).1.Feed(more)) == Parse(g, p.Feed(more))
  {
    var q := Parse(g, p).1;
    if p.state.WaitingForHeaders? && q.state.WaitingForBody? {
      FindStable(p.buffer, more, BLANK_LINE);
      var i := Find(p.buffer, BLANK_LINE).value;
      assert (p.buffer + more)[..i] == p.buffer[..i];
      assert (p.buffer + more)[i + 2..] == p.buffer[i + 2..] + more;
    }
  }

  /** Draining, feeding and draining again is feeding first and draining once; an error reached
      before the feed is the error reached after it. */
  lemma {:induction false} DrainAppend(g: Grammar, p: Parser, more: Bytes)
    requires p.Valid()
    ensures match Drain(g, p)
            case (ms, Blocked(q)) => q.Valid() && Drain(g, p.Feed(more)) == Then(ms, Drain(g, q.Feed(more)))
            case (ms, Failure(e)) => Drain(g, p.Feed(more)) == (ms, Failure(e))
    decreases |p.buffer|
  {
    ParseConsumes(g, p);
    var (out, q) := Parse(g, p);
    if out.NeedMore? {
      ParseResumes(g, p, more);
      DrainLooksAtParse(g, q.Feed(more), p.Feed(more));
    } else {
      ParseStable(g, p, more);
      if out.Got? {
        DrainAppend(g, q, more);
        var (ms, stop) := Drain(g, q);
        if stop.Blocked? {
          ThenAssociates([out.message], ms, Drain(g, stop.parser.Feed(more)));
        }
      }
    }
  }

  /** The same, from a drain that blocked. */
  lemma DrainOn(g: Grammar, p: Parser, more: Bytes, ms: seq<Message>, q: Parser)
    requires p.Valid() && Drain(g, p) == (ms, Blocked(q))
    ensures q.Valid() && Drain(g, p.Feed(more)) == Then(ms, Drain(g, q.Feed(more)))
  {
    DrainAppend(g, p, more);
  }

  lemma DrainLooksAtParse(g: Grammar, p: Parser, q: Parser)
    requires p.Valid() && q.Valid() && Parse(g, p) == Parse(g, q)
    ensures Drain(g, p) == Drain(g, q) == Then([], Drain(g, q))
  {
    assert Drain(g, p) == Drain(g, q);
    assert [] + Drain(g, q).0 == Drain(g, q).0;
  }

  lemma ThenAssociates(a: seq<Message>, b: seq<Message>, rest: (seq<Message>, Stop))
    ensures Then(a, Then(b, rest)) == Then(a + b, rest)
  {
    assert a + (b + rest.0) == a + b + rest.0;
  }

  /** What a drain leaves blocked is valid and stuck. */
  lemma {:induction false} DrainBlocks(g: Grammar, p: Parser)
    requires p.Valid() && Drain(g, p).1.Blocked?
    ensures Drain(g, p).1.parser.Valid() && Stuck(Drain(g, p).1.parser)
    ensures |Drain(g, p).1.parser.buffer| <= |p.buffer|
    decreases |p.buffer|
  {
    ParseConsumes(g, p);
    var (out, q) := Parse(g, p);
    if out.Got? {
      DrainBlocks(g, q);
    }
  }

  // ---- Refinement -----------------------------------------------------------------------------

  /** `q` is the parser that has read exactly the open frame `tail`. */
  ghost predicate Represents(g: Grammar, q: Parser, tail: Bytes)
  {
    match q.state
    case WaitingForHeaders => q.buffer == tail && Find(tail, BLANK_LINE).None?
    case WaitingForBody(pending) =>
      match Find(tail, BLANK_LINE)
      case Some(i) => g.readHead(tail[..i]) == Ok(pending) && q.buffer == tail[i + 2..]
                      && |q.buffer| < pending.bodyLength
      case None => false
  }

  ghost predicate SameRun(g: Grammar, drained: (seq<Message>, Stop), framed: (seq<Message>, End))
  {
    drained.0 == framed.0
    && match drained.1
       case Blocked(q) => framed.1.Incomplete? && Represents(g, q, framed.1.tail)
       case Failure(e) => framed.1 == Failed(e)
  }

  function Fresh(s: Bytes): Parser { Parser(WaitingForHeaders, s) }

  /** One call on a fresh parser reads what the reference reads at the front of the stream. */
  lemma ParseIsFront(g: Grammar, s: Bytes)
    ensures match FrontFrame(g, s)
            case Frame(m, n) => Parse(g, Fresh(s)) == (Got(m), Fresh(s[n..]))
            case Bad(e) => Parse(g, Fresh(s)).0 == Error(e)
            case Short => Parse(g, Fresh(s)).0.NeedMore? && Represents(g, Parse(g, Fresh(s)).1, s)
  {
    match Find(s, BLANK_LINE)
    case None =>
    case Some(i) =>
      match g.readHead(s[..i])
      case Ok(p) =>
        var rest := s[i + 2..];
        if |rest| >= p.bodyLength {
          assert rest[..p.bodyLength] == s[i + 2..i + 2 + p.bodyLength];
          assert rest[p.bodyLength..] == s[i + 2 + p.bodyLength..];
        }
      case Err(_) =>
  }

  /** The resumable parser given the whole stream is the reference. */
  lemma {:induction false} DrainIsFrames(g: Grammar, s: Bytes)
    ensures SameRun(g, Drain(g, Fresh(s)), Frames(g, s))
    decreases |s|
  {
    ParseIsFront(g, s);
    match FrontFrame(g, s)
    case Frame(m, n) => DrainIsFrames(g, s[n..]);
    case _ =>
  }

  /** The reader's way: feed a chunk, check the size, drain, and go on to the next. */
  datatype Fed = Stopped(stop: Stop) | Overflow(size: nat)

  function FeedChunks(g: Grammar, p: Parser, chunks: seq<Bytes>): (r: (seq<Message>, Fed))
    requires p.Valid()
    decreases |chunks|
  {
    if chunks == [] then ([], Stopped(Blocked(p)))
    else
      var fed := p.Feed(chunks[0]);
      if |fed.buffer| > MAX_BUFFER_SIZE then ([], Overflow(|fed.buffer|))
      else match Drain(g, fed)
        case (ms, Failure(e)) => (ms, Stopped(Failure(e)))
        case (ms, Blocked(q)) =>
          DrainBlocks(g, fed);
          var (rest, stop) := FeedChunks(g, q, chunks[1..]);
          (ms + rest, stop)
  }

  lemma DrainOfStuck(g: Grammar, p: Parser)
    requires p.Valid() && Stuck(p)
    ensures Drain(g, p) == ([], Blocked(p))
  {
  }

  /** Feeding chunk by chunk is draining the concatenation at once. */
  lemma {:induction false} FeedChunksIsDrain(g: Grammar, p: Parser, chunks: seq<Bytes>)
    requires p.Valid() && Stuck(p)
    requires FeedChunks(g, p, chunks).1.Stopped?
    ensures Drain(g, p.Feed(Concat(chunks))) == (FeedChunks(g, p, chunks).0, FeedChunks(g, p, chunks).1.stop)
    decreases |chunks|
  {
    if chunks == [] {
      DrainOfStuck(g, p);
      assert p.buffer + Concat(chunks) == p.buffer;
    } else {
      var fed, rest := p.Feed(chunks[0]), Concat(chunks[1..]);
      assert p.buffer + Concat(chunks) == (p.buffer + chunks[0]) + rest;
      DrainAppend(g, fed, rest);
      match Drain(g, fed)
      case (_, Failure(_)) =>
      case (ms, Blocked(q)) =>
        DrainBlocks(g, fed);
        FeedChunksIsDrain(g, q, chunks[1..]);
    }
  }

  /** Whatever stops the feed, a size trip included, the messages so far are the first ones of the
      whole stream. */
  lemma {:induction false} FeedChunksPrefix(g: Grammar, p: Parser, chunks: seq<Bytes>)
    requires p.Valid() && Stuck(p)
    ensures FeedChunks(g, p, chunks).0 <= Drain(g, p.Feed(Concat(chunks))).0
    decreases |chunks|
  {
    if chunks != [] {
      var fed, rest := p.Feed(chunks[0]), Concat(chunks[1..]);
      assert p.buffer + Concat(chunks) == (p.buffer + chunks[0]) + rest;
      DrainAppend(g, fed, rest);
      match Drain(g, fed)
      case (_, Failure(_)) =>
      case (ms, Blocked(q)) =>
        DrainBlocks(g, fed);
        FeedChunksPrefix(g, q, chunks[1..]);
    }
  }

  /** Chunk independence: however a stream is cut, as long as no chunk trips the size limit, the
      messages, and the error that ends them if there is one, are those of the stream read at
      once; with no error, the parser holds exactly the stream's open frame. */
  lemma ChunkIndependence(g: Grammar, chunks: seq<Bytes>)
    requires FeedChunks(g, Fresh([]), chunks).1.Stopped?
    ensures var (ms, fed) := FeedChunks(g, Fresh([]), chunks);
            SameRun(g, (ms, fed.stop), Frames(g, Concat(chunks)))
  {
    FeedChunksIsDrain(g, Fresh([]), chunks);
    assert Fresh([]).Feed(Concat(chunks)) == Fresh(Concat(chunks));
    DrainIsFrames(g, Concat(chunks));
  }

  /** Any two cuts of the same stream agree. */
  lemma TwoCutsAgree(g: Grammar, a: seq<Bytes>, b: seq<Bytes>)
    requires Concat(a) == Concat(b)
    requires FeedChunks(g, Fresh([]), a).1.Stopped? && FeedChunks(g, Fresh([]), b).1.Stopped?
    ensures FeedChunks(g, Fresh([]), a) == FeedChunks(g, Fresh([]), b)
  {
    FeedChunksIsDrain(g, Fresh([]), a);
    FeedChunksIsDrain(g, Fresh([]), b);
  }

  /** Feeding a chunk that fits and does not fail, then the rest. */
  lemma FeedCons(g: Grammar, p: Parser, c: Bytes, rest: seq<Bytes>)
    requires p.Valid() && |p.Feed(c).buffer| <= MAX_BUFFER_SIZE && Drain(g, p.Feed(c)).1.Blocked?
    ensures var (ms, stop) := Drain(g, p.Feed(c));
            && stop.parser.Valid()
            && FeedChunks(g, p, [c] + rest) == Joined(ms, FeedChunks(g, stop.parser, rest))
  {
    DrainBlocks(g, p.Feed(c));
    assert ([c] + rest)[0] == c && ([c] + rest)[1..] == rest;
  }

  function Joined(left: seq<Message>, right: (seq<Message>, Fed)): (seq<Message>, Fed)
  {
    (left + right.0, right.1)
  }

  lemma JoinedAssociates(a: seq<Message>, b: seq<Message>, rest: (seq<Message>, Fed))
    ensures Joined(a, Joined(b, rest)) == Joined(a + b, rest)
    ensures Joined([], rest) == rest
  {
    assert a + (b + rest.0) == a + b + rest.0;
    assert [] + rest.0 == rest.0;
  }

  lemma {:induction false} FeedChunksSplit(g: Grammar, p: Parser, a: seq<Bytes>, b: seq<Bytes>)
    requires p.Valid() && FeedChunks(g, p, a).1.Stopped? && FeedChunks(g, p, a).1.stop.Blocked?
    ensures var (ms, fed) := FeedChunks(g, p, a);
            fed.stop.parser.Valid() && FeedChunks(g, p, a + b) == Joined(ms, FeedChunks(g, fed.stop.parser, b))
    decreases |a|
  {
    if a == [] {
      assert a + b == b;
      JoinedAssociates([], [], FeedChunks(g, p, b));
    } else {
      var (ms, stop) := Drain(g, p.Feed(a[0]));
      assert a == [a[0]] + a[1..] && a + b == [a[0]] + (a[1..] + b);
      FeedCons(g, p, a[0], a[1..]);
      FeedCons(g, p, a[0], a[1..] + b);
      FeedChunksSplit(g, stop.parser, a[1..], b);
      var (rest, end) := FeedChunks(g, stop.parser, a[1..]);
      JoinedAssociates(ms, rest, FeedChunks(g, end.stop.parser, b));
    }
  }

  /** A parser that passed every size check and drained holds at most the limit. */
  lemma {:induction false} FeedChunksBound(g: Grammar, p: Parser, chunks: seq<Bytes>)
    requires p.Valid() && Stuck(p) && |p.buffer| <= MAX_BUFFER_SIZE
    requires FeedChunks(g, p, chunks).1.Stopped? && FeedChunks(g, p, chunks).1.stop.Blocked?
    ensures var q := FeedChunks(g, p, chunks).1.stop.parser;
            q.Valid() && Stuck(q) && |q.buffer| <= MAX_BUFFER_SIZE
    decreases |chunks|
  {
    if chunks != [] {
      var fed := p.Feed(chunks[0]);
      DrainBlocks(g, fed);
      FeedChunksBound(g, Drain(g, fed).1.parser, chunks[1..]);
    }
  }

  /** Re-exec handover: a process that stops between messages leaves bytes that the next process
      adopts without tripping the size limit, and the two together see what one uninterrupted
      process sees, however both streams are cut and however the second ends. */
  lemma HandoverPreservesStream(g: Grammar, before: seq<Bytes>, after: seq<Bytes>)
    requires var fed := FeedChunks(g, Fresh([]), before).1;
             fed.Stopped? && fed.stop.Blocked? && fed.stop.parser.state.WaitingForHeaders?
    ensures var (ms, fed) := FeedChunks(g, Fresh([]), before);
            var residual := fed.stop.parser.buffer;
            var (ms', fed') := FeedChunks(g, Fresh([]), [residual] + after);
            && Find(residual, BLANK_LINE).None? && |residual| <= MAX_BUFFER_SIZE
            && FeedChunks(g, Fresh([]), before + after) == (ms + ms', fed')
  {
    FeedChunksBound(g, Fresh([]), before);
    FeedChunksSplit(g, Fresh([]), before, after);
    var q := FeedChunks(g, Fresh([]), before).1.stop.parser;
    DrainOfStuck(g, q);
    assert Fresh([]).Feed(q.buffer) == q;
    FeedCons(g, Fresh([]), q.buffer, after);
    JoinedAssociates([], [], FeedChunks(g, q, after));
  }

  /** `parts` are frames, each one read alone giving its own message. */
  ghost predicate AreFrames(g: Grammar, parts: seq<Bytes>, messages: seq<Message>)
  {
    |parts| == |messages|
    && forall i :: 0 <= i < |parts| ==> FrontFrame(g, parts[i]) == Frame(messages[i], |parts[i]|)
  }

  lemma FrontFrameAlone(g: Grammar, s: Bytes)
    requires FrontFrame(g, s).Frame?
    ensures FrontFrame(g, s[..FrontFrame(g, s).size]) == FrontFrame(g, s)
  {
    var n := FrontFrame(g, s).size;
    var i := Find(s, BLANK_LINE).value;
    FindInFront(s, n, BLANK_LINE, i);
    FrontSlices(s, n, i);
  }

  lemma FrontSlices(s: Bytes, n: nat, i: nat)
    requires i + 2 <= n <= |s|
    ensures s[..n][..i] == s[..i] && s[..n][i + 2..n] == s[i + 2..n]
  {
  }

  /** A match that fits in the front of a stream is found there. */
  lemma FindInFront(s: Bytes, n: nat, pat: Bytes, i: nat)
    requires Find(s, pat) == Some(i) && i + |pat| <= n <= |s|
    ensures Find(s[..n], pat) == Some(i)
  {
    var part, rest := s[..n], s[n..];
    assert s == part + rest;
    forall j: nat | j <= i ensures MatchAt(part, pat, j) == MatchAt(s, pat, j) {
      MatchInPrefix(part, rest, pat, j);
    }
    FindIs(part, pat, i);
  }

  /** Byte conservation: every stream is its frames laid end to end, each one read alone giving its own
      message, followed by the bytes where reading ends: those of the open frame, or those from the
      frame at fault on. */
  lemma {:induction false} FramesTile(g: Grammar, s: Bytes) returns (parts: seq<Bytes>, tail: Bytes)
    ensures s == Concat(parts) + tail
    ensures AreFrames(g, parts, Frames(g, s).0)
    ensures Frames(g, s).1 == if FrontFrame(g, tail).Bad? then Failed(FrontFrame(g, tail).error) else Incomplete(tail)
    ensures !FrontFrame(g, tail).Frame?
    decreases |s|
  {
    match FrontFrame(g, s)
    case Short => parts, tail := [], s;
    case Bad(_) => parts, tail := [], s;
    case Frame(m, n) =>
      var rest;
      rest, tail := FramesTile(g, s[n..]);
      FrontFrameAlone(g, s);
      parts := [s[..n]] + rest;
      ConcatCons(s[..n], rest);
      TileCons(s, n, Concat(rest), tail);
      AreFramesCons(g, s[..n], rest, m, Frames(g, s[n..]).0);
  }

  lemma TileCons(s: Bytes, n: nat, middle: Bytes, tail: Bytes)
    requires n <= |s| && s[n..] == middle + tail
    ensures s == (s[..n] + middle) + tail
  {
  }

  lemma AreFramesCons(g: Grammar, part: Bytes, parts: seq<Bytes>, m: Message, messages: seq<Message>)
    requires AreFrames(g, parts, messages) && FrontFrame(g, part) == Frame(m, |part|)
    ensures AreFrames(g, [part] + parts, [m] + messages)
  {
  }
}
