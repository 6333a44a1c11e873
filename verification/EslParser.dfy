/** The parser object: a watermarked buffer and a two-state machine, updated in place. */
module EslParser {
  import opened Bytes
  import opened HeaderBlock
  import opened Framer
  import EslBuffer
  import Utf8

  class Parser {
    const cfg: Config
    const buffer: EslBuffer.Buffer
    var state: ParseState
    /** Every byte accepted so far, and those already taken out of the buffer. */
    ghost var fed: Bytes
    ghost var consumed: Bytes

    ghost predicate Valid()
      reads this, buffer
    {
      buffer.Valid(BLANK_LINE) && Value().Valid() && fed == consumed + buffer.buffer
    }

    /** The parser as a value of the framing model. */
    ghost function Value(): Framer.Parser
      reads this, buffer
    {
      Framer.Parser(state, buffer.buffer)
    }

    constructor (cfg: Config)
      ensures Valid() && fresh(buffer) && this.cfg == cfg
      ensures Value() == Fresh([]) && fed == [] && consumed == []
    {
      this.cfg := cfg;
      buffer := new EslBuffer.Buffer();
      state := WaitingForHeaders;
      fed, consumed := [], [];
    }

    method RemainingBytes() returns (r: Bytes)
      requires Valid()
      ensures r == Value().buffer && fed == consumed + r
    {
      r := buffer.buffer;
    }

    method IsWaitingForHeaders() returns (r: bool)
      ensures r <==> Value().state == WaitingForHeaders
    {
      r := state.WaitingForHeaders?;
    }

    /** Accepts the bytes and then complains if the buffer has grown past its limit. */
    method AddData(data: Bytes) returns (r: Result<(), EslError>)
      requires Valid()
      modifies this, buffer
      ensures Valid() && Value() == old(Value()).Feed(data)
      ensures fed == old(fed) + data && consumed == old(consumed)
      ensures r == if |Value().buffer| > MAX_BUFFER_SIZE then Err(BufferOverflow(|Value().buffer|)) else Ok(())
    {
      buffer.ExtendFromSlice(data, BLANK_LINE);
      fed := fed + data;
      r := buffer.CheckSizeLimits();
    }

    /** `parse_message` is the framing model's `Parse`, in result and in the parser it leaves,
        and moves bytes only from the buffer to the consumed side. */
    method ParseMessage() returns (r: Parsed)
      requires Valid()
      modifies this, buffer
      ensures Valid()
      ensures (r, Value()) == Parse(Esl(cfg), old(Value()))
      ensures fed == old(fed) && old(consumed) <= consumed
      ensures !r.NeedMore? ==> |Value().buffer| < |old(Value()).buffer|
    {
      ParseConsumes(Esl(cfg), Value());
      match state {
        case WaitingForHeaders =>
          r := ParseHeaderFrame();
        case WaitingForBody(pending) =>
          state := WaitingForHeaders;
          r := ParseBodyFrame(pending);
      }
    }

    method ReadHeaders(block: Bytes) returns (r: Result<PendingBody, EslError>)
      ensures r == Esl(cfg).readHead(block)
    {
      if !Utf8.Valid(block) {
        return Err(HeadersNotUtf8);
      }
      var decoded := DecodeHeaderBlock(cfg, block, false);
      match decoded {
        case Err(e) => return Err(e);
        case Ok(d) =>
          var contentType := Get(d.headers, HEADER_CONTENT_TYPE);
          if contentType.None? {
            return Err(MissingContentType);
          }
          var messageType := FromContentType(contentType.value);
          if messageType.Err? {
            return Err(messageType.error);
          }
          var length := ReadLength(d.headers);
          if length.Err? {
            return Err(length.error);
          }
          return Ok(PendingBody(messageType.value, d.headers, length.value, d.lossy));
      }
    }

    /** Takes a complete header block out of the buffer, if there is one. */
    method TakeBlock() returns (block: Option<Bytes>)
      requires Valid() && state.WaitingForHeaders?
      modifies this, buffer
      ensures Valid() && state.WaitingForHeaders? && fed == old(fed) && old(consumed) <= consumed
      ensures Find(old(buffer.buffer), BLANK_LINE).None? ==> block.None? && buffer.buffer == old(buffer.buffer)
      ensures Find(old(buffer.buffer), BLANK_LINE).Some? ==>
                var i := Find(old(buffer.buffer), BLANK_LINE).value;
                block == Some(old(buffer.buffer)[..i]) && buffer.buffer == old(buffer.buffer)[i + 2..]
    {
      block := buffer.ExtractUntilPattern(BLANK_LINE);
      if block.Some? {
        buffer.Compact(BLANK_LINE);
        consumed := consumed + block.value + BLANK_LINE;
      }
    }

    method ParseHeaderFrame() returns (r: Parsed)
      requires Valid() && state.WaitingForHeaders?
      modifies this, buffer
      ensures Valid()
      ensures (r, Value()) == Framer.ParseHeaderFrame(Esl(cfg), old(buffer.buffer))
      ensures fed == old(fed) && old(consumed) <= consumed
    {
      var block := TakeBlock();
      if block.None? {
        return NeedMore;
      }
      var head := ReadHeaders(block.value);
      r := AfterHead(head);
    }

    /** What follows a header block: its error, a message with no body, or the body. */
    method AfterHead(head: Result<PendingBody, EslError>) returns (r: Parsed)
      requires Valid() && state.WaitingForHeaders?
      modifies this, buffer
      ensures Valid()
      ensures (r, Value()) == Framer.AfterHead(Esl(cfg), head, old(buffer.buffer))
      ensures fed == old(fed) && old(consumed) <= consumed
    {
      if head.Err? {
        return Error(head.error);
      }
      var pending := head.value;
      if pending.bodyLength > MAX_MESSAGE_SIZE {
        return Error(MessageTooLarge(pending.bodyLength));
      }
      if pending.bodyLength == 0 {
        return Got(WithoutBody(pending));
      }
      r := ParseBodyFrame(pending);
    }

    method ParseBodyFrame(pending: PendingBody) returns (r: Parsed)
      requires Valid() && state.WaitingForHeaders?
      requires 0 < pending.bodyLength <= MAX_MESSAGE_SIZE
      modifies this, buffer
      ensures Valid()
      ensures (r, Value()) == Framer.ParseBodyFrame(Esl(cfg), pending, old(buffer.buffer))
      ensures fed == old(fed) && old(consumed) <= consumed
    {
      var body := buffer.ExtractBytes(pending.bodyLength, BLANK_LINE);
      if body.None? {
        state := WaitingForBody(pending);
        return NeedMore;
      }
      buffer.Compact(BLANK_LINE);
      consumed := consumed + body.value;
      var message := FinishBody(cfg, pending, body.value);
      assert message == Esl(cfg).finishBody(pending, body.value);
      match message {
        case Ok(m) => return Got(m);
        case Err(e) => return Error(e);
      }
    }

    /** `drain_buffer`: what the salvage path calls between messages. */
    method DrainBuffer()
      requires Valid() && state.WaitingForHeaders?
      modifies this, buffer
      ensures Valid() && Value() == Fresh([]) && fed == old(fed) && consumed == fed
    {
      consumed := fed;
      buffer.Clear(BLANK_LINE);
      buffer.Compact(BLANK_LINE);
    }
  }
}
