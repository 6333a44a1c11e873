/** Plain events: a serialized header block, a blank line, and an inner body. */
module EventFormat {
  import opened Bytes
  import Utf8
  import opened HeaderKeys
  import opened HeaderBlock
  import Framer

  datatype EslEvent = EslEvent(
    headers: Headers,
    body: Option<Bytes>,
    rawBody: Option<Bytes>,
    lossy: seq<LossyValue>)

  /** `decode_serialized_event`; an empty inner body is no body. */
  function DecodeSerialized(cfg: Config, payload: Bytes, skipUndef: bool): Result<EslEvent, EslError>
  {
    var (section, inner) := Utf8.SplitBlankLine(payload);
    match DecodeBlock(cfg, section, skipUndef)
    case Err(e) => Err(e)
    case Ok(Decoded(headers, lossy)) => Ok(EslEvent(headers, NonEmpty(inner), None, lossy))
  }

  function NonEmpty(body: Option<Bytes>): Option<Bytes>
  {
    if body == Some([]) then None else body
  }

  datatype PlainEventError = NotAnEvent | MissingBody | Undecodable(error: EslError)

  /** The inner body's wire bytes: the tail of a kept raw body, if the event has an inner body. */
  function InnerRaw(event: EslEvent, raw: Option<Bytes>): Option<Bytes>
  {
    if event.body.Some? && raw.Some? then Utf8.SplitBlankLine(raw.value).1 else None
  }

  /** The event a message stands for. */
  function PlainEvent(cfg: Config, message: Framer.Message): Result<EslEvent, PlainEventError>
  {
    if message.messageType != Framer.Event then Err(NotAnEvent)
    else if message.body.None? then Err(MissingBody)
    else match DecodeSerialized(cfg, message.body.value, false)
      case Err(e) => Err(Undecodable(e))
      case Ok(event) =>
        Ok(event.(lossy := message.lossy + event.lossy, rawBody := InnerRaw(event, message.rawBody)))
  }

  /** `parse_plain_event`: refused for exactly three reasons; otherwise the decoded payload, with the
      raw inner body where the source finds it. */
  method ParsePlainEvent(cfg: Config, message: Framer.Message) returns (r: Result<EslEvent, PlainEventError>)
    ensures r == PlainEvent(cfg, message)
    ensures r.Err? && r.error == NotAnEvent <==> message.messageType != Framer.Event
    ensures r.Err? && r.error == MissingBody <==> message.messageType == Framer.Event && message.body.None?
    ensures message.messageType == Framer.Event && message.body.Some? ==>
              var decoded := DecodeSerialized(cfg, message.body.value, false);
              (decoded.Err? ==> r == Err(Undecodable(decoded.error))) && (decoded.Ok? ==> r.Ok?)
    ensures r.Ok? ==> message.body.Some? && SameBut(r.value, cfg, message)
    ensures r.Ok? && message.rawBody.Some? && message.body == Some(Utf8.Lossy(message.rawBody.value)) ==>
              CarriesTail(r.value, message.rawBody.value)
    ensures r.Ok? && message.rawBody.None? ==> r.value.rawBody.None?
  {
    if message.messageType != Framer.Event {
      return Err(NotAnEvent);
    }
    if message.body.None? {
      return Err(MissingBody);
    }
    var decoded := DecodeSerialized(cfg, message.body.value, false);
    if decoded.Err? {
      return Err(Undecodable(decoded.error));
    }
    var event := decoded.value;
    var innerRaw: Option<Bytes> := None;
    if event.body.Some? && message.rawBody.Some? {
      var raw := message.rawBody.value;
      var pos := Find(raw, BLANK_LINE);
      if pos.Some? {
        innerRaw := Some(raw[pos.value + 2..]);
      }
    }
    if message.rawBody.Some? {
      TailOfLossy(message.rawBody.value);
    }
    r := Ok(event.(lossy := message.lossy + event.lossy, rawBody := innerRaw));
  }

  /** The event is the decoded body, with the envelope's lossy record in front of its own. */
  ghost predicate SameBut(event: EslEvent, cfg: Config, message: Framer.Message)
    requires message.body.Some?
  {
    var decoded := DecodeSerialized(cfg, message.body.value, false);
    decoded.Ok? && event.headers == decoded.value.headers && event.body == decoded.value.body
    && event.lossy == message.lossy + decoded.value.lossy
  }

  /** The event's raw body is the tail of `raw` after its first blank line, and its body is that
      tail's decoding; with no inner body there is no raw body either. */
  ghost predicate CarriesTail(event: EslEvent, raw: Bytes)
  {
    var (_, tail) := Utf8.SplitBlankLine(raw);
    if event.body.Some? then
      tail.Some? && event.rawBody == tail && event.body == Some(Utf8.Lossy(tail.value))
    else event.rawBody.None? && NonEmpty(tail).None?
  }

  lemma TailOfLossy(raw: Bytes)
    ensures var (_, tail) := Utf8.SplitBlankLine(raw);
            var (_, inner) := Utf8.SplitBlankLine(Utf8.Lossy(raw));
            && tail.Some? == inner.Some?
            && (tail.Some? ==> inner.value == Utf8.Lossy(tail.value) && (inner.value == [] <==> tail.value == []))
  {
    Utf8.LossyCommutesWithSplit(raw);
    var (_, tail) := Utf8.SplitBlankLine(raw);
    if tail.Some? {
      Utf8.LossyNeverShorter(tail.value);
    }
  }

  /** A payload's header section, and its inner body, empty if there is none. */
  function Section(raw: Bytes): Bytes { Utf8.SplitBlankLine(raw).0 }

  function Inner(raw: Bytes): Bytes
  {
    var tail := Utf8.SplitBlankLine(raw).1;
    if tail.Some? then tail.value else []
  }

  /** The event the client makes of a payload that arrived as the body of `p`: the body decoded, then
      the event parsed. `None` if either refuses. */
  function EventFrom(cfg: Config, p: Framer.PendingBody, raw: Bytes): Option<EslEvent>
  {
    match Framer.FinishBody(cfg, p, raw)
    case Err(_) => None
    case Ok(message) =>
      match PlainEvent(cfg, message)
      case Err(_) => None
      case Ok(event) => Some(event)
  }

  /** A payload is text exactly when its header section and its inner body are. */
  lemma TextInParts(raw: Bytes)
    ensures Utf8.Valid(raw) <==> Utf8.Valid(Section(raw)) && Utf8.Valid(Inner(raw))
  {
    var (section, tail) := Utf8.SplitBlankLine(raw);
    if tail.Some? {
      Utf8.BlankLineIsTwoNewlines(section, tail.value);
      Utf8.ValidSplitsAtAscii(section, '\n', ['\n'] + tail.value);
      Utf8.ChunkOfAscii('\n', tail.value);
    }
  }

  /** Every event keeps the inner body's wire bytes exactly when there is an inner body and the whole
      payload was ill-formed. So a kept raw body means an ill-formed inner body, and the absence of
      one a well-formed inner body, if and only if the inner body is empty, the header section is
      well formed, or the inner body is not. */
  lemma RawBodyFlagsInnerIff(cfg: Config, p: Framer.PendingBody, raw: Bytes)
    requires EventFrom(cfg, p, raw).Some?
    ensures var kept := EventFrom(cfg, p, raw).value.rawBody;
            && kept == (if Inner(raw) != [] && !Utf8.Valid(raw) then Some(Inner(raw)) else None)
            && ((kept.Some? <==> !Utf8.Valid(Inner(raw))) <==>
                Inner(raw) == [] || Utf8.Valid(Section(raw)) || !Utf8.Valid(Inner(raw)))
  {
    TailOfLossy(raw);
    TextInParts(raw);
  }

  /** A field as it reads once its line is decoded. */
  function Shown(f: Field): Field { Field(Utf8.Lossy(f.key), Utf8.Lossy(f.raw)) }

  lemma ShownFits(f: Field)
    requires Wire(f)
    ensures Wire(Shown(f))
  {
    Utf8.LossyKeepsAbsence(f.key, ':');
    Utf8.LossyKeepsAbsence(f.key, '\r');
    Utf8.LossyKeepsAbsence(f.key, '\n');
    Utf8.LossyKeepsAbsence(f.raw, '\r');
    Utf8.LossyKeepsAbsence(f.raw, '\n');
  }

  lemma RenderLineIs(f: Field)
    ensures RenderLine(f) == f.key + [':'] + ([' '] + f.raw)
  {}

  /** Decoding a field's line decodes its name and its value. */
  lemma LossyLine(f: Field)
    ensures Utf8.Lossy(RenderLine(f)) == RenderLine(Shown(f))
  {
    RenderLineIs(f);
    RenderLineIs(Shown(f));
    Utf8.LossySplitsAtAscii(f.key, ':', [' '] + f.raw);
    Utf8.ChunkOfAscii(' ', f.raw);
  }

  /** One field, a blank line and an inner body make the field's payload. */
  lemma OneFieldRendered(f: Field, body: Bytes)
    ensures RenderLine(f) + BLANK_LINE + body == Render([f]) + ['\n'] + body && RenderHead([f]) == RenderLine(f)
  {
    assert Render([f]) == RenderLine(f) + ['\n'] + Render([]);
  }

  /** The payload of one field and an inner body, and what its decoding is cut into. */
  lemma OneFieldPayload(f: Field, body: Bytes)
    requires Wire(f)
    ensures var raw := RenderLine(f) + BLANK_LINE + body;
            && Section(raw) == RenderLine(f) && Inner(raw) == body
            && Utf8.Lossy(raw) == Utf8.Lossy(RenderLine(f)) + BLANK_LINE + Utf8.Lossy(body)
  {
    assert AllWire([f]);
    OneFieldRendered(f, body);
    RenderSplits([f], body);
    Utf8.LossyAroundBlankLine(RenderLine(f), body);
  }

  /** Unless strict, an event whose payload's text decodes is delivered with that body. */
  lemma EventOfText(cfg: Config, p: Framer.PendingBody, raw: Bytes, decoded: EslEvent)
    requires !cfg.strict && p.messageType == Framer.Event && DecodeSerialized(cfg, Utf8.Lossy(raw), false) == Ok(decoded)
    ensures EventFrom(cfg, p, raw).Some? && EventFrom(cfg, p, raw).value.body == decoded.body
  {
  }

  /** One header whose line is ill-formed makes the client flag every inner body, however fine. */
  lemma IllFormedHeaderFlags(cfg: Config, p: Framer.PendingBody, f: Field, body: Bytes)
    requires !cfg.strict && p.messageType == Framer.Event
    requires Wire(f) && !Utf8.Valid(RenderLine(f)) && body != [] && Utf8.Valid(body)
    ensures var event := EventFrom(cfg, p, RenderLine(f) + BLANK_LINE + body);
            event.Some? && event.value.body == Some(body) && event.value.rawBody == Some(body)
  {
    var raw := RenderLine(f) + BLANK_LINE + body;
    var decoded := OneFieldDecodes(cfg, f, body);
    EventOfText(cfg, p, raw, decoded);
    OneFieldPayload(f, body);
    TextInParts(raw);
    RawBodyFlagsInnerIff(cfg, p, raw);
  }

  lemma OneFieldDecodes(cfg: Config, f: Field, body: Bytes) returns (decoded: EslEvent)
    requires !cfg.strict && Wire(f) && body != [] && Utf8.Valid(body)
    ensures DecodeSerialized(cfg, Utf8.Lossy(RenderLine(f) + BLANK_LINE + body), false) == Ok(decoded)
    ensures decoded.body == Some(body)
  {
    var shown := Shown(f);
    OneFieldPayload(f, body);
    LossyLine(f);
    ShownFits(f);
    OneFieldRendered(shown, body);
    Utf8.LossyOfValid(body);
    assert AllWire([shown]);
    SerializedRoundTrip(cfg, [shown], body, false);
    decoded := EslEvent(Expected(cfg.known, [shown], false), NonEmpty(Some(body)), None, Recorded(cfg.known, [shown]));
  }

  /** For instance a Latin-1 byte in a header value. */
  lemma RawBodyFlagsFineBody(cfg: Config, p: Framer.PendingBody, body: Bytes)
    requires !cfg.strict && p.messageType == Framer.Event && body != [] && Utf8.Valid(body)
    ensures var event := EventFrom(cfg, p, "k: \U{00E9}" + BLANK_LINE + body);
            event.Some? && event.value.body == Some(body) && event.value.rawBody == Some(body)
  {
    LatinLineIllFormed();
    IllFormedHeaderFlags(cfg, p, Field("k", "\U{00E9}"), body);
  }

  lemma LatinLineIllFormed()
    ensures RenderLine(Field("k", "\U{00E9}")) == "k: \U{00E9}" && !Utf8.Valid("k: \U{00E9}")
  {
    assert "k: \U{00E9}" == "k:" + [' '] + "\U{00E9}";
    assert !Utf8.Valid("\U{00E9}");
    Utf8.ValidSplitsAtAscii("k:", ' ', "\U{00E9}");
  }

  // ---- Serialisation round trip ----------------------------------------------------------------

  /** A header as written: its name and its percent-encoded value. */
  datatype Field = Field(key: Bytes, raw: Bytes)

  predicate Wire(f: Field)
  {
    && ':' !in f.key && '\r' !in f.key && '\n' !in f.key
    && '\r' !in f.raw && '\n' !in f.raw
  }

  function RenderLine(f: Field): Bytes { f.key + ": " + f.raw }

  /** `Key: value` lines, each closed by a newline. */
  function Render(fields: seq<Field>): Bytes
  {
    if fields == [] then [] else RenderLine(fields[0]) + ['\n'] + Render(fields[1..])
  }

  /** The same lines with the last newline left to the blank line that follows. */
  function RenderHead(fields: seq<Field>): Bytes
    requires fields != []
  {
    if |fields| == 1 then RenderLine(fields[0]) else RenderLine(fields[0]) + ['\n'] + RenderHead(fields[1..])
  }

  ghost predicate DistinctKeys(known: seq<Bytes>, fields: seq<Field>)
  {
    forall i, j :: 0 <= i < j < |fields| ==> Normalize(known, fields[i].key) != Normalize(known, fields[j].key)
  }

  /** The value a field stands for: its decoded bytes, as text. */
  function ValueOf(f: Field): Bytes { Utf8.Lossy(PercentDecode(f.raw)) }

  /** Whether the decoded bytes are text as they are. */
  predicate IsText(f: Field) { Utf8.Valid(PercentDecode(f.raw)) }

  /** Strict decoding takes only fields that are text. */
  ghost predicate Readable(cfg: Config, fields: seq<Field>)
  {
    cfg.strict ==> forall i :: 0 <= i < |fields| ==> IsText(fields[i])
  }

  /** What one field leaves in the lossy record, and what all of them leave, in order. */
  function LossyIn(known: seq<Bytes>, f: Field): seq<LossyValue>
  {
    if IsText(f) then [] else [LossyValue(Normalize(known, f.key), f.raw)]
  }

  function Recorded(known: seq<Bytes>, fields: seq<Field>): seq<LossyValue>
  {
    if fields == [] then [] else LossyIn(known, fields[0]) + Recorded(known, fields[1..])
  }

  /** What one field leaves among the headers. */
  function Kept(known: seq<Bytes>, f: Field, skipUndef: bool): Headers
  {
    var value := ValueOf(f);
    if skipUndef && value == UNDEF_VALUE then [] else [(Normalize(known, f.key), value)]
  }

  /** The headers decoding should give back. */
  function Expected(known: seq<Bytes>, fields: seq<Field>, skipUndef: bool): Headers
  {
    if fields == [] then [] else Kept(known, fields[0], skipUndef) + Expected(known, fields[1..], skipUndef)
  }

  lemma LineFacts(f: Field)
    requires Wire(f)
    ensures '\n' !in RenderLine(f) && RenderLine(f) != [] && RenderLine(f)[0] != '\n' && StripCr(RenderLine(f)) == RenderLine(f)
  {
    var line := RenderLine(f);
    assert line[|f.key|] == ':';
    assert line[|line| - 1] == if f.raw == [] then ' ' else f.raw[|f.raw| - 1];
  }

  function StripSpace(s: Bytes): Bytes
  {
    if s != [] && s[0] == ' ' then s[1..] else s
  }

  /** A line that does not end in a carriage return parses at its first colon. */
  lemma PairParses(known: seq<Bytes>, key: Bytes, tail: Bytes)
    requires ':' !in key && (tail != [] ==> tail[|tail| - 1] != '\r')
    ensures ParseHeaderLine(known, key + [':'] + tail) == Ok(Some((Normalize(known, key), StripSpace(tail))))
  {
    var line := key + [':'] + tail;
    FirstIndexIs(key, ':', tail);
    assert line[|line| - 1] == if tail == [] then ':' else tail[|tail| - 1];
    assert line[|key| + 1..] == tail && line[..|key|] == key;
  }

  lemma LineParses(known: seq<Bytes>, f: Field)
    requires Wire(f)
    ensures ParseHeaderLine(known, RenderLine(f)) == Ok(Some((Normalize(known, f.key), f.raw)))
  {
    var tail := [' '] + f.raw;
    assert RenderLine(f) == f.key + [':'] + tail;
    assert f.raw != [] ==> f.raw[|f.raw| - 1] != '\r';
    assert tail[|tail| - 1] == if f.raw == [] then ' ' else f.raw[|f.raw| - 1];
    PairParses(known, f.key, tail);
  }

  lemma LinesCons(line: Bytes, rest: Bytes)
    requires '\n' !in line && StripCr(line) == line
    ensures Lines(line + ['\n'] + rest) == [line] + Lines(rest)
    ensures line != [] ==> Lines(line) == [line]
  {
    FirstIndexIs(line, '\n', rest);
    var s := line + ['\n'] + rest;
    assert s[..|line|] == line && s[|line| + 1..] == rest;
  }

  function RenderedLines(fields: seq<Field>): seq<Bytes>
  {
    if fields == [] then [] else [RenderLine(fields[0])] + RenderedLines(fields[1..])
  }

  ghost predicate AllWire(fields: seq<Field>)
  {
    forall i :: 0 <= i < |fields| ==> Wire(fields[i])
  }

  lemma {:induction false} LinesOfRender(fields: seq<Field>)
    requires AllWire(fields)
    ensures Lines(Render(fields)) == RenderedLines(fields)
    ensures fields != [] ==> Lines(RenderHead(fields)) == RenderedLines(fields)
    ensures fields != [] ==> Render(fields) == RenderHead(fields) + ['\n']
  {
    if fields != [] {
      var line, rest := RenderLine(fields[0]), fields[1..];
      LineFacts(fields[0]);
      LinesOfRender(rest);
      LinesCons(line, Render(rest));
      if rest != [] {
        LinesCons(line, RenderHead(rest));
      }
      HeadIsAllButNewline(fields);
    }
  }

  lemma HeadIsAllButNewline(fields: seq<Field>)
    requires fields != []
    requires |fields| > 1 ==> Render(fields[1..]) == RenderHead(fields[1..]) + ['\n']
    ensures Render(fields) == RenderHead(fields) + ['\n']
  {
    var line := RenderLine(fields[0]) + ['\n'];
    if |fields| == 1 {
      assert fields[1..] == [] && line + [] == line;
    } else {
      Associate(line, RenderHead(fields[1..]), ['\n']);
    }
  }

  lemma {:induction false} RenderNoBlankLine(fields: seq<Field>)
    requires AllWire(fields)
    ensures Find(Render(fields), BLANK_LINE).None?
    ensures Render(fields) != [] ==> Render(fields)[0] != '\n'
  {
    if fields != [] {
      LineFacts(fields[0]);
      RenderNoBlankLine(fields[1..]);
      NoBlankLineAcross(RenderLine(fields[0]), Render(fields[1..]));
    }
  }

  lemma StoreFresh(cfg: Config, f: Field, skipUndef: bool, acc: Decoded)
    requires Readable(cfg, [f]) && !HasKey(acc.headers, Normalize(cfg.known, f.key))
    ensures Store(cfg, Normalize(cfg.known, f.key), f.raw, skipUndef, acc)
            == Ok(Decoded(acc.headers + Kept(cfg.known, f, skipUndef), acc.lossy + LossyIn(cfg.known, f)))
  {
    var key, value := Normalize(cfg.known, f.key), ValueOf(f);
    InsertFresh(acc.headers, key, value);
    assert acc.headers + [] == acc.headers;
    assert cfg.strict ==> IsText([f][0]);
    if IsText(f) {
      Utf8.LossyOfValid(PercentDecode(f.raw));
    }
  }

  lemma DecodeRenderedLine(cfg: Config, f: Field, skipUndef: bool, acc: Decoded)
    requires Wire(f) && Readable(cfg, [f]) && !HasKey(acc.headers, Normalize(cfg.known, f.key))
    ensures DecodeLine(cfg, RenderLine(f), skipUndef, acc)
            == Ok(Decoded(acc.headers + Kept(cfg.known, f, skipUndef), acc.lossy + LossyIn(cfg.known, f)))
  {
    LineParses(cfg.known, f);
    StoreFresh(cfg, f, skipUndef, acc);
  }

  lemma {:induction false} DecodeRendered(cfg: Config, fields: seq<Field>, skipUndef: bool, acc: Decoded)
    requires AllWire(fields) && Readable(cfg, fields) && DistinctKeys(cfg.known, fields)
    requires forall i :: 0 <= i < |fields| ==> !HasKey(acc.headers, Normalize(cfg.known, fields[i].key))
    ensures DecodeLines(cfg, RenderedLines(fields), skipUndef, acc)
            == Ok(Decoded(acc.headers + Expected(cfg.known, fields, skipUndef), acc.lossy + Recorded(cfg.known, fields)))
    decreases |fields|
  {
    if fields == [] {
      assert acc.headers + [] == acc.headers && acc.lossy + [] == acc.lossy;
    } else {
      var f, rest := fields[0], fields[1..];
      var kept, lossy := Kept(cfg.known, f, skipUndef), LossyIn(cfg.known, f);
      assert Readable(cfg, [f]);
      DecodeRenderedLine(cfg, f, skipUndef, acc);
      KeysStayFresh(cfg.known, fields, skipUndef, acc.headers);
      DecodeRendered(cfg, rest, skipUndef, Decoded(acc.headers + kept, acc.lossy + lossy));
      Associate(acc.headers, kept, Expected(cfg.known, rest, skipUndef));
      Associate(acc.lossy, lossy, Recorded(cfg.known, rest));
    }
  }

  /** Decoding a rendered block from nothing. */
  lemma DecodeAll(cfg: Config, fields: seq<Field>, skipUndef: bool)
    requires AllWire(fields) && Readable(cfg, fields) && DistinctKeys(cfg.known, fields)
    ensures DecodeLines(cfg, RenderedLines(fields), skipUndef, Decoded([], []))
            == Ok(Decoded(Expected(cfg.known, fields, skipUndef), Recorded(cfg.known, fields)))
  {
    DecodeRendered(cfg, fields, skipUndef, Decoded([], []));
    assert [] + Expected(cfg.known, fields, skipUndef) == Expected(cfg.known, fields, skipUndef);
    assert [] + Recorded(cfg.known, fields) == Recorded(cfg.known, fields);
  }

  /** So does the block they came from, with or without its last newline. */
  lemma RenderDecodes(cfg: Config, fields: seq<Field>, skipUndef: bool)
    requires AllWire(fields) && Readable(cfg, fields) && DistinctKeys(cfg.known, fields)
    ensures var decoded := Ok(Decoded(Expected(cfg.known, fields, skipUndef), Recorded(cfg.known, fields)));
            && DecodeBlock(cfg, Render(fields), skipUndef) == decoded
            && (fields != [] ==> DecodeBlock(cfg, RenderHead(fields), skipUndef) == decoded)
  {
    LinesOfRender(fields);
    DecodeAll(cfg, fields, skipUndef);
  }

  /** Each field is found under its canonical key. */
  lemma {:induction false} GetExpected(known: seq<Bytes>, fields: seq<Field>, rest: Headers, j: nat)
    requires j < |fields| && DistinctKeys(known, fields)
    ensures Get(Expected(known, fields, false) + rest, Normalize(known, fields[j].key))
            == Some(ValueOf(fields[j]))
    decreases |fields|
  {
    var all := Expected(known, fields, false) + rest;
    assert all[0] == (Normalize(known, fields[0].key), ValueOf(fields[0]));
    assert all[1..] == Expected(known, fields[1..], false) + rest;
    if j > 0 {
      assert Normalize(known, fields[0].key) != Normalize(known, fields[j].key);
      GetExpected(known, fields[1..], rest, j - 1);
    }
  }

  /** The first field that is not text is `f`, after fields that fit on their lines. */
  predicate FirstNotText(fields: seq<Field>, f: Field)
  {
    fields != [] && Wire(fields[0]) && (if IsText(fields[0]) then FirstNotText(fields[1..], f) else fields[0] == f)
  }

  lemma {:induction false} FirstNotTextIs(fields: seq<Field>, bad: nat)
    requires AllWire(fields) && bad < |fields| && !IsText(fields[bad])
    requires forall i :: 0 <= i < bad ==> IsText(fields[i])
    ensures FirstNotText(fields, fields[bad])
    decreases bad
  {
    if bad > 0 {
      assert forall i :: 1 <= i < |fields| ==> fields[i] == fields[1..][i - 1];
      FirstNotTextIs(fields[1..], bad - 1);
    }
  }

  /** Strict decoding refuses at the first field that is not text, and names it. */
  lemma StrictRefuses(cfg: Config, fields: seq<Field>, skipUndef: bool, acc: Decoded, bad: nat)
    requires cfg.strict && AllWire(fields) && bad < |fields| && !IsText(fields[bad])
    requires forall i :: 0 <= i < bad ==> IsText(fields[i])
    ensures DecodeLines(cfg, RenderedLines(fields), skipUndef, acc)
            == Err(InvalidUtf8InHeader(Normalize(cfg.known, fields[bad].key)))
  {
    FirstNotTextIs(fields, bad);
    StrictRefusesAt(cfg, fields, skipUndef, acc, fields[bad]);
  }

  lemma {:induction false} StrictRefusesAt(cfg: Config, fields: seq<Field>, skipUndef: bool, acc: Decoded, f: Field)
    requires cfg.strict && FirstNotText(fields, f)
    ensures StrictOutcome(cfg, fields, skipUndef, acc) == Err(InvalidUtf8InHeader(Normalize(cfg.known, f.key)))
    decreases |fields|
  {
    if IsText(fields[0]) {
      var next := StrictGoesOn(cfg, fields, skipUndef, acc);
      StrictRefusesAt(cfg, fields[1..], skipUndef, next, f);
    } else {
      StrictStops(cfg, fields, skipUndef, acc);
    }
  }

  function StrictOutcome(cfg: Config, fields: seq<Field>, skipUndef: bool, acc: Decoded): Result<Decoded, EslError>
  {
    DecodeLines(cfg, RenderedLines(fields), skipUndef, acc)
  }

  /** A field that is not text ends the block. */
  lemma StrictStops(cfg: Config, fields: seq<Field>, skipUndef: bool, acc: Decoded)
    requires cfg.strict && fields != [] && Wire(fields[0]) && !IsText(fields[0])
    ensures StrictOutcome(cfg, fields, skipUndef, acc) == Err(InvalidUtf8InHeader(Normalize(cfg.known, fields[0].key)))
  {
    var f, lines := fields[0], RenderedLines(fields[1..]);
    StrictLine(cfg, f, skipUndef, acc);
    DecodeCons(cfg, RenderLine(f), lines, skipUndef, acc);
  }

  /** One that is text leaves the rest to decide. */
  lemma StrictGoesOn(cfg: Config, fields: seq<Field>, skipUndef: bool, acc: Decoded) returns (next: Decoded)
    requires cfg.strict && fields != [] && Wire(fields[0]) && IsText(fields[0])
    ensures StrictOutcome(cfg, fields, skipUndef, acc) == StrictOutcome(cfg, fields[1..], skipUndef, next)
  {
    var f, lines := fields[0], RenderedLines(fields[1..]);
    StrictLine(cfg, f, skipUndef, acc);
    DecodeCons(cfg, RenderLine(f), lines, skipUndef, acc);
    next := DecodeLine(cfg, RenderLine(f), skipUndef, acc).value;
  }

  lemma DecodeCons(cfg: Config, line: Bytes, lines: seq<Bytes>, skipUndef: bool, acc: Decoded)
    ensures var r := DecodeLine(cfg, line, skipUndef, acc);
            DecodeLines(cfg, [line] + lines, skipUndef, acc)
            == if r.Ok? then DecodeLines(cfg, lines, skipUndef, r.value) else Err(r.error)
  {
    assert ([line] + lines)[0] == line && ([line] + lines)[1..] == lines;
  }

  lemma StrictLine(cfg: Config, f: Field, skipUndef: bool, acc: Decoded)
    requires cfg.strict && Wire(f)
    ensures var r := DecodeLine(cfg, RenderLine(f), skipUndef, acc);
            if IsText(f) then r.Ok? else r == Err(InvalidUtf8InHeader(Normalize(cfg.known, f.key)))
  {
    LineParses(cfg.known, f);
  }

  lemma KeysStayFresh(known: seq<Bytes>, fields: seq<Field>, skipUndef: bool, acc: Headers)
    requires fields != [] && DistinctKeys(known, fields)
    requires forall i :: 0 <= i < |fields| ==> !HasKey(acc, Normalize(known, fields[i].key))
    ensures DistinctKeys(known, fields[1..])
    ensures forall i :: 0 <= i < |fields[1..]| ==>
                !HasKey(acc + Kept(known, fields[0], skipUndef), Normalize(known, fields[1..][i].key))
  {
    var h := acc + Kept(known, fields[0], skipUndef);
    forall i | 0 <= i < |fields[1..]| ensures !HasKey(h, Normalize(known, fields[1..][i].key)) {
      var k := Normalize(known, fields[i + 1].key);
      assert !HasKey(acc, k) && Normalize(known, fields[0].key) != k;
      forall j | 0 <= j < |h| ensures h[j].0 != k {
        if j < |acc| {
          assert h[j] == acc[j];
        }
      }
    }
  }

  /** Decoding inverts serialisation: any list of fields with distinct keys, and any inner body,
      comes back in order, under canonical keys, without the undefined values when those are
      skipped; the values that are not text, and only those, are recorded with their raw form. */
  lemma SerializedRoundTrip(cfg: Config, fields: seq<Field>, body: Bytes, skipUndef: bool)
    requires fields != [] && AllWire(fields) && Readable(cfg, fields) && DistinctKeys(cfg.known, fields)
    ensures DecodeSerialized(cfg, Render(fields) + ['\n'] + body, skipUndef)
            == Ok(EslEvent(Expected(cfg.known, fields, skipUndef), NonEmpty(Some(body)), None, Recorded(cfg.known, fields)))
  {
    RenderSplits(fields, body);
    RenderDecodes(cfg, fields, skipUndef);
  }

  /** The rendered payload is cut where the fields end. */
  lemma RenderSplits(fields: seq<Field>, body: Bytes)
    requires fields != [] && AllWire(fields)
    ensures Render(fields) + ['\n'] + body == RenderHead(fields) + BLANK_LINE + body
    ensures Find(Render(fields) + ['\n'] + body, BLANK_LINE) == Some(|RenderHead(fields)|)
    ensures Utf8.SplitBlankLine(Render(fields) + ['\n'] + body) == (RenderHead(fields), Some(body))
  {
    var head := RenderHead(fields);
    LinesOfRender(fields);
    RenderNoBlankLine(fields);
    assert Render(fields) + ['\n'] + body == head + BLANK_LINE + body;
    FirstBlankLine(head, body);
    SplitAt(head, body);
  }

  lemma SplitAt(head: Bytes, body: Bytes)
    requires Find(head + BLANK_LINE + body, BLANK_LINE) == Some(|head|)
    ensures Utf8.SplitBlankLine(head + BLANK_LINE + body) == (head, Some(body))
  {
    var s := head + BLANK_LINE + body;
    assert s[..|head|] == head && s[|head| + 2..] == body;
  }

  /** The same without a body, for any list of fields. */
  lemma HeadersOnlyRoundTrip(cfg: Config, fields: seq<Field>, skipUndef: bool)
    requires AllWire(fields) && Readable(cfg, fields) && DistinctKeys(cfg.known, fields)
    ensures DecodeSerialized(cfg, Render(fields), skipUndef)
            == Ok(EslEvent(Expected(cfg.known, fields, skipUndef), None, None, Recorded(cfg.known, fields)))
  {
    RenderNoBlankLine(fields);
    RenderDecodes(cfg, fields, skipUndef);
  }

  function HexChar(n: nat): Byte
    requires n < 16
  {
    if n < 10 then ('0' as int + n) as char else ('A' as int + n - 10) as char
  }

  /** Percent-encoding of every byte outside `safe`. */
  function PercentEncode(value: Bytes, safe: set<Byte>): Bytes
    requires forall i :: 0 <= i < |value| ==> value[i] as int < 256
  {
    if value == [] then []
    else (if value[0] in safe then [value[0]]
          else ['%', HexChar(value[0] as int / 16), HexChar(value[0] as int % 16)])
         + PercentEncode(value[1..], safe)
  }

  /** However much is encoded, as long as the percent sign and the line terminators are, decoding
      gives the value back and the encoded text stays on its line. */
  lemma {:induction false} PercentRoundTrip(value: Bytes, safe: set<Byte>)
    requires forall i :: 0 <= i < |value| ==> value[i] as int < 256
    requires '%' !in safe && '\r' !in safe && '\n' !in safe
    ensures PercentDecode(PercentEncode(value, safe)) == value
    ensures '\r' !in PercentEncode(value, safe) && '\n' !in PercentEncode(value, safe)
  {
    if value != [] {
      PercentRoundTrip(value[1..], safe);
      var c, rest := value[0], PercentEncode(value[1..], safe);
      if c in safe {
        assert ([c] + rest)[1..] == rest;
      } else {
        var e := ['%', HexChar(c as int / 16), HexChar(c as int % 16)];
        HexDigitOfHexChar(c as int / 16);
        HexDigitOfHexChar(c as int % 16);
        assert (e + rest)[3..] == rest;
        assert EscapeAt(e + rest);
      }
    }
  }

  lemma HexDigitOfHexChar(n: nat)
    requires n < 16
    ensures HexDigit(HexChar(n)) == Some(n) && HexChar(n) != '\r' && HexChar(n) != '\n'
  {
  }

  // ---- From pairs to pairs ---------------------------------------------------------------------

  /** Text is made of bytes. */
  lemma {:induction false} TextIsBytes(s: Bytes)
    requires Utf8.Valid(s)
    ensures forall i :: 0 <= i < |s| ==> s[i] as int < 256
  {
    if s != [] {
      var n := Utf8.Chunk(s);
      TextIsBytes(s[n..]);
      forall i | 0 <= i < |s| ensures s[i] as int < 256 {
        if i >= n {
          assert s[i] == s[n..][i - n];
        }
      }
    }
  }

  /** A header that can be serialised: a canonical name that fits on a line, and a text value. */
  predicate Serializable(known: seq<Bytes>, h: (Bytes, Bytes))
  {
    ':' !in h.0 && '\r' !in h.0 && '\n' !in h.0 && Normalize(known, h.0) == h.0 && Utf8.Valid(h.1)
  }

  ghost predicate AllSerializable(known: seq<Bytes>, pairs: Headers)
  {
    forall i :: 0 <= i < |pairs| ==> Serializable(known, pairs[i])
  }

  ghost predicate Distinct(pairs: Headers)
  {
    forall i, j :: 0 <= i < j < |pairs| ==> pairs[i].0 != pairs[j].0
  }

  function EncodeField(h: (Bytes, Bytes), safe: set<Byte>): Field
    requires Utf8.Valid(h.1)
  {
    TextIsBytes(h.1);
    Field(h.0, PercentEncode(h.1, safe))
  }

  function Encode(known: seq<Bytes>, pairs: Headers, safe: set<Byte>): seq<Field>
    requires AllSerializable(known, pairs)
  {
    if pairs == [] then []
    else
      assert Serializable(known, pairs[0]);
      [EncodeField(pairs[0], safe)] + Encode(known, pairs[1..], safe)
  }

  /** The pairs left once undefined values are skipped. */
  function Defined(pairs: Headers, skipUndef: bool): Headers
  {
    if pairs == [] then []
    else (if skipUndef && pairs[0].1 == UNDEF_VALUE then [] else [pairs[0]]) + Defined(pairs[1..], skipUndef)
  }

  lemma EncodedField(known: seq<Bytes>, h: (Bytes, Bytes), safe: set<Byte>, skipUndef: bool)
    requires Serializable(known, h) && '%' !in safe && '\r' !in safe && '\n' !in safe
    ensures var f := EncodeField(h, safe);
            && Wire(f) && IsText(f) && LossyIn(known, f) == []
            && Kept(known, f, skipUndef) == (if skipUndef && h.1 == UNDEF_VALUE then [] else [h])
  {
    TextIsBytes(h.1);
    PercentRoundTrip(h.1, safe);
    Utf8.LossyOfValid(h.1);
  }

  lemma {:induction false} EncodedFit(cfg: Config, pairs: Headers, safe: set<Byte>)
    requires AllSerializable(cfg.known, pairs) && '%' !in safe && '\r' !in safe && '\n' !in safe
    ensures var fields := Encode(cfg.known, pairs, safe);
            && |fields| == |pairs|
            && forall i :: 0 <= i < |pairs| ==> fields[i].key == pairs[i].0 && Wire(fields[i]) && IsText(fields[i])
    decreases |pairs|
  {
    if pairs != [] {
      assert Serializable(cfg.known, pairs[0]);
      EncodedField(cfg.known, pairs[0], safe, false);
      EncodedFit(cfg, pairs[1..], safe);
    }
  }

  lemma {:induction false} EncodedFields(known: seq<Bytes>, pairs: Headers, safe: set<Byte>, skipUndef: bool)
    requires AllSerializable(known, pairs) && '%' !in safe && '\r' !in safe && '\n' !in safe
    ensures var fields := Encode(known, pairs, safe);
            Recorded(known, fields) == [] && Expected(known, fields, skipUndef) == Defined(pairs, skipUndef)
    decreases |pairs|
  {
    if pairs != [] {
      assert Serializable(known, pairs[0]);
      EncodedField(known, pairs[0], safe, skipUndef);
      EncodedFields(known, pairs[1..], safe, skipUndef);
      FieldsCons(known, EncodeField(pairs[0], safe), Encode(known, pairs[1..], safe), skipUndef);
    }
  }

  lemma FieldsCons(known: seq<Bytes>, f: Field, rest: seq<Field>, skipUndef: bool)
    ensures Expected(known, [f] + rest, skipUndef) == Kept(known, f, skipUndef) + Expected(known, rest, skipUndef)
    ensures Recorded(known, [f] + rest) == LossyIn(known, f) + Recorded(known, rest)
  {
    assert ([f] + rest)[0] == f && ([f] + rest)[1..] == rest;
  }

  /** Serialising any headers and any body, percent-encoding at least the percent sign and the line
      terminators, and decoding the payload gives the same headers, in order, and the same body,
      minus the undefined values when those are skipped, strict or not. */
  lemma EncodedRoundTrip(cfg: Config, pairs: Headers, safe: set<Byte>, body: Bytes, skipUndef: bool)
    requires pairs != [] && AllSerializable(cfg.known, pairs) && Distinct(pairs)
    requires '%' !in safe && '\r' !in safe && '\n' !in safe
    ensures DecodeSerialized(cfg, Render(Encode(cfg.known, pairs, safe)) + ['\n'] + body, skipUndef)
            == Ok(EslEvent(Defined(pairs, skipUndef), NonEmpty(Some(body)), None, []))
  {
    var fields := Encode(cfg.known, pairs, safe);
    EncodedFit(cfg, pairs, safe);
    EncodedFields(cfg.known, pairs, safe, skipUndef);
    forall i, j | 0 <= i < j < |fields| ensures Normalize(cfg.known, fields[i].key) != Normalize(cfg.known, fields[j].key) {
      assert Serializable(cfg.known, pairs[i]) && Serializable(cfg.known, pairs[j]);
    }
    SerializedRoundTrip(cfg, fields, body, skipUndef);
  }
}
