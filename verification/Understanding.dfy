/** What the switch understands: a reader from a command's frame back to the command, written from the
    protocol's words, and when it gives back what the client meant. */
module Understanding {
  import opened Bytes
  import opened HeaderKeys
  import opened HeaderBlock
  import opened Commands
  import Framer

  // ---- The reader --------------------------------------------------------------------------------------

  /** Text before and after the first `c`. */
  function SplitFirst(s: Bytes, c: Byte): Option<(Bytes, Bytes)>
  {
    if c in s then
      var i := FirstIndex(s, c);
      Some((s[..i], s[i + 1..]))
    else None
  }

  /** A header line: the name up to the first colon, one space, the value. */
  function ReadHeader(line: Bytes): (Bytes, Bytes)
  {
    match SplitFirst(line, ':')
    case None => (line, [])
    case Some((name, value)) => (name, if value != [] && value[0] == ' ' then value[1..] else value)
  }

  function ReadHeaders(lines: seq<Bytes>): Headers
  {
    seq(|lines|, i requires 0 <= i < |lines| => ReadHeader(lines[i]))
  }

  /** The event a frame carries: its header lines, and the body if the last of them counts one. */
  function ReadEvent(eventType: Option<Bytes>, f: Frame): Event
    requires f.lines != []
  {
    var lines := f.lines[1..];
    if lines != [] && IsLengthLine(lines[|lines| - 1])
    then Event(eventType, ReadHeaders(lines[..|lines| - 1]), Some(f.body))
    else Event(eventType, ReadHeaders(lines), None)
  }

  /** A command that is one word. */
  function ReadWord(word: Bytes, f: Frame): Option<EslCommand>
    requires f.lines != []
  {
    if word == "exit" then Some(Exit)
    else if word == "nolog" then Some(NoLog)
    else if word == "noop" then Some(NoOp)
    else if word == "linger" then Some(Linger(None))
    else if word == "nolinger" then Some(NoLinger)
    else if word == "resume" then Some(Resume)
    else if word == "noevents" then Some(NoEvents)
    else if word == "connect" then Some(Connect)
    else if word == "sendmsg" then Some(SendMsg(None, ReadEvent(None, f)))
    else None
  }

  function ReadPair(split: Option<(Bytes, Bytes)>, make: (Bytes, Bytes) -> EslCommand): Option<EslCommand>
  {
    match split
    case Some((a, b)) => Some(make(a, b))
    case None => None
  }

  function ReadLinger(text: Bytes): Option<EslCommand>
  {
    if text == [] then None
    else match Framer.DigitsValue(text)
      case Some(n) => Some(Linger(Some(n)))
      case None => None
  }

  function ReadFilter(text: Bytes): Option<EslCommand>
  {
    match SplitFirst(text, ' ')
    case None => None
    case Some((header, value)) => Some(if header == "delete" then ReadDelete(value) else Filter(header, value))
  }

  function ReadDelete(text: Bytes): EslCommand
  {
    if text == "all" then FilterDeleteAll
    else match SplitFirst(text, ' ')
      case None => FilterDelete(text, None)
      case Some((header, value)) => FilterDelete(header, Some(value))
  }

  function ReadMyEvents(text: Bytes): EslCommand
  {
    match SplitFirst(text, ' ')
    case None => MyEvents(text, None)
    case Some((uuid, format)) => MyEvents(format, Some(uuid))
  }

  /** A command with something after its word. */
  function ReadArguments(word: Bytes, text: Bytes, f: Frame): Option<EslCommand>
    requires f.lines != []
  {
    if word == "auth" then Some(Auth(text))
    else if word == "userauth" then ReadPair(SplitFirst(text, ':'), (user, password) => UserAuth(user, password))
    else if word == "api" then Some(Api(text))
    else if word == "bgapi" then Some(BgApi(text))
    else if word == "event" then ReadPair(SplitFirst(text, ' '), (format, events) => Events(format, events))
    else if word == "filter" then ReadFilter(text)
    else if word == "log" then Some(Log(text))
    else if word == "myevents" then Some(ReadMyEvents(text))
    else if word == "linger" then ReadLinger(text)
    else if word == "nixevent" then Some(NixEvent(text))
    else if word == "divert_events" then
      (if text == "on" then Some(DivertEvents(true)) else if text == "off" then Some(DivertEvents(false)) else None)
    else if word == "getvar" then Some(GetVar(text))
    else if word == "sendmsg" then Some(SendMsg(Some(text), ReadEvent(None, f)))
    else if word == "sendevent" then Some(SendEvent(ReadEvent(Some(text), f)))
    else None
  }

  function Understand(f: Frame): Option<EslCommand>
    requires f.lines != []
  {
    match SplitFirst(f.lines[0], ' ')
    case None => ReadWord(f.lines[0], f)
    case Some((word, text)) => ReadArguments(word, text, f)
  }

  // ---- What was meant ------------------------------------------------------------------------------------

  /** The command as the wire can tell it: an execution is the message that asks for it, an event's name
      is its type, and deleting the filters of every header is deleting all. */
  function Meant(known: seq<Bytes>, c: EslCommand): EslCommand
  {
    match c
    case FilterDelete(header, _) => if header == "all" then FilterDeleteAll else c
    case SendMsg(uuid, event) => SendMsg(uuid, event.(eventType := None))
    case SendEvent(event) =>
      SendEvent(if event.eventType.Some? then event else event.(eventType := Get(event.headers, "Event-Name")))
    case Execute(_, _, uuid, _) => SendMsg(uuid, Executed(known, c))
    case _ => c
  }

  /** Header names hold no colon, and without a body the last header does not count one. */
  predicate ClearEvent(event: Event)
  {
    && (forall i :: 0 <= i < |event.headers| ==> ':' !in event.headers[i].0)
    && (event.body.None? && event.headers != [] ==> !IsLengthLine(HeaderLine(event.headers[|event.headers| - 1])))
  }

  /** Nothing in the command can be taken for the end of a field: no colon in a user name, and no space
      where one ends the field. */
  predicate Clear(known: seq<Bytes>, c: EslCommand)
  {
    match c
    case UserAuth(user, _) => ':' !in user
    case Events(format, _) => ' ' !in format
    case Filter(header, _) => ' ' !in header && header != "delete"
    case FilterDelete(header, _) => header == "all" || ' ' !in header
    case MyEvents(format, uuid) => if uuid.Some? then ' ' !in uuid.value else ' ' !in format
    case SendMsg(_, event) => ClearEvent(event)
    case SendEvent(event) => ClearEvent(event)
    case Execute(_, _, _, _) => ClearEvent(Executed(known, c))
    case _ => true
  }

  // ---- Splitting -------------------------------------------------------------------------------------------

  lemma SplitFirstIs(a: Bytes, c: Byte, b: Bytes)
    ensures var r := SplitFirst(a + [c] + b, c);
            && r.Some?
            && (c !in a ==> r == Some((a, b)))
            && (c in a ==> |r.value.0| < |a|)
  {
    var s := a + [c] + b;
    assert s[|a|] == c;
    if c !in a {
      FirstIndexIs(a, c, b);
      assert s[..|a|] == a && s[|a| + 1..] == b;
    } else {
      FirstIndexWithin(a, c, [c] + b);
      assert s == a + ([c] + b);
    }
  }

  lemma FirstIndexWithin(a: Bytes, c: Byte, b: Bytes)
    requires c in a
    ensures c in a + b && FirstIndex(a + b, c) == FirstIndex(a, c)
  {
    var i := FirstIndex(a, c);
    assert (a + b)[i] == c && (a + b)[..i] == a[..i];
    assert a + b == a[..i] + [c] + (a + b)[i + 1..];
    FirstIndexIs(a[..i], c, (a + b)[i + 1..]);
  }

  lemma HeaderReadsIff(h: (Bytes, Bytes))
    ensures ReadHeader(HeaderLine(h)) == h <==> ':' !in h.0
  {
    assert HeaderLine(h) == h.0 + [':'] + ([' '] + h.1);
    SplitFirstIs(h.0, ':', [' '] + h.1);
    assert ([' '] + h.1)[1..] == h.1;
  }

  lemma HeadersReadIff(h: Headers)
    ensures ReadHeaders(HeaderLines(h)) == h <==> forall i :: 0 <= i < |h| ==> ':' !in h[i].0
  {
    var r := ReadHeaders(HeaderLines(h));
    forall i | 0 <= i < |h| ensures r[i] == h[i] <==> ':' !in h[i].0 {
      HeaderReadsIff(h[i]);
    }
    if r == h {
      forall i | 0 <= i < |h| ensures ':' !in h[i].0 {
        assert r[i] == h[i];
      }
    }
  }

  // ---- Events ----------------------------------------------------------------------------------------------

  /** The event reads back exactly when it is clear. */
  lemma EventReadsIff(line: Bytes, event: Event, eventType: Option<Bytes>)
    ensures ReadEvent(eventType, FrameOf(Shape(line, event.headers, event.body))) == event.(eventType := eventType)
            <==> ClearEvent(event)
  {
    var f := FrameOf(Shape(line, event.headers, event.body));
    HeadersReadIff(event.headers);
    if event.body.Some? {
      CountedReads(line, event.headers, event.body.value, eventType);
    } else {
      UncountedReads(line, event.headers, eventType);
    }
  }

  lemma CountedReads(line: Bytes, headers: Headers, body: Bytes, eventType: Option<Bytes>)
    ensures ReadEvent(eventType, FrameOf(Shape(line, headers, Some(body))))
            == Event(eventType, ReadHeaders(HeaderLines(headers)), Some(body))
  {
    var last, lines := LengthLine(|body|), HeaderLines(headers);
    LengthLineIsOne(|body|);
    CutsOff([line], lines, [last]);
    assert (lines + [last])[..|lines|] == lines;
  }

  lemma UncountedReads(line: Bytes, headers: Headers, eventType: Option<Bytes>)
    ensures var r := ReadEvent(eventType, FrameOf(Shape(line, headers, None)));
            if headers != [] && IsLengthLine(HeaderLine(headers[|headers| - 1])) then r.body.Some?
            else r == Event(eventType, ReadHeaders(HeaderLines(headers)), None)
  {
    CutsOff([line], HeaderLines(headers), []);
  }

  lemma CutsOff(a: seq<Bytes>, b: seq<Bytes>, c: seq<Bytes>)
    requires |a| == 1
    ensures (a + b + c)[1..] == b + c && b + [] == b
  {}

  lemma LengthLineIsOne(n: nat)
    ensures IsLengthLine(LengthLine(n))
  {
    assert LengthLine(n) == CONTENT_LENGTH + [':'] + ([' '] + Decimal(n));
    FirstIndexIs(CONTENT_LENGTH, ':', [' '] + Decimal(n));
    assert LengthLine(n)[..|CONTENT_LENGTH|] == CONTENT_LENGTH;
  }

  // ---- Commands ----------------------------------------------------------------------------------------------

  /** One word, or a word and the text after it. */
  lemma WordReads(word: Bytes, text: Bytes)
    requires ' ' !in word
    ensures SplitFirst(word, ' ').None? && SplitFirst(word + [' '] + text, ' ') == Some((word, text))
  {
    SplitFirstIs(word, ' ', text);
  }

  lemma OneArgument(word: Bytes, a: Bytes)
    ensures word + Words([a]) == word + [' '] + a
  {
    assert Words([a]) == [' '] + a + Words([]);
  }

  lemma TwoArguments(word: Bytes, a: Bytes, b: Bytes)
    ensures word + Words([a, b]) == word + [' '] + (a + [' '] + b)
  {
    assert [a, b][1..] == [b];
    assert Words([b]) == [' '] + b + Words([]);
    assert Words([a, b]) == [' '] + a + Words([b]);
  }

  lemma ThreeArguments(word: Bytes, a: Bytes, b: Bytes, c: Bytes)
    ensures word + Words([a, b, c]) == word + [' '] + (a + [' '] + (b + [' '] + c))
  {
    assert [a, b, c][1..] == [b, c];
    TwoArguments([], b, c);
    assert [] + Words([b, c]) == Words([b, c]);
    assert [] + [' '] + (b + [' '] + c) == [' '] + (b + [' '] + c);
    assert Words([a, b, c]) == [' '] + a + Words([b, c]);
  }

  /** A frame whose command line is one word, or a word and more text. */
  lemma ReadsWord(s: Shape, word: Bytes)
    requires s.line == word && ' ' !in word
    ensures FrameOf(s).lines != [] && Understand(FrameOf(s)) == ReadWord(word, FrameOf(s))
  {
    WordReads(word, []);
  }

  lemma ReadsText(s: Shape, word: Bytes, text: Bytes)
    requires s.line == word + [' '] + text && ' ' !in word
    ensures FrameOf(s).lines != [] && Understand(FrameOf(s)) == ReadArguments(word, text, FrameOf(s))
  {
    WordReads(word, text);
  }

  /** Commands with no argument. */
  lemma PlainWord(c: EslCommand, f: Frame)
    requires c.Exit? || c.NoLog? || c.NoOp? || c.NoLinger? || c.Resume? || c.NoEvents? || c.Connect? || c == Linger(None)
    requires f.lines != []
    ensures Simple(c).1 == [] && ' ' !in Simple(c).0 && ReadWord(Simple(c).0, f) == Some(c)
  {
  }

  lemma PlainReads(known: seq<Bytes>, c: EslCommand)
    requires c.Exit? || c.NoLog? || c.NoOp? || c.NoLinger? || c.Resume? || c.NoEvents? || c.Connect? || c == Linger(None)
    ensures FrameOf(ShapeOf(known, c)).lines != [] && Understand(FrameOf(ShapeOf(known, c))) == Some(c)
  {
    var s, word := ShapeOf(known, c), Simple(c).0;
    PlainWord(c, FrameOf(s));
    assert word + Words([]) == word;
    ReadsWord(s, word);
  }

  /** Commands whose one argument is all the text after the word. */
  lemma TextWord(c: EslCommand, f: Frame)
    requires c.Auth? || c.Api? || c.BgApi? || c.Log? || c.NixEvent? || c.GetVar? || c.DivertEvents?
    requires f.lines != []
    ensures var (word, args) := Simple(c);
            |args| == 1 && ' ' !in word && ReadArguments(word, args[0], f) == Some(c)
  {
  }

  lemma TextReads(known: seq<Bytes>, c: EslCommand)
    requires c.Auth? || c.Api? || c.BgApi? || c.Log? || c.NixEvent? || c.GetVar? || c.DivertEvents?
    ensures FrameOf(ShapeOf(known, c)).lines != [] && Understand(FrameOf(ShapeOf(known, c))) == Some(c)
  {
    var (word, args) := Simple(c);
    var s := ShapeOf(known, c);
    TextWord(c, FrameOf(s));
    OneArgument(word, args[0]);
    assert args == [args[0]];
    ReadsText(s, word, args[0]);
  }

  /** The words whose text is read further. */
  lemma FurtherWords(text: Bytes, f: Frame)
    requires f.lines != []
    ensures ReadArguments("linger", text, f) == ReadLinger(text)
    ensures ReadArguments("userauth", text, f) == ReadPair(SplitFirst(text, ':'), (user, password) => UserAuth(user, password))
    ensures ReadArguments("event", text, f) == ReadPair(SplitFirst(text, ' '), (format, events) => Events(format, events))
    ensures ReadArguments("filter", text, f) == ReadFilter(text)
    ensures ReadArguments("myevents", text, f) == Some(ReadMyEvents(text))
  {
  }

  lemma EventWords(text: Bytes, f: Frame)
    requires f.lines != []
    ensures ReadWord("sendmsg", f) == Some(SendMsg(None, ReadEvent(None, f)))
    ensures ReadArguments("sendmsg", text, f) == Some(SendMsg(Some(text), ReadEvent(None, f)))
    ensures ReadArguments("sendevent", text, f) == Some(SendEvent(ReadEvent(Some(text), f)))
  {
  }

  lemma LingerReads(known: seq<Bytes>, n: nat)
    ensures var f := FrameOf(ShapeOf(known, Linger(Some(n))));
            f.lines != [] && Understand(f) == Some(Linger(Some(n)))
  {
    var s := ShapeOf(known, Linger(Some(n)));
    OneArgument("linger", Decimal(n));
    ReadsText(s, "linger", Decimal(n));
    FurtherWords(Decimal(n), FrameOf(s));
    DecimalParses(n);
  }

  lemma UserAuthReadsIff(known: seq<Bytes>, user: Bytes, password: Bytes)
    ensures var c := UserAuth(user, password);
            var f := FrameOf(ShapeOf(known, c));
            f.lines != [] && (Understand(f) == Some(c) <==> ':' !in user)
  {
    var s, text := ShapeOf(known, UserAuth(user, password)), user + ":" + password;
    OneArgument("userauth", text);
    ReadsText(s, "userauth", text);
    FurtherWords(text, FrameOf(s));
    SplitFirstIs(user, ':', password);
  }

  lemma EventsReadIff(known: seq<Bytes>, format: Bytes, events: Bytes)
    ensures var c := Events(format, events);
            var f := FrameOf(ShapeOf(known, c));
            f.lines != [] && (Understand(f) == Some(c) <==> ' ' !in format)
  {
    var s, text := ShapeOf(known, Events(format, events)), format + [' '] + events;
    TwoArguments("event", format, events);
    ReadsText(s, "event", text);
    FurtherWords(text, FrameOf(s));
    SplitFirstIs(format, ' ', events);
  }

  lemma FilterTextReadsIff(header: Bytes, value: Bytes)
    ensures ReadFilter(header + [' '] + value) == Some(Filter(header, value)) <==> ' ' !in header && header != "delete"
    ensures ReadFilter("delete" + [' '] + value) == Some(ReadDelete(value))
  {
    SplitFirstIs(header, ' ', value);
    SplitFirstIs("delete", ' ', value);
  }

  lemma FilterReadsIff(known: seq<Bytes>, header: Bytes, value: Bytes)
    ensures var c := Filter(header, value);
            var f := FrameOf(ShapeOf(known, c));
            f.lines != [] && (Understand(f) == Some(c) <==> ' ' !in header && header != "delete")
  {
    var s, text := ShapeOf(known, Filter(header, value)), header + [' '] + value;
    TwoArguments("filter", header, value);
    ReadsText(s, "filter", text);
    FurtherWords(text, FrameOf(s));
    FilterTextReadsIff(header, value);
  }

  /** A `filter delete` command reads as whatever its text after those words reads as. */
  lemma DeleteReads(s: Shape, text: Bytes)
    requires s.line == "filter" + [' '] + ("delete" + [' '] + text)
    ensures FrameOf(s).lines != [] && Understand(FrameOf(s)) == Some(ReadDelete(text))
  {
    var all := "delete" + [' '] + text;
    ReadsText(s, "filter", all);
    FurtherWords(all, FrameOf(s));
    FilterTextReadsIff([], text);
  }

  lemma DeleteAllReads(known: seq<Bytes>, c: EslCommand)
    requires c.FilterDeleteAll? || (c.FilterDelete? && c.header == "all")
    ensures var f := FrameOf(ShapeOf(known, c));
            f.lines != [] && Understand(f) == Some(FilterDeleteAll)
  {
    TwoArguments("filter", "delete", "all");
    DeleteReads(ShapeOf(known, c), "all");
  }

  lemma DeleteTextReadsIff(header: Bytes, value: Bytes)
    requires header != "all"
    ensures ReadDelete(header) == FilterDelete(header, None) <==> ' ' !in header
    ensures ReadDelete(header + [' '] + value) == FilterDelete(header, Some(value)) <==> ' ' !in header
  {
    var text := header + [' '] + value;
    SplitFirstIs(header, ' ', value);
    assert text[|header|] == ' ' && ' ' in text && ' ' !in "all";
  }

  lemma DeleteReadsIff(known: seq<Bytes>, header: Bytes, value: Option<Bytes>)
    requires header != "all"
    ensures var c := FilterDelete(header, value);
            var f := FrameOf(ShapeOf(known, c));
            f.lines != [] && (Understand(f) == Some(c) <==> ' ' !in header)
  {
    var s := ShapeOf(known, FilterDelete(header, value));
    if value.Some? {
      ThreeArguments("filter", "delete", header, value.value);
      DeleteReads(s, header + [' '] + value.value);
      DeleteTextReadsIff(header, value.value);
    } else {
      TwoArguments("filter", "delete", header);
      DeleteReads(s, header);
      DeleteTextReadsIff(header, []);
    }
  }

  lemma MyEventsReadIff(known: seq<Bytes>, format: Bytes, uuid: Option<Bytes>)
    ensures var c := MyEvents(format, uuid);
            var f := FrameOf(ShapeOf(known, c));
            f.lines != [] && (Understand(f) == Some(c) <==> Clear(known, c))
  {
    var s := ShapeOf(known, MyEvents(format, uuid));
    if uuid.Some? {
      var text := uuid.value + [' '] + format;
      TwoArguments("myevents", uuid.value, format);
      ReadsText(s, "myevents", text);
      FurtherWords(text, FrameOf(s));
      SplitFirstIs(uuid.value, ' ', format);
    } else {
      OneArgument("myevents", format);
      ReadsText(s, "myevents", format);
      FurtherWords(format, FrameOf(s));
    }
  }

  lemma MessageReadsIff(s: Shape, uuid: Option<Bytes>, event: Event)
    requires s == Shape("sendmsg" + OptionalWord(uuid), event.headers, event.body)
    ensures FrameOf(s).lines != []
    ensures Understand(FrameOf(s)) == Some(SendMsg(uuid, event.(eventType := None))) <==> ClearEvent(event)
  {
    EventReadsIff(s.line, event, None);
    if uuid.Some? {
      assert s.line == "sendmsg" + [' '] + uuid.value;
      ReadsText(s, "sendmsg", uuid.value);
      EventWords(uuid.value, FrameOf(s));
    } else {
      assert s.line == "sendmsg";
      ReadsWord(s, "sendmsg");
      EventWords([], FrameOf(s));
    }
  }

  /** An event's name is its type, or else what its header says. */
  lemma NameMeant(known: seq<Bytes>, event: Event, name: Bytes)
    requires NameOf(event) == Some(name)
    ensures Meant(known, SendEvent(event)) == SendEvent(event.(eventType := Some(name)))
  {
  }

  lemma SendEventReadsIff(known: seq<Bytes>, event: Event)
    requires NameOf(event).Some?
    ensures var c := SendEvent(event);
            var f := FrameOf(ShapeOf(known, c));
            f.lines != [] && (Understand(f) == Some(Meant(known, c)) <==> ClearEvent(event))
  {
    var s, name := ShapeOf(known, SendEvent(event)), NameOf(event).value;
    NameMeant(known, event, name);
    NamedReadsIff(s, name, event);
  }

  lemma NamedReadsIff(s: Shape, name: Bytes, event: Event)
    requires s == Shape("sendevent" + OptionalWord(Some(name)), event.headers, event.body)
    ensures FrameOf(s).lines != []
    ensures Understand(FrameOf(s)) == Some(SendEvent(event.(eventType := Some(name)))) <==> ClearEvent(event)
  {
    EventReadsIff(s.line, event, Some(name));
    assert s.line == "sendevent" + [' '] + name;
    ReadsText(s, "sendevent", name);
    EventWords(name, FrameOf(s));
  }

  /** Every accepted command is understood as it was meant if and only if it is clear. */
  lemma UnderstoodIff(known: seq<Bytes>, c: EslCommand)
    requires Validate(c).Ok?
    ensures FrameOf(ShapeOf(known, c)).lines != []
    ensures Understand(FrameOf(ShapeOf(known, c))) == Some(Meant(known, c)) <==> Clear(known, c)
  {
    if c.SendMsg? || c.Execute? || c.SendEvent? {
      EventUnderstoodIff(known, c);
    } else if c.UserAuth? || c.Events? || c.Filter? || c.FilterDelete? || c.MyEvents? {
      FieldsUnderstoodIff(known, c);
    } else if c.FilterDeleteAll? {
      DeleteAllReads(known, c);
    } else if c.Linger? && c.timeout.Some? {
      LingerReads(known, c.timeout.value);
    } else if c.Auth? || c.Api? || c.BgApi? || c.Log? || c.NixEvent? || c.GetVar? || c.DivertEvents? {
      TextReads(known, c);
    } else {
      PlainReads(known, c);
    }
  }

  lemma EventUnderstoodIff(known: seq<Bytes>, c: EslCommand)
    requires Validate(c).Ok? && (c.SendMsg? || c.Execute? || c.SendEvent?)
    ensures FrameOf(ShapeOf(known, c)).lines != []
    ensures Understand(FrameOf(ShapeOf(known, c))) == Some(Meant(known, c)) <==> Clear(known, c)
  {
    match c
    case SendMsg(uuid, event) => MessageReadsIff(ShapeOf(known, c), uuid, event);
    case Execute(_, _, uuid, _) => MessageReadsIff(ShapeOf(known, c), uuid, Executed(known, c));
    case SendEvent(event) => SendEventReadsIff(known, event);
  }

  lemma FieldsUnderstoodIff(known: seq<Bytes>, c: EslCommand)
    requires c.UserAuth? || c.Events? || c.Filter? || c.FilterDelete? || c.MyEvents?
    ensures FrameOf(ShapeOf(known, c)).lines != []
    ensures Understand(FrameOf(ShapeOf(known, c))) == Some(Meant(known, c)) <==> Clear(known, c)
  {
    match c
    case UserAuth(user, password) => UserAuthReadsIff(known, user, password);
    case Events(format, events) => EventsReadIff(known, format, events);
    case Filter(header, value) => FilterReadsIff(known, header, value);
    case FilterDelete(header, value) =>
      if header == "all" { DeleteAllReads(known, c); } else { DeleteReadsIff(known, header, value); }
    case MyEvents(format, uuid) => MyEventsReadIff(known, format, uuid);
  }

  // ---- Executions ---------------------------------------------------------------------------------------------

  /** A header looked up as the switch does, ignoring case. */
  function GetAnyCase(h: Headers, name: Bytes): Option<Bytes>
  {
    if h == [] then None
    else if Fold(h[0].0) == Fold(name) then Some(h[0].1)
    else GetAnyCase(h[1..], name)
  }

  function ReadLoops(text: Option<Bytes>): Option<nat>
  {
    match text
    case Some(digits) => Framer.DigitsValue(digits)
    case None => None
  }

  /** The application a message asks to run. */
  function ReadExecute(uuid: Option<Bytes>, event: Event): Option<EslCommand>
  {
    var h := event.headers;
    var app := GetAnyCase(h, "execute-app-name");
    if GetAnyCase(h, "call-command") != Some("execute") || app.None? then None
    else
      Some(Execute(app.value, GetAnyCase(h, "execute-app-arg"), uuid,
                   ExecuteOptions(GetAnyCase(h, "event-lock") == Some("true"), GetAnyCase(h, "async") == Some("true"),
                                  ReadLoops(GetAnyCase(h, "loops")))))
  }

  lemma {:induction false} GetAnyCaseSnoc(h: Headers, k: Bytes, v: Bytes, name: Bytes)
    ensures GetAnyCase(h + [(k, v)], name)
            == if GetAnyCase(h, name).Some? then GetAnyCase(h, name) else if Fold(k) == Fold(name) then Some(v) else None
  {
    var all := h + [(k, v)];
    if h == [] {
      assert all[1..] == [];
    } else {
      GetAnyCaseSnoc(h[1..], k, v, name);
      assert all[0] == h[0] && all[1..] == h[1..] + [(k, v)];
    }
  }

  lemma {:induction false} AbsentHasNoKey(h: Headers, k: Bytes, name: Bytes)
    requires GetAnyCase(h, name).None? && Fold(k) == Fold(name)
    ensures !HasKey(h, k)
  {
    if h != [] {
      AbsentHasNoKey(h[1..], k, name);
      assert h[0].0 != k;
      forall i | 0 <= i < |h| ensures h[i].0 != k {
        assert i > 0 ==> h[i] == h[1..][i - 1];
      }
    }
  }

  /** A header set under a new name is the one found under that name, and changes no other. */
  lemma SetHeader(known: seq<Bytes>, h: Headers, key: Bytes, v: Bytes, name: Bytes)
    requires GetAnyCase(h, key).None?
    ensures GetAnyCase(Insert(h, Normalize(known, key), v), name)
            == if Fold(name) == Fold(key) then Some(v) else GetAnyCase(h, name)
  {
    NormalizeKeepsFold(known, key);
    AbsentHasNoKey(h, Normalize(known, key), key);
    InsertFresh(h, Normalize(known, key), v);
    GetAnyCaseSnoc(h, Normalize(known, key), v, name);
    SameFold(h, name, key);
  }

  lemma {:induction false} SameFold(h: Headers, a: Bytes, b: Bytes)
    ensures Fold(a) == Fold(b) ==> GetAnyCase(h, a) == GetAnyCase(h, b)
  {
    if h != [] {
      SameFold(h[1..], a, b);
    }
  }

  /** What a header list says under each of the names an execution uses. */
  datatype Said = Said(command: Option<Bytes>, app: Option<Bytes>, arg: Option<Bytes>, lock: Option<Bytes>,
                       async': Option<Bytes>, loops: Option<Bytes>)

  function SaidBy(h: Headers): Said
  {
    Said(GetAnyCase(h, "call-command"), GetAnyCase(h, "execute-app-name"), GetAnyCase(h, "execute-app-arg"),
         GetAnyCase(h, "event-lock"), GetAnyCase(h, "async"), GetAnyCase(h, "loops"))
  }

  lemma NamesDiffer()
    ensures |Fold("call-command")| == 12 && |Fold("execute-app-name")| == 16 && |Fold("execute-app-arg")| == 15
    ensures |Fold("event-lock")| == 10 && |Fold("async")| == 5 && |Fold("loops")| == 5
    ensures Fold("async") != Fold("loops")
  {
    assert Fold("async")[0] == 'a' && Fold("loops")[0] == 'l';
  }

  lemma SetSaid(known: seq<Bytes>, h: Headers, key: Bytes, v: Bytes)
    requires key in {"call-command", "execute-app-name", "execute-app-arg", "event-lock", "async", "loops"}
    requires GetAnyCase(h, key).None?
    ensures var t := SaidBy(Insert(h, Normalize(known, key), v));
            var was := SaidBy(h);
            && t.command == (if key == "call-command" then Some(v) else was.command)
            && t.app == (if key == "execute-app-name" then Some(v) else was.app)
            && t.arg == (if key == "execute-app-arg" then Some(v) else was.arg)
            && t.lock == (if key == "event-lock" then Some(v) else was.lock)
            && t.async' == (if key == "async" then Some(v) else was.async')
            && t.loops == (if key == "loops" then Some(v) else was.loops)
  {
    NamesDiffer();
    SetHeader(known, h, key, v, "call-command");
    SetHeader(known, h, key, v, "execute-app-name");
    SetHeader(known, h, key, v, "execute-app-arg");
    SetHeader(known, h, key, v, "event-lock");
    SetHeader(known, h, key, v, "async");
    SetHeader(known, h, key, v, "loops");
  }

  /** The headers of an execution say all of it. */
  lemma ExecutedSays(known: seq<Bytes>, c: EslCommand)
    requires c.Execute?
    ensures SaidBy(Executed(known, c).headers)
            == Said(Some("execute"), Some(c.app), c.args, if c.options.eventLock then Some("true") else None,
                    if c.options.asyncMode then Some("true") else None,
                    if c.options.loops.Some? then Some(Decimal(c.options.loops.value)) else None)
  {
    var none: Headers := [];
    SetSaid(known, none, "call-command", "execute");
    var a := Insert(none, Normalize(known, "call-command"), "execute");
    SetSaid(known, a, "execute-app-name", c.app);
    var h0 := Insert(a, Normalize(known, "execute-app-name"), c.app);
    var h1 := if c.args.Some? then Insert(h0, Normalize(known, "execute-app-arg"), c.args.value) else h0;
    if c.args.Some? { SetSaid(known, h0, "execute-app-arg", c.args.value); }
    var h2 := if c.options.eventLock then Insert(h1, Normalize(known, "event-lock"), "true") else h1;
    SetSaid(known, h1, "event-lock", "true");
    var h3 := if c.options.asyncMode then Insert(h2, Normalize(known, "async"), "true") else h2;
    SetSaid(known, h2, "async", "true");
    if c.options.loops.Some? { SetSaid(known, h3, "loops", Decimal(c.options.loops.value)); }
  }

  /** An execution reads back as itself from the message that asks for it, options and all. */
  lemma ExecuteReadsBack(known: seq<Bytes>, c: EslCommand)
    requires c.Execute?
    ensures ReadExecute(c.uuid, Executed(known, c)) == Some(c)
  {
    ExecutedSays(known, c);
    if c.options.loops.Some? {
      DecimalParses(c.options.loops.value);
    }
  }

  // ---- On the wire -------------------------------------------------------------------------------------------

  /** What is understood of the first frame of a stream, if exactly `rest` follows it. */
  function Heard(stream: Bytes, rest: Bytes): Option<EslCommand>
  {
    match ReadFrame(stream)
    case None => None
    case Some((f, left)) => if left == rest && f.lines != [] then Understand(f) else None
  }

  lemma CutLeaves(lines: seq<Bytes>, body: Bytes, rest: Bytes)
    requires lines != []
    ensures var r := Cut(lines, body + rest);
            r.Some? && r.value.1 == rest ==> r == Some((Frame(lines, body), rest))
  {
    var n := AnnouncedLength(lines[1..]);
    if n.Some? && n.value <= |body + rest| && (body + rest)[n.value..] == rest {
      assert |(body + rest)[n.value..]| == |body| + |rest| - n.value;
      assert (body + rest)[..|body|] == body;
    }
  }

  /** The switch hears what the client meant, with the rest of the stream left over, if and only if the
      command is clear and its own length headers, if any, agree with its body. */
  lemma HeardIff(known: seq<Bytes>, c: EslCommand, rest: Bytes)
    requires Accepted(known, c)
    ensures Heard(ToWire(known, c) + rest, rest) == Some(Meant(known, c)) <==>
              Clear(known, c) && LengthAgrees(ShapeOf(known, c))
  {
    var s := ShapeOf(known, c);
    UnderstoodIff(known, c);
    AcceptedLineClean(known, c);
    CleanShape(s);
    HeardShape(s, rest);
  }

  /** Of a clean shape's frame the switch hears what the frame says, if its length headers agree, and
      otherwise nothing with just `rest` left over. */
  lemma HeardShape(s: Shape, rest: Bytes)
    requires CleanLines(WireLines(s))
    ensures FrameOf(s).lines != []
    ensures Heard(WireOf(s) + rest, rest) == if LengthAgrees(s) then Understand(FrameOf(s)) else None
  {
    FrameReadsBackIff(s, rest);
    Associate(Close(WireLines(s)) + ['\n'], BodyOf(s), rest);
    ReadFrameCuts(WireLines(s), BodyOf(s) + rest);
    CutLeaves(WireLines(s), BodyOf(s), rest);
  }

  function UnderstandAll(frames: seq<Frame>): seq<Option<EslCommand>>
  {
    seq(|frames|, i requires 0 <= i < |frames| => if frames[i].lines == [] then None else Understand(frames[i]))
  }

  function AllMeant(known: seq<Bytes>, cs: seq<EslCommand>): seq<Option<EslCommand>>
  {
    seq(|cs|, i requires 0 <= i < |cs| => Some(Meant(known, cs[i])))
  }

  lemma {:induction false} FramesAt(shapes: seq<Shape>, i: nat)
    requires i < |shapes|
    ensures |Frames(shapes)| == |shapes| && Frames(shapes)[i] == FrameOf(shapes[i])
    decreases |shapes|
  {
    if |shapes| > 1 {
      FramesAt(shapes[1..], if i == 0 then 0 else i - 1);
    } else {
      assert Frames(shapes[1..]) == [];
    }
  }

  /** A whole stream of clear commands, none with a length header of its own, is understood command by
      command. */
  lemma StreamUnderstood(known: seq<Bytes>, cs: seq<EslCommand>)
    requires forall i :: 0 <= i < |cs| ==>
                 && Accepted(known, cs[i]) && Clear(known, cs[i])
                 && NoOwnLength(ShapeOf(known, cs[i]).headers)
                 && |BodyOf(ShapeOf(known, cs[i]))| < 0x1_0000_0000_0000_0000
    ensures UnderstandAll(ReadStream(Wires(Shapes(known, cs)))) == AllMeant(known, cs)
  {
    var shapes := Shapes(known, cs);
    OutgoingStreamDecodes(known, cs);
    var frames := Frames(shapes);
    if cs == [] {
      assert frames == [];
    } else {
      FramesAt(shapes, 0);
      forall i | 0 <= i < |cs| ensures UnderstandAll(frames)[i] == Some(Meant(known, cs[i])) {
        FramesAt(shapes, i);
        UnderstoodIff(known, cs[i]);
      }
    }
  }
}
