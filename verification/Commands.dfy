/** Outgoing commands: validation, wire format, and reading the stream back frame by frame. */
module Commands {
  import opened Bytes
  import opened HeaderKeys
  import opened HeaderBlock
  import Framer

  datatype CommandError = ContainsNewline(field: string) | MissingEventName

  /** The part of an `EslEvent` a command carries. */
  datatype Event = Event(eventType: Option<Bytes>, headers: Headers, body: Option<Bytes>)

  /** `sendevent_name`: the type set on the event, or else its `Event-Name` header. */
  function NameOf(event: Event): Option<Bytes>
  {
    if event.eventType.Some? then event.eventType else Get(event.headers, "Event-Name")
  }

  datatype ExecuteOptions = ExecuteOptions(eventLock: bool, asyncMode: bool, loops: Option<nat>)

  datatype EslCommand =
    | Auth(password: Bytes)
    | UserAuth(user: Bytes, password: Bytes)
    | Api(command: Bytes)
    | BgApi(command: Bytes)
    | Events(format: Bytes, events: Bytes)
    | Filter(header: Bytes, value: Bytes)
    | SendMsg(uuid: Option<Bytes>, event: Event)
    | Execute(app: Bytes, args: Option<Bytes>, uuid: Option<Bytes>, options: ExecuteOptions)
    | Exit
    | Log(level: Bytes)
    | NoLog
    | NoOp
    | SendEvent(event: Event)
    | MyEvents(format: Bytes, uuid: Option<Bytes>)
    | Linger(timeout: Option<nat>)
    | NoLinger
    | Resume
    | NixEvent(events: Bytes)
    | NoEvents
    | FilterDelete(header: Bytes, value': Option<Bytes>)
    | DivertEvents(on: bool)
    | GetVar(name: Bytes)
    | Connect
    | FilterDeleteAll

  /** `contains_wire_terminator`. */
  predicate HasTerminator(s: Bytes) { '\n' in s || '\r' in s }

  /** The fields `validate` checks, in order, with the name each error carries. */
  function Checked(c: EslCommand): Result<seq<(Bytes, string)>, CommandError>
  {
    match c
    case Auth(password) => Ok([(password, "password")])
    case UserAuth(user, password) => Ok([(user, "user"), (password, "password")])
    case Api(command) => Ok([(command, "api command")])
    case BgApi(command) => Ok([(command, "bgapi command")])
    case Events(format, events) => Ok([(format, "event format"), (events, "event list")])
    case Filter(header, value) => Ok([(header, "filter header"), (value, "filter value")])
    case SendMsg(uuid, _) => Ok(Present(uuid, "sendmsg uuid"))
    case Execute(app, args, uuid, _) =>
      Ok([(app, "execute app")] + Present(args, "execute args") + Present(uuid, "execute uuid"))
    case Log(level) => Ok([(level, "log level")])
    case SendEvent(event) =>
      (match NameOf(event)
       case Some(name) => Ok([(name, "sendevent event name")])
       case None => Err(MissingEventName))
    case MyEvents(format, uuid) => Ok([(format, "myevents format")] + Present(uuid, "myevents uuid"))
    case NixEvent(events) => Ok([(events, "nixevent list")])
    case FilterDelete(header, value) => Ok([(header, "filter delete header")] + Present(value, "filter delete value"))
    case GetVar(name) => Ok([(name, "getvar name")])
    case _ => Ok([])
  }

  function Present(field: Option<Bytes>, name: string): seq<(Bytes, string)>
  {
    match field
    case Some(s) => [(s, name)]
    case None => []
  }

  function FirstBad(fields: seq<(Bytes, string)>): (r: Option<string>)
    ensures r.None? <==> forall i :: 0 <= i < |fields| ==> !HasTerminator(fields[i].0)
    ensures r.Some? ==> exists i :: 0 <= i < |fields| && IsFirstBad(fields, i) && fields[i].1 == r.value
  {
    if fields == [] then None
    else if HasTerminator(fields[0].0) then
      assert IsFirstBad(fields, 0);
      Some(fields[0].1)
    else
      assert forall i :: 1 <= i < |fields| ==> fields[i] == fields[1..][i - 1];
      assert forall i :: 1 <= i < |fields| ==> (IsFirstBad(fields, i) <==> IsFirstBad(fields[1..], i - 1));
      FirstBad(fields[1..])
  }

  ghost predicate IsFirstBad(fields: seq<(Bytes, string)>, i: nat)
    requires i < |fields|
  {
    HasTerminator(fields[i].0) && forall j :: 0 <= j < i ==> !HasTerminator(fields[j].0)
  }

  /** `EslCommand::validate`. */
  function Validate(c: EslCommand): Result<(), CommandError>
  {
    match Checked(c)
    case Err(e) => Err(e)
    case Ok(fields) =>
      match FirstBad(fields)
      case Some(field) => Err(ContainsNewline(field))
      case None => Ok(())
  }

  function DigitChar(n: nat): Byte
    requires n < 10
  {
    ('0' as int + n) as char
  }

  /** `to_string` of a length. */
  function Decimal(n: nat): Bytes
  {
    if n < 10 then [DigitChar(n)] else Decimal(n / 10) + [DigitChar(n % 10)]
  }

  lemma {:induction false} DecimalParses(n: nat)
    ensures Framer.DigitsValue(Decimal(n)) == Some(n)
    ensures Decimal(n) != [] && !HasTerminator(Decimal(n)) && Decimal(n)[0] != '+' && Decimal(n)[0] != ' '
  {
    var c := DigitChar(n % 10);
    if n < 10 {
      assert Framer.DigitsValue([]) == Some(0);
      assert [c][..0] == [];
    } else {
      DecimalParses(n / 10);
      assert (Decimal(n / 10) + [c])[..|Decimal(n / 10)|] == Decimal(n / 10);
    }
  }

  // ---- Wire format -----------------------------------------------------------------------------

  function Words(args: seq<Bytes>): Bytes
  {
    if args == [] then [] else [' '] + args[0] + Words(args[1..])
  }

  /** `format_simple_command`. */
  method FormatSimpleCommand(cmd: Bytes, args: seq<Bytes>) returns (result: Bytes)
    ensures result == cmd + Words(args) + BLANK_LINE
  {
    result := cmd;
    for i := 0 to |args|
      invariant result + Words(args[i..]) == cmd + Words(args)
    {
      assert args[i..][1..] == args[i + 1..];
      assert result + ([' '] + args[i] + Words(args[i + 1..])) == (result + [' '] + args[i]) + Words(args[i + 1..]);
      result := result + [' '] + args[i];
    }
    assert args[|args|..] == [] && result + [] == result;
    result := result + BLANK_LINE;
  }

  function HeaderLine(h: (Bytes, Bytes)): Bytes { h.0 + ": " + h.1 }

  /** Lines, each closed by a newline. */
  function Close(lines: seq<Bytes>): Bytes
  {
    if lines == [] then [] else lines[0] + ['\n'] + Close(lines[1..])
  }

  function HeaderLines(headers: Headers): seq<Bytes>
  {
    seq(|headers|, i requires 0 <= i < |headers| => HeaderLine(headers[i]))
  }

  const CONTENT_LENGTH: Bytes := "Content-Length"

  function LengthLine(n: nat): Bytes { HeaderLine((CONTENT_LENGTH, Decimal(n))) }

  /** A command as lines and a body: its command line, its header lines, and the body announced by
      a `Content-Length` line. */
  datatype Shape = Shape(line: Bytes, headers: Headers, body: Option<Bytes>)

  function WireLines(s: Shape): seq<Bytes>
  {
    [s.line] + HeaderLines(s.headers) + (if s.body.Some? then [LengthLine(|s.body.value|)] else [])
  }

  function BodyOf(s: Shape): Bytes
  {
    if s.body.Some? then s.body.value else []
  }

  function WireOf(s: Shape): Bytes
  {
    Close(WireLines(s)) + ['\n'] + BodyOf(s)
  }

  lemma {:induction false} CloseSnoc(lines: seq<Bytes>, line: Bytes)
    ensures Close(lines + [line]) == Close(lines) + line + ['\n']
  {
    if lines == [] {
      assert [line][1..] == [] && Close([line]) == line + ['\n'] + Close([]);
    } else {
      CloseSnoc(lines[1..], line);
      assert (lines + [line])[1..] == lines[1..] + [line];
    }
  }

  /** `CommandBuilder`: headers are refused a newline as they are added, and the body is appended
      under its length. */
  class CommandBuilder {
    const command: Bytes
    var headers: Headers
    var body: Option<Bytes>

    constructor (command: Bytes)
      ensures this.command == command && headers == [] && body == None
    {
      this.command := command;
      headers, body := [], None;
    }

    method Header(name: Bytes, value: Bytes) returns (r: Result<(), CommandError>)
      modifies this`headers
      ensures r.Ok? <==> !HasTerminator(name) && !HasTerminator(value)
      ensures r.Ok? ==> headers == Insert(old(headers), name, value)
      ensures r.Err? ==> headers == old(headers)
      ensures r.Err? ==> r.error == ContainsNewline(if HasTerminator(name) then "header name" else "header value")
    {
      if HasTerminator(name) {
        return Err(ContainsNewline("header name"));
      }
      if HasTerminator(value) {
        return Err(ContainsNewline("header value"));
      }
      headers := Insert(headers, name, value);
      return Ok(());
    }

    method Build() returns (result: Bytes)
      ensures result == WireOf(Shape(command, headers, body))
    {
      var lines := HeaderLines(headers);
      result := command + ['\n'];
      assert lines[..0] == [];
      assert [command] + lines[..0] == [command];
      assert Close([command]) == command + ['\n'] + Close([]);
      for i := 0 to |headers|
        invariant result == Close([command] + lines[..i])
      {
        CloseSnoc([command] + lines[..i], lines[i]);
        assert [command] + lines[..i] + [lines[i]] == [command] + lines[..i + 1];
        assert HeaderLine(headers[i]) == headers[i].0 + ": " + headers[i].1;
        result := result + (headers[i].0 + ": " + headers[i].1) + ['\n'];
      }
      assert lines[..|headers|] == lines;
      if body.Some? {
        CloseSnoc([command] + lines, LengthLine(|body.value|));
        result := result + LengthLine(|body.value|) + ['\n'] + ['\n'] + body.value;
      } else {
        assert [command] + lines + [] == [command] + lines;
        result := result + ['\n'];
        assert result + [] == result;
      }
    }
  }

  function Executed(known: seq<Bytes>, c: EslCommand): Event
    requires c.Execute?
  {
    var h0 := Insert(Insert([], Normalize(known, "call-command"), "execute"),
                     Normalize(known, "execute-app-name"), c.app);
    var h1 := if c.args.Some? then Insert(h0, Normalize(known, "execute-app-arg"), c.args.value) else h0;
    var h2 := if c.options.eventLock then Insert(h1, Normalize(known, "event-lock"), "true") else h1;
    var h3 := if c.options.asyncMode then Insert(h2, Normalize(known, "async"), "true") else h2;
    var h4 := if c.options.loops.Some? then Insert(h3, Normalize(known, "loops"), Decimal(c.options.loops.value)) else h3;
    Event(None, h4, None)
  }

  function OptionalWord(word: Option<Bytes>): Bytes
  {
    match word
    case Some(w) => [' '] + w
    case None => []
  }

  /** The command word and arguments of a command that sends no event. */
  function Simple(c: EslCommand): (Bytes, seq<Bytes>)
    requires !c.SendMsg? && !c.Execute? && !c.SendEvent?
  {
    match c
    case Auth(password) => ("auth", [password])
    case UserAuth(user, password) => ("userauth", [user + ":" + password])
    case Api(command) => ("api", [command])
    case BgApi(command) => ("bgapi", [command])
    case Events(format, events) => ("event", [format, events])
    case Filter(header, value) => ("filter", [header, value])
    case Exit => ("exit", [])
    case Log(level) => ("log", [level])
    case NoLog => ("nolog", [])
    case NoOp => ("noop", [])
    case MyEvents(format, uuid) => ("myevents", if uuid.Some? then [uuid.value, format] else [format])
    case Linger(timeout) => ("linger", if timeout.Some? then [Decimal(timeout.value)] else [])
    case NoLinger => ("nolinger", [])
    case Resume => ("resume", [])
    case NixEvent(events) => ("nixevent", [events])
    case NoEvents => ("noevents", [])
    case FilterDelete(header, value) =>
      ("filter", if header == "all" then ["delete", "all"]
                 else if value.Some? then ["delete", header, value.value]
                 else ["delete", header])
    case FilterDeleteAll => ("filter", ["delete", "all"])
    case DivertEvents(on) => ("divert_events", [if on then "on" else "off"])
    case GetVar(name) => ("getvar", [name])
    case Connect => ("connect", [])
  }

  /** What `to_wire_format` sends, as a shape. */
  function ShapeOf(known: seq<Bytes>, c: EslCommand): Shape
  {
    match c
    case SendMsg(uuid, event) => Shape("sendmsg" + OptionalWord(uuid), event.headers, event.body)
    case Execute(_, _, uuid, _) =>
      var event := Executed(known, c);
      Shape("sendmsg" + OptionalWord(uuid), event.headers, event.body)
    case SendEvent(event) => Shape("sendevent" + OptionalWord(NameOf(event)), event.headers, event.body)
    case _ => var (word, args) := Simple(c); Shape(word + Words(args), [], None)
  }

  predicate HeadersClean(h: Headers)
  {
    forall i :: 0 <= i < |h| ==> !HasTerminator(h[i].0) && !HasTerminator(h[i].1)
  }

  /** Accepted by `validate` and by the builder. */
  predicate Accepted(known: seq<Bytes>, c: EslCommand)
  {
    Validate(c).Ok? && HeadersClean(ShapeOf(known, c).headers)
  }

  /** `to_wire_format` of an accepted command. */
  function ToWire(known: seq<Bytes>, c: EslCommand): Bytes
    requires Accepted(known, c)
  {
    WireOf(ShapeOf(known, c))
  }

  // ---- Reading the stream back -------------------------------------------------------------------

  function SplitLines(s: Bytes): seq<Bytes>
  {
    if '\n' in s then
      var i := FirstIndex(s, '\n');
      [s[..i]] + SplitLines(s[i + 1..])
    else [s]
  }

  /** A command as the switch reads it: its lines, and the body its first length header counts. */
  datatype Frame = Frame(lines: seq<Bytes>, body: Bytes)

  predicate IsLengthLine(line: Bytes)
  {
    ':' in line && Fold(line[..FirstIndex(line, ':')]) == Fold(CONTENT_LENGTH)
  }

  function LengthValue(line: Bytes): Option<nat>
    requires IsLengthLine(line)
  {
    var rest := line[FirstIndex(line, ':') + 1..];
    Framer.ParseUsize(if rest != [] && rest[0] == ' ' then rest[1..] else rest)
  }

  /** The length the first length header among `lines` announces; no header announces none. */
  function AnnouncedLength(lines: seq<Bytes>): Option<nat>
  {
    if lines == [] then Some(0)
    else if IsLengthLine(lines[0]) then LengthValue(lines[0])
    else AnnouncedLength(lines[1..])
  }

  /** Splits the first frame off a command stream: up to the first blank line, plus the length. */
  function ReadFrame(stream: Bytes): (r: Option<(Frame, Bytes)>)
    ensures r.Some? ==> |r.value.1| < |stream|
  {
    match Find(stream, BLANK_LINE)
    case None => None
    case Some(i) =>
      var lines, rest := SplitLines(stream[..i]), stream[i + 2..];
      match if lines == [] then None else AnnouncedLength(lines[1..])
      case None => None
      case Some(n) => if |rest| < n then None else Some((Frame(lines, rest[..n]), rest[n..]))
  }

  function ReadStream(stream: Bytes): seq<Frame>
    decreases |stream|
  {
    match ReadFrame(stream)
    case None => []
    case Some((frame, rest)) => [frame] + ReadStream(rest)
  }

  function FrameOf(s: Shape): Frame { Frame(WireLines(s), BodyOf(s)) }

  predicate CleanLine(line: Bytes) { line != [] && '\n' !in line }

  ghost predicate CleanLines(lines: seq<Bytes>)
  {
    forall i :: 0 <= i < |lines| ==> CleanLine(lines[i])
  }

  /** The length headers of the command's own, if any, tell the truth about its body. */
  predicate LengthAgrees(s: Shape)
  {
    AnnouncedLength(WireLines(s)[1..]) == Some(|BodyOf(s)|)
  }

  function Join(lines: seq<Bytes>): Bytes
    requires lines != []
  {
    if |lines| == 1 then lines[0] else lines[0] + ['\n'] + Join(lines[1..])
  }

  lemma {:induction false} CloseIsJoin(lines: seq<Bytes>)
    requires lines != []
    ensures Close(lines) == Join(lines) + ['\n']
  {
    if |lines| == 1 {
      assert Close(lines[1..]) == [];
      assert lines[0] + ['\n'] + [] == lines[0] + ['\n'];
    } else {
      CloseIsJoin(lines[1..]);
    }
  }

  lemma SplitCons(line: Bytes, rest: Bytes)
    requires '\n' !in line
    ensures SplitLines(line + ['\n'] + rest) == [line] + SplitLines(rest)
    ensures SplitLines(line) == [line]
  {
    var s := line + ['\n'] + rest;
    FirstIndexIs(line, '\n', rest);
    assert s[..|line|] == line && s[|line| + 1..] == rest;
  }

  lemma {:induction false} SplitOfJoin(lines: seq<Bytes>)
    requires lines != [] && CleanLines(lines)
    ensures SplitLines(Join(lines)) == lines
  {
    assert CleanLine(lines[0]);
    if |lines| > 1 {
      SplitOfJoin(lines[1..]);
      SplitCons(lines[0], Join(lines[1..]));
    } else {
      SplitCons(lines[0], []);
    }
    assert lines == [lines[0]] + lines[1..];
  }

  lemma {:induction false} CloseNoBlankLine(lines: seq<Bytes>)
    requires CleanLines(lines)
    ensures Find(Close(lines), BLANK_LINE).None?
    ensures Close(lines) != [] ==> Close(lines)[0] != '\n'
  {
    if lines != [] {
      assert CleanLine(lines[0]);
      CloseNoBlankLine(lines[1..]);
      NoBlankLineAcross(lines[0], Close(lines[1..]));
    }
  }

  function Cut(lines: seq<Bytes>, tail: Bytes): Option<(Frame, Bytes)>
    requires lines != []
  {
    match AnnouncedLength(lines[1..])
    case None => None
    case Some(n) => if |tail| < n then None else Some((Frame(lines, tail[..n]), tail[n..]))
  }

  lemma ReadFrameCuts(lines: seq<Bytes>, tail: Bytes)
    requires lines != [] && CleanLines(lines)
    ensures ReadFrame(Close(lines) + ['\n'] + tail) == Cut(lines, tail)
  {
    var head := Join(lines);
    var stream := head + BLANK_LINE + tail;
    CloseIsJoin(lines);
    CloseNoBlankLine(lines);
    SplitOfJoin(lines);
    assert Close(lines) + ['\n'] + tail == stream;
    FirstBlankLine(head, tail);
    assert stream[..|head|] == head && stream[|head| + 2..] == tail;
  }

  lemma CutAtBody(lines: seq<Bytes>, body: Bytes, rest: Bytes)
    requires lines != []
    ensures Cut(lines, body + rest) == Some((Frame(lines, body), rest)) <==> AnnouncedLength(lines[1..]) == Some(|body|)
  {
    assert (body + rest)[..|body|] == body && (body + rest)[|body|..] == rest;
  }

  /** One frame reads back, whatever follows it, exactly when its length headers agree. */
  lemma FrameReadsBackIff(s: Shape, rest: Bytes)
    requires CleanLines(WireLines(s))
    ensures ReadFrame(WireOf(s) + rest) == Some((FrameOf(s), rest)) <==> LengthAgrees(s)
  {
    var lines, body := WireLines(s), BodyOf(s);
    assert Close(lines) + ['\n'] + body + rest == Close(lines) + ['\n'] + (body + rest);
    ReadFrameCuts(lines, body + rest);
    CutAtBody(lines, body, rest);
  }

  /** A stream of frames whose length headers agree reads back as those frames, one for each. */
  lemma {:induction false} StreamReadsBack(shapes: seq<Shape>)
    requires forall i :: 0 <= i < |shapes| ==> CleanLines(WireLines(shapes[i])) && LengthAgrees(shapes[i])
    ensures ReadStream(Wires(shapes)) == Frames(shapes)
  {
    if shapes == [] {
      assert Find([], BLANK_LINE).None?;
    } else {
      FrameReadsBackIff(shapes[0], Wires(shapes[1..]));
      StreamReadsBack(shapes[1..]);
    }
  }

  function Wires(shapes: seq<Shape>): Bytes
  {
    if shapes == [] then [] else WireOf(shapes[0]) + Wires(shapes[1..])
  }

  function Frames(shapes: seq<Shape>): seq<Frame>
  {
    if shapes == [] then [] else [FrameOf(shapes[0])] + Frames(shapes[1..])
  }

  // ---- Every command ---------------------------------------------------------------------------------

  /** The header lines of one's own hold no length header. */
  predicate NoOwnLength(h: Headers)
  {
    forall i :: 0 <= i < |h| ==> !IsLengthLine(HeaderLine(h[i]))
  }

  lemma {:induction false} AnnouncedLengthSkips(lines: seq<Bytes>, last: seq<Bytes>)
    requires forall i :: 0 <= i < |lines| ==> !IsLengthLine(lines[i])
    ensures AnnouncedLength(lines + last) == AnnouncedLength(last)
  {
    if lines == [] {
      assert lines + last == last;
    } else {
      AnnouncedLengthSkips(lines[1..], last);
      assert (lines + last)[1..] == lines[1..] + last;
    }
  }

  lemma LengthLineReads(n: nat)
    requires n < 0x1_0000_0000_0000_0000
    ensures IsLengthLine(LengthLine(n)) && LengthValue(LengthLine(n)) == Some(n)
  {
    DecimalParses(n);
    var line := LengthLine(n);
    assert line == CONTENT_LENGTH + [':'] + ([' '] + Decimal(n));
    FirstIndexIs(CONTENT_LENGTH, ':', [' '] + Decimal(n));
    assert line[..|CONTENT_LENGTH|] == CONTENT_LENGTH;
    assert line[|CONTENT_LENGTH| + 1..] == [' '] + Decimal(n);
    assert ([' '] + Decimal(n))[1..] == Decimal(n);
  }

  /** Without a length header of its own a command always agrees with its body, bodies being
      shorter than the address space. */
  lemma NoOwnLengthAgrees(s: Shape)
    requires NoOwnLength(s.headers) && |BodyOf(s)| < 0x1_0000_0000_0000_0000
    ensures LengthAgrees(s)
  {
    var last := if s.body.Some? then [LengthLine(|s.body.value|)] else [];
    assert WireLines(s)[1..] == HeaderLines(s.headers) + last;
    AnnouncedLengthSkips(HeaderLines(s.headers), last);
    if s.body.Some? {
      LengthLineReads(|s.body.value|);
    }
  }

  lemma CleanHeaderLine(h: (Bytes, Bytes))
    requires '\n' !in h.0 && '\n' !in h.1
    ensures CleanLine(HeaderLine(h))
  {
    assert HeaderLine(h)[|h.0|] == ':';
  }

  lemma CleanShape(s: Shape)
    requires CleanLine(s.line) && HeadersClean(s.headers)
    ensures CleanLines(WireLines(s))
  {
    var lines := WireLines(s);
    forall i | 0 <= i < |lines| ensures CleanLine(lines[i]) {
      if 1 <= i <= |s.headers| {
        assert lines[i] == HeaderLine(s.headers[i - 1]);
        CleanHeaderLine(s.headers[i - 1]);
      } else if i > |s.headers| {
        DecimalParses(|s.body.value|);
        CleanHeaderLine((CONTENT_LENGTH, Decimal(|s.body.value|)));
      }
    }
  }

  lemma {:induction false} CleanWords(args: seq<Bytes>)
    requires forall i :: 0 <= i < |args| ==> '\n' !in args[i]
    ensures '\n' !in Words(args)
  {
    if args != [] {
      forall i | 0 <= i < |args[1..]| ensures '\n' !in args[1..][i] {
        assert args[1..][i] == args[i + 1];
      }
      CleanWords(args[1..]);
    }
  }

  lemma CleanTail(word: Bytes, tail: Bytes)
    requires CleanLine(word) && '\n' !in tail
    ensures CleanLine(word + tail)
  {
  }

  lemma CleanCommand(word: Bytes, args: seq<Bytes>)
    requires CleanLine(word) && forall i :: 0 <= i < |args| ==> '\n' !in args[i]
    ensures CleanLine(word + Words(args))
  {
    CleanWords(args);
    CleanTail(word, Words(args));
  }

  lemma CleanOptional(word: Bytes, arg: Option<Bytes>)
    requires CleanLine(word) && (arg.Some? ==> '\n' !in arg.value)
    ensures CleanLine(word + OptionalWord(arg))
  {
    CleanTail(word, OptionalWord(arg));
  }

  /** A validated command's optional fields are clean too. */
  lemma PresentClean(before: seq<(Bytes, string)>, field: Option<Bytes>, name: string, after: seq<(Bytes, string)>)
    requires FirstBad(before + Present(field, name) + after).None? && field.Some?
    ensures !HasTerminator(field.value)
  {
    var all := before + Present(field, name) + after;
    assert all[|before|] == (field.value, name);
  }

  lemma HeadClean(field: Bytes, name: string, after: seq<(Bytes, string)>)
    requires FirstBad([(field, name)] + after).None?
    ensures !HasTerminator(field)
  {
    var all := [(field, name)] + after;
    assert all[0] == (field, name);
  }

  /** Validation is enough: the command line of an accepted command is one line. */
  lemma AcceptedLineClean(known: seq<Bytes>, c: EslCommand)
    requires Validate(c).Ok?
    ensures CleanLine(ShapeOf(known, c).line)
  {
    if c.SendMsg? || c.Execute? || c.SendEvent? {
      EventLineClean(known, c);
    } else {
      if c.MyEvents? || c.FilterDelete? || c.Linger? {
        OptionalArgsClean(c);
      } else {
        PlainArgsClean(c);
      }
      var (word, args) := Simple(c);
      CleanCommand(word, args);
    }
  }

  ghost predicate CleanParts(parts: (Bytes, seq<Bytes>))
  {
    CleanLine(parts.0) && forall i :: 0 <= i < |parts.1| ==> '\n' !in parts.1[i]
  }

  lemma EventLineClean(known: seq<Bytes>, c: EslCommand)
    requires Validate(c).Ok? && (c.SendMsg? || c.Execute? || c.SendEvent?)
    ensures CleanLine(ShapeOf(known, c).line)
  {
    match c
    case SendMsg(uuid, _) =>
      assert [] + Present(uuid, "sendmsg uuid") + [] == Present(uuid, "sendmsg uuid");
      if uuid.Some? {
        PresentClean([], uuid, "sendmsg uuid", []);
      }
      CleanOptional("sendmsg", uuid);
    case Execute(app, args, uuid, _) =>
      var before := [(app, "execute app")] + Present(args, "execute args");
      assert before + Present(uuid, "execute uuid") + [] == before + Present(uuid, "execute uuid");
      if uuid.Some? {
        PresentClean(before, uuid, "execute uuid", []);
      }
      CleanOptional("sendmsg", uuid);
    case SendEvent(event) =>
      var name := NameOf(event);
      assert [(name.value, "sendevent event name")] + [] == [(name.value, "sendevent event name")];
      HeadClean(name.value, "sendevent event name", []);
      CleanOptional("sendevent", name);
  }

  lemma OptionalArgsClean(c: EslCommand)
    requires Validate(c).Ok? && (c.MyEvents? || c.FilterDelete? || c.Linger?)
    ensures CleanParts(Simple(c))
  {
    match c
    case MyEvents(format, uuid) => ThenOptionalClean(format, "myevents format", uuid, "myevents uuid");
    case FilterDelete(header, value) => ThenOptionalClean(header, "filter delete header", value, "filter delete value");
    case Linger(timeout) =>
      if timeout.Some? {
        DecimalParses(timeout.value);
      }
  }

  lemma ThenOptionalClean(field: Bytes, name: string, optional: Option<Bytes>, optionalName: string)
    requires FirstBad([(field, name)] + Present(optional, optionalName)).None?
    ensures !HasTerminator(field) && (optional.Some? ==> !HasTerminator(optional.value))
  {
    var before := [(field, name)];
    assert before + Present(optional, optionalName) + [] == before + Present(optional, optionalName);
    HeadClean(field, name, Present(optional, optionalName));
    if optional.Some? {
      PresentClean(before, optional, optionalName, []);
    }
  }

  lemma PlainArgsClean(c: EslCommand)
    requires Validate(c).Ok? && !c.SendMsg? && !c.Execute? && !c.SendEvent? && !c.MyEvents? && !c.FilterDelete? && !c.Linger?
    ensures CleanParts(Simple(c))
  {
    if c.UserAuth? || c.Events? || c.Filter? {
      TwoArgsClean(c);
    } else if Checked(c).value != [] {
      OneArgClean(c);
    }
  }

  lemma TwoArgsClean(c: EslCommand)
    requires Validate(c).Ok? && (c.UserAuth? || c.Events? || c.Filter?)
    ensures CleanParts(Simple(c))
  {
    var fields := Checked(c).value;
    assert !HasTerminator(fields[0].0) && !HasTerminator(fields[1].0);
  }

  lemma OneArgClean(c: EslCommand)
    requires Validate(c).Ok? && (c.Auth? || c.Api? || c.BgApi? || c.Log? || c.NixEvent? || c.GetVar?)
    ensures CleanParts(Simple(c))
  {
    var fields := Checked(c).value;
    assert !HasTerminator(fields[0].0);
  }

  /** An accepted command's frame reads back from the front of any stream exactly when no length
      header of its own contradicts its body. */
  lemma CommandReadsBackIff(known: seq<Bytes>, c: EslCommand, rest: Bytes)
    requires Accepted(known, c)
    ensures ReadFrame(ToWire(known, c) + rest) == Some((FrameOf(ShapeOf(known, c)), rest))
            <==> LengthAgrees(ShapeOf(known, c))
  {
    AcceptedLineClean(known, c);
    CleanShape(ShapeOf(known, c));
    FrameReadsBackIff(ShapeOf(known, c), rest);
  }

  function Shapes(known: seq<Bytes>, cs: seq<EslCommand>): seq<Shape>
  {
    seq(|cs|, i requires 0 <= i < |cs| => ShapeOf(known, cs[i]))
  }

  /** Outgoing streams are uniquely decodable: any list of accepted commands, none with a length
      header of its own, reads back as one frame per command, with its lines and its body. */
  lemma OutgoingStreamDecodes(known: seq<Bytes>, cs: seq<EslCommand>)
    requires forall i :: 0 <= i < |cs| ==>
                 && Accepted(known, cs[i])
                 && NoOwnLength(ShapeOf(known, cs[i]).headers)
                 && |BodyOf(ShapeOf(known, cs[i]))| < 0x1_0000_0000_0000_0000
    ensures ReadStream(Wires(Shapes(known, cs))) == Frames(Shapes(known, cs))
  {
    var shapes := Shapes(known, cs);
    forall i | 0 <= i < |shapes| ensures CleanLines(WireLines(shapes[i])) && LengthAgrees(shapes[i]) {
      AcceptedLineClean(known, cs[i]);
      CleanShape(shapes[i]);
      NoOwnLengthAgrees(shapes[i]);
    }
    StreamReadsBack(shapes);
  }

  /** An event that brings a length header of its own and no body swallows what follows it. */
  lemma OwnLengthMisframes(known: seq<Bytes>, n: nat)
    requires 0 < n < 0x1_0000_0000_0000_0000
    ensures var c := SendMsg(None, Event(None, [(CONTENT_LENGTH, Decimal(n))], None));
            && Accepted(known, c) && !LengthAgrees(ShapeOf(known, c))
            && forall rest :: ReadFrame(ToWire(known, c) + rest) != Some((FrameOf(ShapeOf(known, c)), rest))
  {
    var h := [(CONTENT_LENGTH, Decimal(n))];
    DecimalParses(n);
    LengthLineReads(n);
    var s := ShapeOf(known, SendMsg(None, Event(None, h, None)));
    assert HeaderLines(h) == [LengthLine(n)];
    assert WireLines(s)[1..] == [LengthLine(n)];
    forall rest ensures ReadFrame(ToWire(known, SendMsg(None, Event(None, h, None))) + rest) != Some((FrameOf(s), rest)) {
      CommandReadsBackIff(known, SendMsg(None, Event(None, h, None)), rest);
    }
  }

  // ---- The method the source calls -------------------------------------------------------------------

  ghost predicate IsMap(h: Headers)
  {
    forall i, j :: 0 <= i < j < |h| ==> h[i].0 != h[j].0
  }

  lemma {:induction false} InsertKeepsMap(h: Headers, k: Bytes, v: Bytes)
    requires IsMap(h)
    ensures IsMap(Insert(h, k, v))
    ensures forall x :: HasKey(Insert(h, k, v), x) ==> HasKey(h, x) || x == k
  {
    var r := Insert(h, k, v);
    if h != [] && h[0].0 != k {
      var rest := Insert(h[1..], k, v);
      InsertKeepsMap(h[1..], k, v);
      assert !HasKey(h[1..], h[0].0);
      assert !HasKey(rest, h[0].0);
      forall j | 1 <= j < |r| ensures r[j].0 != r[0].0 {
        assert r[j] == rest[j - 1];
      }
      forall x | HasKey(r, x) ensures HasKey(h, x) || x == k {
        var i :| 0 <= i < |r| && r[i].0 == x;
        if i > 0 {
          assert rest[i - 1].0 == x && HasKey(rest, x);
          if HasKey(h[1..], x) {
            var j :| 0 <= j < |h[1..]| && h[1..][j].0 == x;
            assert h[j + 1].0 == x;
          }
        } else {
          assert h[0].0 == x;
        }
      }
    } else {
      forall x | HasKey(r, x) ensures HasKey(h, x) || x == k {
        var i :| 0 <= i < |r| && r[i].0 == x;
        assert i > 0 ==> h[i].0 == x;
      }
    }
  }

  lemma ExecutedIsMap(known: seq<Bytes>, c: EslCommand)
    requires c.Execute?
    ensures IsMap(Executed(known, c).headers)
  {
    var a := Insert([], Normalize(known, "call-command"), "execute");
    InsertKeepsMap([], Normalize(known, "call-command"), "execute");
    InsertKeepsMap(a, Normalize(known, "execute-app-name"), c.app);
    var h0 := Insert(a, Normalize(known, "execute-app-name"), c.app);
    var h1 := if c.args.Some? then Insert(h0, Normalize(known, "execute-app-arg"), c.args.value) else h0;
    if c.args.Some? { InsertKeepsMap(h0, Normalize(known, "execute-app-arg"), c.args.value); }
    var h2 := if c.options.eventLock then Insert(h1, Normalize(known, "event-lock"), "true") else h1;
    InsertKeepsMap(h1, Normalize(known, "event-lock"), "true");
    var h3 := if c.options.asyncMode then Insert(h2, Normalize(known, "async"), "true") else h2;
    InsertKeepsMap(h2, Normalize(known, "async"), "true");
    if c.options.loops.Some? { InsertKeepsMap(h3, Normalize(known, "loops"), Decimal(c.options.loops.value)); }
  }

  /** `build_from_event`: headers go through the builder one by one, which may refuse one. */
  method BuildFromEvent(line: Bytes, event: Event) returns (r: Result<Bytes, CommandError>)
    requires IsMap(event.headers)
    ensures r.Ok? <==> HeadersClean(event.headers)
    ensures r.Ok? ==> r.value == WireOf(Shape(line, event.headers, event.body))
  {
    var builder := new CommandBuilder(line);
    for i := 0 to |event.headers|
      invariant builder.command == line && builder.body.None? && fresh(builder)
      invariant builder.headers == event.headers[..i] && HeadersClean(event.headers[..i])
    {
      var h := event.headers[i];
      var added := builder.Header(h.0, h.1);
      if added.Err? {
        return Err(added.error);
      }
      assert !HasKey(event.headers[..i], h.0);
      InsertFresh(event.headers[..i], h.0, h.1);
      assert event.headers[..i + 1] == event.headers[..i] + [h];
    }
    assert event.headers[..|event.headers|] == event.headers;
    builder.body := event.body;
    var wire := builder.Build();
    return Ok(wire);
  }

  /** The event a command sends, for those that send one. */
  function EventOf(known: seq<Bytes>, c: EslCommand): Option<Event>
  {
    match c
    case SendMsg(_, event) => Some(event)
    case SendEvent(event) => Some(event)
    case Execute(_, _, _, _) => Some(Executed(known, c))
    case _ => None
  }

  /** `to_wire_format` succeeds exactly on accepted commands and sends their wire form. */
  method ToWireFormat(known: seq<Bytes>, c: EslCommand) returns (r: Result<Bytes, CommandError>)
    requires c.SendMsg? || c.SendEvent? ==> IsMap(c.event.headers)
    ensures r.Ok? <==> Accepted(known, c)
    ensures r.Ok? ==> r.value == ToWire(known, c)
    ensures Validate(c).Err? ==> r == Err(Validate(c).error)
  {
    if Validate(c).Err? {
      return Err(Validate(c).error);
    }
    var shape := ShapeOf(known, c);
    match EventOf(known, c) {
      case Some(event) =>
        if c.Execute? {
          ExecutedIsMap(known, c);
        }
        assert shape == Shape(shape.line, event.headers, event.body);
        r := BuildFromEvent(shape.line, event);
      case None =>
        var (word, args) := Simple(c);
        var wire := FormatSimpleCommand(word, args);
        assert WireLines(shape) == [shape.line] && Close([shape.line]) == shape.line + ['\n'] + Close([]);
        assert wire == WireOf(shape);
        r := Ok(wire);
    }
  }
}
