/** Salvaging an auth reply that the switch cut off before its closing blank line. */
module Salvage {
  import opened Bytes
  import Utf8
  import opened HeaderKeys
  import opened HeaderBlock
  import opened Framer
  import opened EventFormat
  import EslParser

  /** Position of the last newline. */
  function LastNewline(s: Bytes): (r: Option<nat>)
    ensures r.Some? ==> r.value < |s| && s[r.value] == '\n' && '\n' !in s[r.value + 1..]
    ensures r.None? ==> '\n' !in s
  {
    if s == [] then None
    else if s[|s| - 1] == '\n' then Some(|s| - 1)
    else
      var front := s[..|s| - 1];
      assert s == front + [s[|s| - 1]];
      match LastNewline(front)
      case Some(i) => assert s[i + 1..] == front[i + 1..] + [s[|s| - 1]]; Some(i)
      case None => None
  }

  /** The header block to parse: every complete line, and the cut one if its name is whole. */
  function SalvageBlock(data: Bytes): Option<Bytes>
  {
    match LastNewline(data)
    case None => None
    case Some(nl) =>
      var trailing := data[nl + 1..];
      Some(if trailing == [] || ':' in trailing then data else data[..nl])
  }

  /** What `salvage_truncated_auth_response` makes of the buffered bytes. */
  function SalvageData(cfg: Config, data: Bytes): Result<Option<Message>, EslError>
  {
    if data == [] then Ok(None)
    else if !Utf8.Valid(data) then Err(TruncatedNotUtf8)
    else match SalvageBlock(data)
      case None => Ok(None)
      case Some(block) =>
        match ParseHeaders(cfg, block)
        case Err(e) => Err(e)
        case Ok(d) => Accept(d)
  }

  function Accept(d: Decoded): Result<Option<Message>, EslError>
  {
    match Get(d.headers, HEADER_CONTENT_TYPE)
    case None => Err(MissingContentType)
    case Some(ct) =>
      if ct != "command/reply" then Err(NotAuthResponse(ct))
      else Ok(Some(Message(CommandReply, d.headers, None, None, d.lossy)))
  }

  /** `salvage_truncated_auth_response`: nothing mid-body; the buffer is emptied only on success. */
  method SalvageTruncatedAuthResponse(parser: EslParser.Parser) returns (r: Result<Option<Message>, EslError>)
    requires parser.Valid()
    modifies parser, parser.buffer
    ensures parser.Valid() && parser.fed == old(parser.fed)
    ensures r == if old(parser.Value()).state.WaitingForBody? then Ok(None)
                 else SalvageData(parser.cfg, old(parser.Value()).buffer)
    ensures parser.Value() == if r.Ok? && r.value.Some? then Fresh([]) else old(parser.Value())
  {
    var waiting := parser.IsWaitingForHeaders();
    if !waiting {
      return Ok(None);
    }
    var data := parser.RemainingBytes();
    r := SalvageData(parser.cfg, data);
    if r.Ok? && r.value.Some? {
      parser.DrainBuffer();
    }
  }

  // ---- Soundness ------------------------------------------------------------------------------------

  /** The first `k` lines of a header block whole, and the first `m` bytes of the next. */
  function Truncated(fields: seq<Field>, k: nat, m: nat): Bytes
    requires k < |fields| && m <= |RenderLine(fields[k])|
  {
    Render(fields[..k]) + RenderLine(fields[k])[..m]
  }

  /** Every cut of a header block has that form. */
  lemma {:induction false} EveryCutIsTruncated(fields: seq<Field>, n: nat) returns (k: nat, m: nat)
    requires n < |Render(fields)|
    ensures k < |fields| && m <= |RenderLine(fields[k])| && Render(fields)[..n] == Truncated(fields, k, m)
    decreases |fields|
  {
    var f, rest := fields[0], fields[1..];
    var whole := RenderLine(f) + ['\n'];
    assert Render(fields) == whole + Render(rest);
    if n < |whole| {
      k, m := 0, n;
      assert fields[..0] == [];
      assert Render(fields)[..n] == RenderLine(f)[..n];
    } else {
      k, m := EveryCutIsTruncated(rest, n - |whole|);
      assert Render(fields)[..n] == whole + Render(rest)[..n - |whole|];
      TruncatedCons(f, rest, k, m);
      assert [f] + rest == fields;
      k := k + 1;
    }
  }

  lemma TruncatedCons(f: Field, rest: seq<Field>, k: nat, m: nat)
    requires k < |rest| && m <= |RenderLine(rest[k])|
    ensures Truncated([f] + rest, k + 1, m) == RenderLine(f) + ['\n'] + Truncated(rest, k, m)
  {
    assert ([f] + rest)[..k + 1] == [f] + rest[..k] && ([f] + rest)[k + 1] == rest[k];
    RenderCons(f, rest[..k]);
    Associate(RenderLine(f) + ['\n'], Render(rest[..k]), RenderLine(rest[k])[..m]);
  }

  lemma {:induction false} LinesWithTail(fields: seq<Field>, t: Bytes)
    requires AllWire(fields) && '\n' !in t && t != []
    ensures Lines(Render(fields) + t) == RenderedLines(fields) + [t]
  {
    if fields == [] {
      assert [] + t == t;
    } else {
      var line, rest := RenderLine(fields[0]), fields[1..];
      LineFacts(fields[0]);
      LinesWithTail(rest, t);
      assert line + ['\n'] + Render(rest) + t == line + ['\n'] + (Render(rest) + t);
      LinesCons(line, Render(rest) + t);
    }
  }

  lemma {:induction false} DecodeSnoc(cfg: Config, lines: seq<Bytes>, line: Bytes, acc: Decoded)
    requires DecodeLines(cfg, lines, false, acc).Ok?
    ensures DecodeLines(cfg, lines + [line], false, acc)
            == DecodeLine(cfg, line, false, DecodeLines(cfg, lines, false, acc).value)
    decreases |lines|
  {
    if lines == [] {
      assert [] + [line] == [line] && [line][1..] == [];
    } else {
      var next := DecodeLine(cfg, lines[0], false, acc).value;
      DecodeSnoc(cfg, lines[1..], line, next);
      assert (lines + [line])[0] == lines[0] && (lines + [line])[1..] == lines[1..] + [line];
    }
  }

  /** What a line cut past its colon still says: its own key, with as much of its value. */
  function CutField(f: Field, m: nat): Field
    requires |f.key| < m <= |RenderLine(f)|
  {
    Field(f.key, if m == |f.key| + 1 then [] else f.raw[..m - |f.key| - 2])
  }

  lemma CutLineParses(known: seq<Bytes>, f: Field, m: nat)
    requires Wire(f) && |f.key| < m <= |RenderLine(f)|
    ensures Wire(CutField(f, m)) && ':' in RenderLine(f)[..m]
    ensures ParseHeaderLine(known, RenderLine(f)[..m]) == ParseHeaderLine(known, RenderLine(CutField(f, m)))
  {
    var raw := CutField(f, m).raw;
    var n := m - |f.key| - 1;
    var tail := ([' '] + f.raw)[..n];
    assert forall i :: 0 <= i < |raw| ==> raw[i] == f.raw[i];
    assert RenderLine(f) == f.key + [':'] + ([' '] + f.raw);
    assert RenderLine(f)[..m] == f.key + [':'] + tail;
    assert RenderLine(f)[..m][|f.key|] == ':';
    assert n > 0 ==> tail == [' '] + raw;
    assert n > 1 ==> raw[|raw| - 1] in f.raw;
    PairParses(known, f.key, tail);
    LineParses(known, CutField(f, m));
  }

  /** The fields a cut after `k` whole lines and `m` bytes of the next leaves: the whole ones, and the
      cut one if its name is whole. */
  function Left(fields: seq<Field>, k: nat, m: nat): seq<Field>
    requires k < |fields| && m <= |RenderLine(fields[k])|
  {
    fields[..k] + (if m > |fields[k].key| then [CutField(fields[k], m)] else [])
  }

  lemma LeftFits(known: seq<Bytes>, fields: seq<Field>, k: nat, m: nat)
    requires k < |fields| && m <= |RenderLine(fields[k])| && AllWire(fields) && DistinctKeys(known, fields)
    ensures AllWire(Left(fields, k, m)) && DistinctKeys(known, Left(fields, k, m))
  {
    var left := Left(fields, k, m);
    forall i | 0 <= i < |left| ensures Wire(left[i]) {
      LeftAt(known, fields, k, m, i);
    }
    forall i, j | 0 <= i < j < |left| ensures Normalize(known, left[i].key) != Normalize(known, left[j].key) {
      LeftAt(known, fields, k, m, i);
      LeftAt(known, fields, k, m, j);
      assert Normalize(known, fields[i].key) != Normalize(known, fields[j].key);
    }
  }

  lemma LeftAt(known: seq<Bytes>, fields: seq<Field>, k: nat, m: nat, i: nat)
    requires k < |fields| && m <= |RenderLine(fields[k])| && Wire(fields[k]) && i < |Left(fields, k, m)|
    requires i < k ==> Wire(fields[i])
    ensures i <= k && Left(fields, k, m)[i].key == fields[i].key && Wire(Left(fields, k, m)[i])
  {
    if i == k {
      CutLineParses(known, fields[k], m);
    }
  }

  /** Every byte of the block is ASCII. */
  predicate AsciiBlock(fields: seq<Field>)
  {
    forall i :: 0 <= i < |Render(fields)| ==> Utf8.Ascii(Render(fields)[i])
  }

  /** One of the whole lines says this is a command reply. */
  predicate SaysCommandReply(known: seq<Bytes>, fields: seq<Field>)
  {
    exists j :: 0 <= j < |fields| && Normalize(known, fields[j].key) == HEADER_CONTENT_TYPE
                && ValueOf(fields[j]) == "command/reply"
  }

  /** What is salvaged of the fields left: a command reply with exactly their headers and lossy record;
      or, with strict decoding, a refusal that names the cut field, because the cut fell inside an
      encoded character of its value. */
  ghost function Salvaged(cfg: Config, left: seq<Field>): Result<Option<Message>, EslError>
  {
    if Readable(cfg, left) || left == []
    then Ok(Some(Message(CommandReply, Expected(cfg.known, left, false), None, None, Recorded(cfg.known, left))))
    else Err(InvalidUtf8InHeader(Normalize(cfg.known, left[|left| - 1].key)))
  }

  lemma {:induction false} LastNewlineIs(a: Bytes, t: Bytes)
    requires '\n' !in t
    ensures LastNewline(a + ['\n'] + t) == Some(|a|)
    decreases |t|
  {
    var s := a + ['\n'] + t;
    if t != [] {
      var front := t[..|t| - 1];
      assert s[|s| - 1] == t[|t| - 1] && s[|s| - 1] in t;
      assert s[..|s| - 1] == a + ['\n'] + front;
      LastNewlineIs(a, front);
    }
  }

  lemma TruncatedShape(fields: seq<Field>, k: nat, m: nat)
    requires 0 < k < |fields| && AllWire(fields) && m <= |RenderLine(fields[k])|
    ensures AllWire(fields[..k]) && '\n' !in RenderLine(fields[k])[..m]
    ensures Truncated(fields, k, m) == RenderHead(fields[..k]) + ['\n'] + RenderLine(fields[k])[..m]
    ensures Render(fields[..k]) == RenderHead(fields[..k]) + ['\n']
  {
    LinesOfRender(fields[..k]);
    LineFacts(fields[k]);
  }

  lemma SalvageBlockIs(head: Bytes, t: Bytes)
    requires '\n' !in t
    ensures SalvageBlock(head + ['\n'] + t)
            == Some(if t == [] || ':' in t then head + ['\n'] + t else head)
  {
    LastNewlineIs(head, t);
    var s := head + ['\n'] + t;
    assert s[|head| + 1..] == t && s[..|head|] == head;
  }

  lemma {:induction false} RenderedLinesSnoc(fields: seq<Field>, f: Field)
    ensures RenderedLines(fields + [f]) == RenderedLines(fields) + [RenderLine(f)]
    decreases |fields|
  {
    if fields == [] {
      assert [] + [f] == [f] && [f][1..] == [];
      assert RenderedLines([f]) == [RenderLine(f)] + RenderedLines([]);
    } else {
      RenderedLinesSnoc(fields[1..], f);
      assert (fields + [f])[0] == fields[0] && (fields + [f])[1..] == fields[1..] + [f];
    }
  }

  /** The block chosen from a cut reply decodes as the fields left. */
  lemma BlockDecodes(cfg: Config, fields: seq<Field>, k: nat, m: nat)
    requires 0 < k < |fields| && AllWire(fields) && Readable(cfg, fields[..k]) && DistinctKeys(cfg.known, fields)
    requires m <= |RenderLine(fields[k])|
    ensures var block := SalvageBlock(Truncated(fields, k, m));
            block.Some? && ParseHeaders(cfg, block.value)
                           == DecodeLines(cfg, RenderedLines(Left(fields, k, m)), false, Decoded([], []))
  {
    var whole, t := fields[..k], RenderLine(fields[k])[..m];
    TruncatedShape(fields, k, m);
    SalvageBlockIs(RenderHead(whole), t);
    LinesOfRender(whole);
    if m > |fields[k].key| {
      TailDecodes(cfg, fields, k, m);
      CutLineParses(cfg.known, fields[k], m);
    } else {
      assert t == fields[k].key[..m];
      assert whole + [] == whole;
      assert t == [] ==> RenderHead(whole) + ['\n'] + t == Render(whole);
    }
  }

  lemma TailDecodes(cfg: Config, fields: seq<Field>, k: nat, m: nat)
    requires 0 < k < |fields| && AllWire(fields) && Readable(cfg, fields[..k]) && DistinctKeys(cfg.known, fields)
    requires |fields[k].key| < m <= |RenderLine(fields[k])|
    ensures ParseHeaders(cfg, Truncated(fields, k, m)) == DecodeLines(cfg, RenderedLines(Left(fields, k, m)), false, Decoded([], []))
  {
    var whole, t, cut := fields[..k], RenderLine(fields[k])[..m], CutField(fields[k], m);
    var none := Decoded([], []);
    TruncatedShape(fields, k, m);
    LinesWithTail(whole, t);
    DecodeAll(cfg, whole, false);
    CutLineParses(cfg.known, fields[k], m);
    DecodeSnoc(cfg, RenderedLines(whole), t, none);
    DecodeSnoc(cfg, RenderedLines(whole), RenderLine(cut), none);
    RenderedLinesSnoc(whole, cut);
  }

  /** The fields left decode, or the cut one is refused. */
  lemma LeftDecodes(cfg: Config, fields: seq<Field>, k: nat, m: nat)
    requires 0 < k < |fields| && AllWire(fields) && Readable(cfg, fields[..k]) && DistinctKeys(cfg.known, fields)
    requires m <= |RenderLine(fields[k])|
    ensures var left := Left(fields, k, m);
            DecodeLines(cfg, RenderedLines(left), false, Decoded([], []))
            == if Readable(cfg, left) then Ok(Decoded(Expected(cfg.known, left, false), Recorded(cfg.known, left)))
               else Err(InvalidUtf8InHeader(Normalize(cfg.known, left[|left| - 1].key)))
  {
    var left := Left(fields, k, m);
    LeftFits(cfg.known, fields, k, m);
    if Readable(cfg, left) {
      DecodeAll(cfg, left, false);
    } else {
      forall i | 0 <= i < k ensures IsText(left[i]) {
        assert left[i] == fields[..k][i];
      }
      assert |left| == k + 1;
      StrictRefuses(cfg, left, false, Decoded([], []), k);
    }
  }

  /** Salvage soundness, exactly: of any ASCII command reply with distinct keys, cut anywhere after the
      line that says so, the message salvaged is that of the fields left, the cut one included if its
      name is whole, with as much of its value as there is. */
  lemma SalvageSound(cfg: Config, fields: seq<Field>, k: nat, m: nat)
    requires 0 < k < |fields| && AllWire(fields) && Readable(cfg, fields[..k]) && DistinctKeys(cfg.known, fields)
    requires m <= |RenderLine(fields[k])| && AsciiBlock(fields)
    requires SaysCommandReply(cfg.known, fields[..k])
    ensures SalvageData(cfg, Truncated(fields, k, m)) == Salvaged(cfg, Left(fields, k, m))
  {
    var data, left := Truncated(fields, k, m), Left(fields, k, m);
    CutIsAscii(fields, k, m);
    Utf8.AsciiIsValid(data);
    BlockDecodes(cfg, fields, k, m);
    LeftDecodes(cfg, fields, k, m);
    LeftFits(cfg.known, fields, k, m);
    LeftSaysSo(cfg.known, fields, k, m);
    ContentTypeExpected(cfg.known, left);
    TruncatedShape(fields, k, m);
    if Readable(cfg, left) {
      SalvageDataIs(cfg, data, Decoded(Expected(cfg.known, left, false), Recorded(cfg.known, left)));
    }
  }

  lemma CutIsAscii(fields: seq<Field>, k: nat, m: nat)
    requires k < |fields| && m <= |RenderLine(fields[k])| && AsciiBlock(fields)
    ensures forall i :: 0 <= i < |Truncated(fields, k, m)| ==> Utf8.Ascii(Truncated(fields, k, m)[i])
  {
    var data := Truncated(fields, k, m);
    CutIsPrefix(fields, k, m);
    forall i | 0 <= i < |data| ensures Utf8.Ascii(data[i]) {
      assert data[i] == Render(fields)[i];
    }
  }

  lemma LeftSaysSo(known: seq<Bytes>, fields: seq<Field>, k: nat, m: nat)
    requires k < |fields| && m <= |RenderLine(fields[k])| && SaysCommandReply(known, fields[..k])
    ensures SaysCommandReply(known, Left(fields, k, m))
  {
    var j :| 0 <= j < k && Normalize(known, fields[..k][j].key) == HEADER_CONTENT_TYPE
             && ValueOf(fields[..k][j]) == "command/reply";
    assert Left(fields, k, m)[j] == fields[..k][j];
  }

  lemma {:induction false} CutIsPrefix(fields: seq<Field>, k: nat, m: nat)
    requires k < |fields| && m <= |RenderLine(fields[k])|
    ensures Truncated(fields, k, m) <= Render(fields)
    decreases k
  {
    var line := RenderLine(fields[0]);
    if k == 0 {
      assert fields[..0] == [];
    } else {
      CutIsPrefix(fields[1..], k - 1, m);
      assert fields[..k][0] == fields[0] && fields[..k][1..] == fields[1..][..k - 1];
      assert Render(fields[..k]) == line + ['\n'] + Render(fields[1..][..k - 1]);
      assert Truncated(fields, k, m) == line + ['\n'] + Truncated(fields[1..], k - 1, m);
    }
  }

  // ---- Every cut ----------------------------------------------------------------------------------

  lemma RenderCons(f: Field, rest: seq<Field>)
    ensures Render([f] + rest) == RenderLine(f) + ['\n'] + Render(rest)
  {
    assert ([f] + rest)[0] == f && ([f] + rest)[1..] == rest;
  }

  lemma {:induction false} RenderSplit(a: seq<Field>, b: seq<Field>)
    ensures Render(a + b) == Render(a) + Render(b)
    decreases |a|
  {
    if a == [] {
      assert a + b == b && [] + Render(b) == Render(b);
    } else {
      var f, rest := a[0], a[1..];
      assert a + b == [f] + (rest + b) && a == [f] + rest;
      RenderSplit(rest, b);
      RenderCons(f, rest + b);
      RenderCons(f, rest);
      Associate(RenderLine(f) + ['\n'], Render(rest), Render(b));
    }
  }

  /** A cut inside line `k` is shorter than any later line's end. */
  lemma CutIsShorter(fields: seq<Field>, j: nat, k: nat, m: nat)
    requires k < j <= |fields| && m <= |RenderLine(fields[k])|
    ensures |Truncated(fields, k, m)| < |Render(fields[..j])|
  {
    var line := fields[k];
    assert fields[..j] == fields[..k] + ([line] + fields[k + 1..j]);
    RenderSplit(fields[..k], [line] + fields[k + 1..j]);
    RenderCons(line, fields[k + 1..j]);
  }

  /** With every line whole, every header is salvaged. */
  lemma SalvageWhole(cfg: Config, fields: seq<Field>)
    requires fields != [] && AllWire(fields) && Readable(cfg, fields) && DistinctKeys(cfg.known, fields)
    requires AsciiBlock(fields) && SaysCommandReply(cfg.known, fields)
    ensures SalvageData(cfg, Render(fields)) == Salvaged(cfg, fields)
  {
    Utf8.AsciiIsValid(Render(fields));
    RenderDecodes(cfg, fields, false);
    WholeBlock(fields);
    ContentTypeExpected(cfg.known, fields);
    SalvageDataIs(cfg, Render(fields), Decoded(Expected(cfg.known, fields, false), Recorded(cfg.known, fields)));
  }

  lemma SalvageDataIs(cfg: Config, data: Bytes, d: Decoded)
    requires data != [] && Utf8.Valid(data) && SalvageBlock(data).Some?
    requires ParseHeaders(cfg, SalvageBlock(data).value) == Ok(d)
    ensures SalvageData(cfg, data) == Accept(d)
  {
  }

  lemma WholeBlock(fields: seq<Field>)
    requires fields != [] && AllWire(fields)
    ensures Render(fields) != [] && SalvageBlock(Render(fields)) == Some(Render(fields))
  {
    LinesOfRender(fields);
    SalvageBlockIs(RenderHead(fields), []);
    assert RenderHead(fields) + ['\n'] + [] == Render(fields);
  }

  lemma ContentTypeExpected(known: seq<Bytes>, fields: seq<Field>)
    requires DistinctKeys(known, fields) && SaysCommandReply(known, fields)
    ensures Get(Expected(known, fields, false), HEADER_CONTENT_TYPE) == Some("command/reply")
  {
    var j :| 0 <= j < |fields| && Normalize(known, fields[j].key) == HEADER_CONTENT_TYPE
             && ValueOf(fields[j]) == "command/reply";
    GetExpected(known, fields, [], j);
    assert Expected(known, fields, false) + [] == Expected(known, fields, false);
  }

  /** What a cut at byte `n` leaves: all the fields, or `k` whole ones and `m` bytes of the next. */
  ghost predicate CutAt(fields: seq<Field>, n: nat, k: nat, m: nat)
  {
    && k <= |fields| && n == |Render(fields[..k])| + m
    && (if k == |fields| then m == 0 else m <= |RenderLine(fields[k])|)
  }

  function LeftBy(fields: seq<Field>, k: nat, m: nat): seq<Field>
    requires k < |fields| ==> m <= |RenderLine(fields[k])|
  {
    if k < |fields| then Left(fields, k, m) else fields
  }

  /** The theorem for every cut: of any ASCII command reply with distinct keys, cut at any byte past
      the lines that say what it is, what is salvaged is exactly what the fields left say. */
  lemma SalvageAnyCut(cfg: Config, fields: seq<Field>, j: nat, n: nat) returns (k: nat, m: nat)
    requires 0 < j <= |fields| && AllWire(fields) && Readable(cfg, fields) && DistinctKeys(cfg.known, fields)
    requires AsciiBlock(fields) && SaysCommandReply(cfg.known, fields[..j])
    requires |Render(fields[..j])| <= n <= |Render(fields)|
    ensures j <= k && CutAt(fields, n, k, m)
    ensures SalvageData(cfg, Render(fields)[..n]) == Salvaged(cfg, LeftBy(fields, k, m))
  {
    if n == |Render(fields)| {
      k, m := |fields|, 0;
      assert fields[..k] == fields && Render(fields)[..n] == Render(fields);
      SaysSooner(cfg.known, fields, j, k);
      SalvageWhole(cfg, fields);
    } else {
      k, m := WhereCut(fields, j, n);
      SaysSooner(cfg.known, fields, j, k);
      SalvageSound(cfg, fields, k, m);
      assert |Render(fields)[..n]| == n;
    }
  }

  /** A cut past line `j` leaves the lines up to `k` whole, and no more. */
  lemma WhereCut(fields: seq<Field>, j: nat, n: nat) returns (k: nat, m: nat)
    requires j <= |fields| && |Render(fields[..j])| <= n < |Render(fields)|
    ensures j <= k < |fields| && m <= |RenderLine(fields[k])| && Render(fields)[..n] == Truncated(fields, k, m)
    ensures |Render(fields[..k])| <= n < |Render(fields[..k + 1])|
  {
    k, m := EveryCutIsTruncated(fields, n);
    CutIsShorter(fields, k + 1, k, m);
    if k < j {
      CutIsShorter(fields, j, k, m);
    }
  }

  lemma SaysSooner(known: seq<Bytes>, fields: seq<Field>, j: nat, k: nat)
    requires j <= k <= |fields| && SaysCommandReply(known, fields[..j])
    ensures SaysCommandReply(known, fields[..k])
  {
    var i :| 0 <= i < j && Normalize(known, fields[..j][i].key) == HEADER_CONTENT_TYPE
             && ValueOf(fields[..j][i]) == "command/reply";
    assert fields[..k][i] == fields[..j][i];
  }

  /** What is not salvaged: nothing, text with no complete line, bytes that are not text, and a reply
      that is not the one awaited. */
  lemma NotSalvaged(cfg: Config, data: Bytes)
    ensures '\n' !in data && (data == [] || Utf8.Valid(data)) ==> SalvageData(cfg, data) == Ok(None)
    ensures data != [] && !Utf8.Valid(data) ==> SalvageData(cfg, data) == Err(TruncatedNotUtf8)
  {
  }

  lemma OtherReplyRefused(cfg: Config, fields: seq<Field>, ct: Bytes, j: nat)
    requires fields != [] && AllWire(fields) && Readable(cfg, fields) && DistinctKeys(cfg.known, fields)
    requires AsciiBlock(fields) && j < |fields| && Normalize(cfg.known, fields[j].key) == HEADER_CONTENT_TYPE
    requires ValueOf(fields[j]) == ct != "command/reply"
    ensures SalvageData(cfg, Render(fields)) == Err(NotAuthResponse(ct))
  {
    Utf8.AsciiIsValid(Render(fields));
    RenderDecodes(cfg, fields, false);
    WholeBlock(fields);
    GetExpected(cfg.known, fields, [], j);
    assert Expected(cfg.known, fields, false) + [] == Expected(cfg.known, fields, false);
    SalvageDataIs(cfg, Render(fields), Decoded(Expected(cfg.known, fields, false), Recorded(cfg.known, fields)));
  }
}
