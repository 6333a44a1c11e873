/** Header blocks: `Key: value` lines, percent-decoded into an insertion-ordered map. */
module HeaderBlock {
  import opened Bytes
  import Utf8
  import opened HeaderKeys

  const UNDEF_VALUE: Bytes := "_undef_"

  datatype EslError =
    | InvalidHeader(header: Bytes)
    | InvalidUtf8InHeader(key: Bytes)
    | HeadersNotUtf8
    | BodyNotUtf8
    | MissingContentType
    | UnrecognizedContentType(contentType: Bytes)
    | MessageTooLarge(length: nat)
    | BufferOverflow(size: nat)
    | NotAuthResponse(contentType: Bytes)
    | TruncatedNotUtf8

  /** `EventHeader` table and the `strict_header_utf8` option of one parser. */
  datatype Config = Config(known: seq<Bytes>, strict: bool)

  /** An `IndexMap<String, String>` in insertion order. */
  type Headers = seq<(Bytes, Bytes)>

  ghost predicate HasKey(h: Headers, k: Bytes)
  {
    exists i :: 0 <= i < |h| && h[i].0 == k
  }

  function Get(h: Headers, k: Bytes): (r: Option<Bytes>)
    ensures r.Some? <==> HasKey(h, k)
  {
    if h == [] then None
    else if h[0].0 == k then assert HasKey(h, k); Some(h[0].1)
    else
      var r := Get(h[1..], k);
      assert HasKey(h[1..], k) ==> HasKey(h, k) by {
        if HasKey(h[1..], k) {
          var i :| 0 <= i < |h[1..]| && h[1..][i].0 == k;
          assert h[i + 1].0 == k;
        }
      }
      assert HasKey(h, k) ==> HasKey(h[1..], k) by {
        if HasKey(h, k) {
          var i :| 0 <= i < |h| && h[i].0 == k;
          assert h[1..][i - 1].0 == k;
        }
      }
      r
  }

  /** `IndexMap::insert`: an existing key keeps its place and takes the new value. */
  function Insert(h: Headers, k: Bytes, v: Bytes): Headers
  {
    if h == [] then [(k, v)]
    else if h[0].0 == k then [(k, v)] + h[1..]
    else [h[0]] + Insert(h[1..], k, v)
  }

  lemma {:induction false} InsertFresh(h: Headers, k: Bytes, v: Bytes)
    requires !HasKey(h, k)
    ensures Insert(h, k, v) == h + [(k, v)]
  {
    if h != [] {
      assert h[0].0 != k;
      forall i | 0 <= i < |h[1..]| ensures h[1..][i].0 != k {
        assert h[i + 1].0 != k;
      }
      InsertFresh(h[1..], k, v);
    }
  }

  datatype LossyValue = LossyValue(key: Bytes, rawValue: Bytes)

  datatype Decoded = Decoded(headers: Headers, lossy: seq<LossyValue>)

  function StripCr(line: Bytes): Bytes
  {
    if line != [] && line[|line| - 1] == '\r' then line[..|line| - 1] else line
  }

  /** `str::lines`: a final line may lack its newline, and loses a carriage return only with it. */
  function Lines(s: Bytes): seq<Bytes>
  {
    if s == [] then []
    else if '\n' in s then
      var i := FirstIndex(s, '\n');
      [StripCr(s[..i])] + Lines(s[i + 1..])
    else [s]
  }

  /** `parse_header_line`: `None` for a blank line, an error for one without a colon. */
  function ParseHeaderLine(known: seq<Bytes>, raw: Bytes): Result<Option<(Bytes, Bytes)>, EslError>
  {
    var line := StripCr(raw);
    if line == [] then Ok(None)
    else if ':' !in line then Err(InvalidHeader(line))
    else
      var colon := FirstIndex(line, ':');
      var rest := line[colon + 1..];
      var value := if rest != [] && rest[0] == ' ' then rest[1..] else rest;
      Ok(Some((Normalize(known, line[..colon]), value)))
  }

  function HexDigit(c: Byte): Option<nat>
  {
    if '0' <= c <= '9' then Some(c as int - '0' as int)
    else if 'A' <= c <= 'F' then Some(c as int - 'A' as int + 10)
    else if 'a' <= c <= 'f' then Some(c as int - 'a' as int + 10)
    else None
  }

  predicate EscapeAt(s: Bytes)
  {
    |s| >= 3 && s[0] == '%' && HexDigit(s[1]).Some? && HexDigit(s[2]).Some?
  }

  /** `percent_decode_str`: a percent sign not followed by two hex digits stands for itself. */
  function PercentDecode(s: Bytes): Bytes
  {
    if s == [] then []
    else if EscapeAt(s) then
      [(HexDigit(s[1]).value * 16 + HexDigit(s[2]).value) as char] + PercentDecode(s[3..])
    else [s[0]] + PercentDecode(s[1..])
  }

  /** `decode_value`: the decoded text, and the lossy record it leaves unless strict. */
  function DecodeValue(key: Bytes, raw: Bytes, strict: bool): Result<(Bytes, seq<LossyValue>), EslError>
  {
    var bytes := PercentDecode(raw);
    if Utf8.Valid(bytes) then Ok((bytes, []))
    else if strict then Err(InvalidUtf8InHeader(key))
    else Ok((Utf8.Lossy(bytes), [LossyValue(key, raw)]))
  }

  /** The block's lines folded into `acc`, stopping at the first error. Both sinks of the source
      store under the normalised key; normalising it once more changes nothing. */
  function DecodeLines(cfg: Config, lines: seq<Bytes>, skipUndef: bool, acc: Decoded): Result<Decoded, EslError>
  {
    if lines == [] then Ok(acc)
    else match DecodeLine(cfg, lines[0], skipUndef, acc)
      case Err(e) => Err(e)
      case Ok(next) => DecodeLines(cfg, lines[1..], skipUndef, next)
  }

  function DecodeLine(cfg: Config, line: Bytes, skipUndef: bool, acc: Decoded): Result<Decoded, EslError>
  {
    match ParseHeaderLine(cfg.known, line)
    case Err(e) => Err(e)
    case Ok(None) => Ok(acc)
    case Ok(Some((key, raw))) => Store(cfg, key, raw, skipUndef, acc)
  }

  /** One parsed pair decoded and handed to the sink. */
  function Store(cfg: Config, key: Bytes, raw: Bytes, skipUndef: bool, acc: Decoded): Result<Decoded, EslError>
  {
    match DecodeValue(key, raw, cfg.strict)
    case Err(e) => Err(e)
    case Ok((value, lossy)) =>
      var recorded := acc.(lossy := acc.lossy + lossy);
      if skipUndef && value == UNDEF_VALUE then Ok(recorded)
      else Ok(recorded.(headers := Insert(acc.headers, key, value)))
  }

  function DecodeBlock(cfg: Config, block: Bytes, skipUndef: bool): Result<Decoded, EslError>
  {
    DecodeLines(cfg, Lines(block), skipUndef, Decoded([], []))
  }

  /** `decode_header_block`: the loop over the lines, filling the sink as it goes. */
  method DecodeHeaderBlock(cfg: Config, block: Bytes, skipUndef: bool) returns (r: Result<Decoded, EslError>)
    ensures r == DecodeBlock(cfg, block, skipUndef)
  {
    var lines := Lines(block);
    var sink := Decoded([], []);
    for i := 0 to |lines|
      invariant DecodeLines(cfg, lines[i..], skipUndef, sink) == DecodeBlock(cfg, block, skipUndef)
    {
      assert lines[i..][1..] == lines[i + 1..];
      match ParseHeaderLine(cfg.known, lines[i]) {
        case Err(e) => return Err(e);
        case Ok(None) =>
        case Ok(Some(pair)) =>
          match DecodeValue(pair.0, pair.1, cfg.strict) {
            case Err(e) => return Err(e);
            case Ok(decoded) =>
              sink := sink.(lossy := sink.lossy + decoded.1);
              if !(skipUndef && decoded.0 == UNDEF_VALUE) {
                sink := sink.(headers := Insert(sink.headers, pair.0, decoded.0));
              }
          }
      }
    }
    return Ok(sink);
  }

  /** `parse_headers`: the framing block of a message. */
  function ParseHeaders(cfg: Config, block: Bytes): Result<Decoded, EslError>
  {
    DecodeBlock(cfg, block, false)
  }
}
