/** The corners of header blocks: carriage returns, blank lines, lines that are no header, repeated
    names, percent escapes and lengths. */
module Blocks {
  import opened Bytes
  import Utf8
  import opened HeaderKeys
  import opened HeaderBlock
  import opened EventFormat
  import Framer
  import Commands

  // ---- Line ends ---------------------------------------------------------------------------------------

  /** The same lines, each closed by a newline or by a carriage return and a newline. */
  function RenderEnds(fields: seq<Field>, crs: seq<bool>): Bytes
    requires |crs| == |fields|
  {
    if fields == [] then []
    else RenderLine(fields[0]) + (if crs[0] then "\r\n" else "\n") + RenderEnds(fields[1..], crs[1..])
  }

  lemma CrLine(line: Bytes, rest: Bytes)
    requires '\n' !in line && StripCr(line) == line
    ensures Lines(line + "\r\n" + rest) == [line] + Lines(rest)
  {
    var long, s := line + ['\r'], line + "\r\n" + rest;
    assert s == long + ['\n'] + rest;
    FirstIndexIs(long, '\n', rest);
    assert s[..|long|] == long && s[|long| + 1..] == rest;
    assert long[..|long| - 1] == line;
  }

  lemma {:induction false} LinesOfEnds(fields: seq<Field>, crs: seq<bool>)
    requires AllWire(fields) && |crs| == |fields|
    ensures Lines(RenderEnds(fields, crs)) == RenderedLines(fields)
    decreases |fields|
  {
    if fields != [] {
      var line, rest := RenderLine(fields[0]), RenderEnds(fields[1..], crs[1..]);
      LineFacts(fields[0]);
      LinesOfEnds(fields[1..], crs[1..]);
      if crs[0] {
        CrLine(line, rest);
      } else {
        LinesCons(line, rest);
      }
    }
  }

  /** Carriage returns at line ends change nothing, whichever lines have them. */
  lemma LineEndsIgnored(cfg: Config, fields: seq<Field>, crs: seq<bool>, skipUndef: bool)
    requires AllWire(fields) && |crs| == |fields|
    ensures DecodeBlock(cfg, RenderEnds(fields, crs), skipUndef) == DecodeBlock(cfg, Render(fields), skipUndef)
  {
    LinesOfEnds(fields, crs);
    LinesOfRender(fields);
  }

  /** Nor does one at the end of a last line that lacks its newline. */
  lemma LastCrIgnored(known: seq<Bytes>, line: Bytes)
    requires line == [] || line[|line| - 1] != '\r'
    ensures ParseHeaderLine(known, line + ['\r']) == ParseHeaderLine(known, line)
  {
    assert StripCr(line + ['\r']) == line;
  }

  /** Blank lines in front of a block are skipped. */
  lemma BlankLineSkipped(cfg: Config, block: Bytes, skipUndef: bool)
    ensures DecodeBlock(cfg, "\n" + block, skipUndef) == DecodeBlock(cfg, block, skipUndef)
    ensures DecodeBlock(cfg, "\r\n" + block, skipUndef) == DecodeBlock(cfg, block, skipUndef)
  {
    var none: Bytes := [];
    assert "\n" + block == none + ['\n'] + block;
    assert "\r\n" + block == none + "\r\n" + block;
    LinesCons(none, block);
    CrLine(none, block);
    DecodeCons(cfg, none, Lines(block), skipUndef, Decoded([], []));
  }

  // ---- Lines that are no header ------------------------------------------------------------------------

  lemma {:induction false} DecodeAppend(cfg: Config, a: seq<Bytes>, b: seq<Bytes>, skipUndef: bool, acc: Decoded)
    ensures var r := DecodeLines(cfg, a, skipUndef, acc);
            DecodeLines(cfg, a + b, skipUndef, acc) == if r.Ok? then DecodeLines(cfg, b, skipUndef, r.value) else Err(r.error)
    decreases |a|
  {
    if a == [] {
      assert a + b == b;
    } else {
      assert a == [a[0]] + a[1..] && a + b == [a[0]] + (a[1..] + b);
      DecodeCons(cfg, a[0], a[1..], skipUndef, acc);
      DecodeCons(cfg, a[0], a[1..] + b, skipUndef, acc);
      var r := DecodeLine(cfg, a[0], skipUndef, acc);
      if r.Ok? {
        DecodeAppend(cfg, a[1..], b, skipUndef, r.value);
      }
    }
  }

  /** A line without a colon fails the whole block and is named, wherever it stands after good ones and
      whatever follows. */
  lemma ColonlessRefused(cfg: Config, fields: seq<Field>, line: Bytes, rest: seq<Bytes>, skipUndef: bool)
    requires AllWire(fields) && Readable(cfg, fields) && DistinctKeys(cfg.known, fields)
    requires line != [] && ':' !in line && line[|line| - 1] != '\r'
    ensures DecodeLines(cfg, RenderedLines(fields) + ([line] + rest), skipUndef, Decoded([], [])) == Err(InvalidHeader(line))
  {
    DecodeAll(cfg, fields, skipUndef);
    DecodeAppend(cfg, RenderedLines(fields), [line] + rest, skipUndef, Decoded([], []));
    var sofar := Decoded(Expected(cfg.known, fields, skipUndef), Recorded(cfg.known, fields));
    DecodeCons(cfg, line, rest, skipUndef, sofar);
  }

  // ---- Repeated names ------------------------------------------------------------------------------------

  /** A name set again keeps its place and takes the later value; every other header stays. */
  lemma {:induction false} SetAgain(h: Headers, i: nat, k: Bytes, v: Bytes)
    requires i < |h| && h[i].0 == k && forall j :: 0 <= j < i ==> h[j].0 != k
    ensures Insert(h, k, v) == h[i := (k, v)]
    decreases |h|
  {
    if i > 0 {
      assert forall j :: 0 <= j < i - 1 ==> h[1..][j] == h[j + 1];
      SetAgain(h[1..], i - 1, k, v);
    }
  }

  // ---- Percent escapes -----------------------------------------------------------------------------------

  const HEX_UPPER: Bytes := "0123456789ABCDEF"
  const HEX_LOWER: Bytes := "0123456789abcdef"

  function HexIn(upper: bool, n: nat): Byte
    requires n < 16
  {
    if upper then HEX_UPPER[n] else HEX_LOWER[n]
  }

  lemma HexInReads(upper: bool, n: nat)
    requires n < 16
    ensures HexDigit(HexIn(upper, n)) == Some(n)
  {
  }

  lemma HexRanges(c: Byte)
    ensures '0' <= c <= '9' ==> c in HEX_UPPER
    ensures 'A' <= c <= 'F' ==> c in HEX_UPPER
    ensures 'a' <= c <= 'f' ==> c in HEX_LOWER
  {
    if '0' <= c <= '9' {
      assert HEX_UPPER[c as int - '0' as int] == c;
    }
    if 'A' <= c <= 'F' {
      assert HEX_UPPER[c as int - 'A' as int + 10] == c;
    }
    if 'a' <= c <= 'f' {
      assert HEX_LOWER[c as int - 'a' as int + 10] == c;
    }
  }

  /** An escape stands for its byte, whichever case either digit is in. */
  lemma EscapeDecodes(c: Byte, rest: Bytes, upperHigh: bool, upperLow: bool)
    requires c as int < 256
    ensures PercentDecode(['%', HexIn(upperHigh, c as int / 16), HexIn(upperLow, c as int % 16)] + rest)
            == [c] + PercentDecode(rest)
  {
    var e := ['%', HexIn(upperHigh, c as int / 16), HexIn(upperLow, c as int % 16)];
    HexInReads(upperHigh, c as int / 16);
    HexInReads(upperLow, c as int % 16);
    assert EscapeAt(e + rest) && (e + rest)[3..] == rest;
  }

  /** Anything else stands for itself: a character other than the percent sign, and a percent sign
      without two hexadecimal digits behind it. */
  lemma LiteralDecodes(c: Byte, rest: Bytes)
    requires c != '%' || |rest| < 2
             || (rest[0] !in HEX_UPPER && rest[0] !in HEX_LOWER) || (rest[1] !in HEX_UPPER && rest[1] !in HEX_LOWER)
    ensures PercentDecode([c] + rest) == [c] + PercentDecode(rest)
  {
    var s := [c] + rest;
    assert s[1..] == rest;
    if |rest| >= 2 {
      NotHex(rest[0]);
      NotHex(rest[1]);
      assert s[1] == rest[0] && s[2] == rest[1];
    }
    assert !EscapeAt(s);
  }

  lemma NotHex(c: Byte)
    ensures HexDigit(c).Some? ==> c in HEX_UPPER || c in HEX_LOWER
  {
    HexRanges(c);
  }

  // ---- Lengths ---------------------------------------------------------------------------------------------

  function Zeros(k: nat): Bytes { seq(k, _ => '0') }

  lemma {:induction false} ZerosValue(k: nat)
    ensures Framer.DigitsValue(Zeros(k)) == Some(0)
  {
    if k > 0 {
      ZerosValue(k - 1);
      assert Zeros(k)[..k - 1] == Zeros(k - 1);
    }
  }

  lemma {:induction false} LeadingZeros(k: nat, d: Bytes)
    ensures Framer.DigitsValue(Zeros(k) + d) == Framer.DigitsValue(d)
    decreases |d|
  {
    var s := Zeros(k) + d;
    if d == [] {
      assert s == Zeros(k);
      ZerosValue(k);
    } else {
      var front := d[..|d| - 1];
      LeadingZeros(k, front);
      assert s[..|s| - 1] == Zeros(k) + front && s[|s| - 1] == d[|d| - 1];
    }
  }

  /** A length is read whatever zeros lead it, with or without a plus sign, if it fits in 64 bits; and is
      no length if it does not. */
  lemma LengthReads(k: nat, n: nat)
    ensures var text := Zeros(k) + Commands.Decimal(n);
            var expected := if n < 0x1_0000_0000_0000_0000 then Some(n) else None;
            Framer.ParseUsize(text) == expected && Framer.ParseUsize(['+'] + text) == expected
  {
    var text := Zeros(k) + Commands.Decimal(n);
    LeadingZeros(k, Commands.Decimal(n));
    Commands.DecimalParses(n);
    assert (['+'] + text)[1..] == text;
    assert text[0] == if k > 0 then '0' else Commands.Decimal(n)[0];
  }

  lemma {:induction false} OnlyDigitsHaveValue(s: Bytes, i: nat)
    requires i < |s| && !('0' <= s[i] <= '9')
    ensures Framer.DigitsValue(s).None?
    decreases |s|
  {
    if i < |s| - 1 {
      OnlyDigitsHaveValue(s[..|s| - 1], i);
    }
  }

  /** Nothing, a bare plus sign, and anything with another character in it is no length. */
  lemma NoLength(s: Bytes, i: nat)
    ensures Framer.ParseUsize([]).None? && Framer.ParseUsize("+").None?
    ensures i < |s| && !('0' <= s[i] <= '9') && !(i == 0 && s[0] == '+') ==> Framer.ParseUsize(s).None?
  {
    assert "+"[1..] == [];
    if i < |s| && !('0' <= s[i] <= '9') && !(i == 0 && s[0] == '+') {
      if s[0] == '+' {
        assert s[1..][i - 1] == s[i];
        OnlyDigitsHaveValue(s[1..], i - 1);
      } else {
        OnlyDigitsHaveValue(s, i);
      }
    }
  }
}
