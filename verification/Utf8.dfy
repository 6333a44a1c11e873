/** UTF-8 validation and the lossy decoding of `String::from_utf8_lossy`, on bytes.

    A Rust `String` is its UTF-8 bytes, so decoding returns bytes: the input itself when it is
    well formed, or the input with every ill-formed maximal subpart replaced by U+FFFD. The
    sequence syntax is section 4 of RFC 3629. */
module Utf8 {
  import opened Bytes

  /** U+FFFD in UTF-8. */
  const REPLACEMENT: Bytes := ['\U{00EF}', '\U{00BF}', '\U{00BD}']

  predicate Tail(b: Byte) { 0x80 <= b as int <= 0xBF }

  predicate Ascii(b: Byte) { b as int < 0x80 }

  /** Length of the sequence a lead byte announces, 0 for a byte that leads none. */
  function Width(lead: Byte): nat
  {
    var b := lead as int;
    if b < 0x80 then 1
    else if b < 0xC2 then 0
    else if b < 0xE0 then 2
    else if b < 0xF0 then 3
    else if b < 0xF5 then 4
    else 0
  }

  /** Whether `b` may follow `lead`: no overlong form, no surrogate, nothing past U+10FFFF. */
  predicate SecondOk(lead: Byte, b: Byte)
  {
    var l, n := lead as int, b as int;
    Tail(b)
    && (l == 0xE0 ==> 0xA0 <= n)
    && (l == 0xED ==> n <= 0x9F)
    && (l == 0xF0 ==> 0x90 <= n)
    && (l == 0xF4 ==> n <= 0x8F)
  }

  /** How many leading bytes of `s` belong to the start of one well-formed sequence. */
  function Reach(s: Bytes): (n: nat)
    requires s != []
    ensures n <= |s| && n <= Width(s[0])
  {
    var w := Width(s[0]);
    if w <= 1 then w
    else if |s| < 2 || !SecondOk(s[0], s[1]) then 1
    else if w == 2 then 2
    else if |s| < 3 || !Tail(s[2]) then 2
    else if w == 3 then 3
    else if |s| < 4 || !Tail(s[3]) then 3
    else 4
  }

  predicate StartsWellFormed(s: Bytes)
    requires s != []
  {
    Width(s[0]) > 0 && Reach(s) == Width(s[0])
  }

  /** Bytes the decoder handles at once: one sequence, or one maximal ill-formed subpart. */
  function Chunk(s: Bytes): (n: nat)
    requires s != []
    ensures 1 <= n <= |s|
  {
    if Reach(s) == 0 then 1 else Reach(s)
  }

  predicate Valid(s: Bytes)
  {
    s == [] || (StartsWellFormed(s) && Valid(s[Chunk(s)..]))
  }

  /** `String::from_utf8_lossy`. */
  function Lossy(s: Bytes): Bytes
  {
    if s == [] then []
    else (if StartsWellFormed(s) then s[..Chunk(s)] else REPLACEMENT) + Lossy(s[Chunk(s)..])
  }

  /** Well-formed input is unchanged. */
  lemma {:induction false} LossyOfValid(s: Bytes)
    requires Valid(s)
    ensures Lossy(s) == s
  {
    if s != [] {
      LossyOfValid(s[Chunk(s)..]);
      assert s == s[..Chunk(s)] + s[Chunk(s)..];
    }
  }

  /** The replaced text is always a well-formed string, whatever the input. */
  lemma {:induction false} LossyIsValid(s: Bytes)
    ensures Valid(Lossy(s))
  {
    if s != [] {
      var n, rest := Chunk(s), s[Chunk(s)..];
      LossyIsValid(rest);
      var head := if StartsWellFormed(s) then s[..n] else REPLACEMENT;
      var t := head + Lossy(rest);
      assert t[0] == head[0];
      assert StartsWellFormed(t) && Chunk(t) == |head|;
      assert t[|head|..] == Lossy(rest);
    }
  }

  /** A chunk never reads past an ASCII byte. */
  lemma ChunkStopsAtAscii(a: Bytes, c: Byte, b: Bytes)
    requires a != [] && Ascii(c)
    ensures Reach(a + [c] + b) == Reach(a)
    ensures StartsWellFormed(a + [c] + b) == StartsWellFormed(a)
  {
    var s := a + [c] + b;
    assert s[0] == a[0] && s[|a|] == c && !Tail(c);
    assert forall i :: 0 <= i < |a| ==> s[i] == a[i];
  }

  lemma ChunkOfAscii(c: Byte, b: Bytes)
    requires Ascii(c)
    ensures Lossy([c] + b) == [c] + Lossy(b)
    ensures Valid([c] + b) == Valid(b)
  {
    var s := [c] + b;
    assert Chunk(s) == 1 && StartsWellFormed(s) && s[..1] == [c] && s[1..] == b;
  }

  lemma {:induction false} AsciiIsValid(s: Bytes)
    requires forall i :: 0 <= i < |s| ==> Ascii(s[i])
    ensures Valid(s)
  {
    if s != [] {
      AsciiIsValid(s[1..]);
      assert s == [s[0]] + s[1..];
      ChunkOfAscii(s[0], s[1..]);
    }
  }

  /** One decoder step in front of an ASCII byte is the step it takes on the text before it. */
  lemma ChunkBeforeAscii(a: Bytes, c: Byte, b: Bytes)
    requires a != [] && Ascii(c)
    ensures var s := a + [c] + b;
            Chunk(s) == Chunk(a) && s[..Chunk(a)] == a[..Chunk(a)] && s[Chunk(a)..] == a[Chunk(a)..] + [c] + b
    ensures StartsWellFormed(a + [c] + b) == StartsWellFormed(a)
  {
    ChunkStopsAtAscii(a, c, b);
  }

  lemma Regroup(h: Bytes, x: Bytes, c: Byte, y: Bytes)
    ensures h + (x + [c] + y) == (h + x) + [c] + y
  {}

  /** Decoding splits at every ASCII byte: substitution never absorbs one. */
  lemma {:induction false} LossySplitsAtAscii(a: Bytes, c: Byte, b: Bytes)
    requires Ascii(c)
    ensures Lossy(a + [c] + b) == Lossy(a) + [c] + Lossy(b)
    decreases |a|
  {
    if a == [] {
      assert a + [c] + b == [c] + b;
      ChunkOfAscii(c, b);
    } else {
      ChunkBeforeAscii(a, c, b);
      var rest := a[Chunk(a)..];
      LossySplitsAtAscii(rest, c, b);
      var head := if StartsWellFormed(a) then a[..Chunk(a)] else REPLACEMENT;
      Regroup(head, Lossy(rest), c, Lossy(b));
    }
  }

  /** Validity splits there too. */
  lemma {:induction false} ValidSplitsAtAscii(a: Bytes, c: Byte, b: Bytes)
    requires Ascii(c)
    ensures Valid(a + [c] + b) <==> Valid(a) && Valid(b)
    decreases |a|
  {
    if a == [] {
      assert a + [c] + b == [c] + b;
      ChunkOfAscii(c, b);
    } else {
      ChunkBeforeAscii(a, c, b);
      ValidSplitsAtAscii(a[Chunk(a)..], c, b);
    }
  }

  /** Decoding neither drops nor introduces an ASCII byte's last occurrence. */
  lemma {:induction false} LossyKeepsAbsence(s: Bytes, c: Byte)
    requires Ascii(c)
    ensures c in Lossy(s) <==> c in s
  {
    if s != [] {
      var n := Chunk(s);
      var shown := if StartsWellFormed(s) then s[..n] else REPLACEMENT;
      LossyKeepsAbsence(s[n..], c);
      if !StartsWellFormed(s) {
        ChunkKeepsAbsence(s, c);
      }
      InEither(shown, Lossy(s[n..]), c);
      InEither(s[..n], s[n..], c);
      assert s == s[..n] + s[n..];
    }
  }

  lemma InEither(a: Bytes, b: Bytes, c: Byte)
    ensures c in a + b <==> c in a || c in b
  {}

  /** An ill-formed subpart holds no ASCII byte, and neither does its replacement. */
  lemma ChunkKeepsAbsence(s: Bytes, c: Byte)
    requires Ascii(c) && s != [] && !StartsWellFormed(s)
    ensures c !in s[..Chunk(s)] && c !in REPLACEMENT
  {
    forall i | 0 <= i < Chunk(s) ensures s[i] != c {}
  }

  lemma LossyHead(s: Bytes, c: Byte)
    requires Ascii(c) && s != []
    ensures Lossy(s) != [] && (Lossy(s)[0] == c <==> s[0] == c)
  {
    if StartsWellFormed(s) {
      assert Lossy(s)[0] == s[0];
    } else {
      assert Lossy(s)[0] == REPLACEMENT[0];
    }
  }

  lemma TailNoBlankLine(s: Bytes, k: nat)
    requires Find(s, BLANK_LINE).None? && k <= |s|
    ensures Find(s[k..], BLANK_LINE).None?
  {
    forall j: nat ensures !MatchAt(s[k..], BLANK_LINE, j) {
      BlankLineAt(s[k..], j);
      BlankLineAt(s, k + j);
    }
  }

  /** Text without a blank line decodes to text without one. */
  lemma {:induction false} LossyKeepsNoBlankLine(s: Bytes)
    requires Find(s, BLANK_LINE).None?
    ensures Find(Lossy(s), BLANK_LINE).None?
    decreases |s|
  {
    if '\n' in s {
      var i := FirstIndex(s, '\n');
      var a, b := s[..i], s[i + 1..];
      assert s == a + ['\n'] + b;
      TailNoBlankLine(s, i + 1);
      LossyKeepsNoBlankLine(b);
      assert b != [] ==> b[0] != '\n' by {
        BlankLineAt(s, i);
      }
      DecodedNoBlankLineAcross(a, b);
    } else {
      LossyKeepsAbsence(s, '\n');
      forall j: nat ensures !MatchAt(Lossy(s), BLANK_LINE, j) {
        BlankLineAt(Lossy(s), j);
      }
    }
  }

  lemma DecodedNoBlankLineAcross(a: Bytes, b: Bytes)
    requires '\n' !in a && Find(Lossy(b), BLANK_LINE).None?
    requires b != [] ==> b[0] != '\n'
    ensures Find(Lossy(a + ['\n'] + b), BLANK_LINE).None?
  {
    LossySplitsAtAscii(a, '\n', b);
    LossyKeepsAbsence(a, '\n');
    if b != [] {
      LossyHead(b, '\n');
    }
    NoBlankLineAcross(Lossy(a), Lossy(b));
  }

  /** The payload cut at its first blank line: what precedes it, and what follows if there is one. */
  function SplitBlankLine(s: Bytes): (r: (Bytes, Option<Bytes>))
    ensures r.1.Some? ==> s == r.0 + BLANK_LINE + r.1.value
    ensures r.1.None? ==> s == r.0 && Find(s, BLANK_LINE).None?
    ensures r.1.Some? ==> Find(s, BLANK_LINE) == Some(|r.0|)
  {
    match Find(s, BLANK_LINE)
    case Some(i) => assert s == s[..i] + s[i..i + 2] + s[i + 2..]; (s[..i], Some(s[i + 2..]))
    case None => (s, None)
  }

  lemma BlankLineIsTwoNewlines(a: Bytes, b: Bytes)
    ensures a + BLANK_LINE + b == a + ['\n'] + (['\n'] + b)
  {}

  /** Decoding carries a first blank line to a first blank line. */
  lemma LossyAroundBlankLine(a: Bytes, b: Bytes)
    requires Find(a + BLANK_LINE + b, BLANK_LINE) == Some(|a|)
    ensures Lossy(a + BLANK_LINE + b) == Lossy(a) + BLANK_LINE + Lossy(b)
    ensures Find(Lossy(a + BLANK_LINE + b), BLANK_LINE) == Some(|Lossy(a)|)
  {
    BlankLineIsTwoNewlines(a, b);
    LossySplitsAtAscii(a, '\n', ['\n'] + b);
    ChunkOfAscii('\n', b);
    BlankLineIsTwoNewlines(Lossy(a), Lossy(b));
    BeforeFirstBlankLine(a, b);
    HeadLineNoBlankLine(a);
    FirstBlankLine(Lossy(a), Lossy(b));
  }

  /** A head whose closed line holds no blank line keeps that through decoding. */
  lemma HeadLineNoBlankLine(a: Bytes)
    requires Find(a + ['\n'], BLANK_LINE).None?
    ensures Find(Lossy(a) + ['\n'], BLANK_LINE).None?
  {
    assert a + ['\n'] == a + ['\n'] + [];
    LossyKeepsNoBlankLine(a + ['\n'] + []);
    LossySplitsAtAscii(a, '\n', []);
    assert Lossy(a) + ['\n'] + Lossy([]) == Lossy(a) + ['\n'];
  }

  /** Decoding commutes with the cut, for every byte string: the decoded text's inner body is
      exactly the decoding of the raw tail, and its header section that of the raw head. */
  lemma LossyCommutesWithSplit(s: Bytes)
    ensures SplitBlankLine(Lossy(s)).0 == Lossy(SplitBlankLine(s).0)
    ensures SplitBlankLine(s).1.None? <==> SplitBlankLine(Lossy(s)).1.None?
    ensures SplitBlankLine(s).1.Some? ==>
              SplitBlankLine(Lossy(s)).1 == Some(Lossy(SplitBlankLine(s).1.value))
  {
    var (a, tail) := SplitBlankLine(s);
    match tail
    case None => LossyKeepsNoBlankLine(s);
    case Some(b) => LossyAroundBlankLine(a, b);
  }

  /** Decoding never shortens text. */
  lemma {:induction false} LossyNeverShorter(s: Bytes)
    ensures |Lossy(s)| >= |s|
  {
    if s != [] {
      LossyNeverShorter(s[Chunk(s)..]);
    }
  }

  /** Some ill-formed subpart of `s` is shorter than U+FFFD's three bytes. */
  predicate HasShortSubpart(s: Bytes)
  {
    s != [] && ((!StartsWellFormed(s) && Chunk(s) < 3) || HasShortSubpart(s[Chunk(s)..]))
  }

  /** Decoding keeps the length exactly when no ill-formed subpart is shorter than three bytes. */
  lemma {:induction false} LossySameLengthIff(s: Bytes)
    ensures |Lossy(s)| == |s| <==> !HasShortSubpart(s)
  {
    if s != [] {
      LossyNeverShorter(s[Chunk(s)..]);
      LossySameLengthIff(s[Chunk(s)..]);
    }
  }

  /** The blank line keeps its byte offset through decoding exactly when the header section
      before it has no short ill-formed subpart; the cut itself is right either way. */
  lemma BlankLineOffsetKeptIff(s: Bytes)
    requires Find(s, BLANK_LINE).Some?
    ensures Find(Lossy(s), BLANK_LINE) == Find(s, BLANK_LINE)
            <==> !HasShortSubpart(SplitBlankLine(s).0)
  {
    LossyCommutesWithSplit(s);
    LossySameLengthIff(SplitBlankLine(s).0);
  }

  /** One Latin-1 byte before the blank line moves it. */
  lemma BlankLineOffsetCanMove()
    ensures Find(Lossy("k: \U{00E9}\n\nbody"), BLANK_LINE) != Find("k: \U{00E9}\n\nbody", BLANK_LINE)
  {
    var s := "k: \U{00E9}\n\nbody";
    FindBlank(s, 4);
    var h := "k: \U{00E9}";
    assert SplitBlankLine(s).0 == h;
    assert h[1..] == ": \U{00E9}" && h[1..][1..] == " \U{00E9}" && h[1..][1..][1..] == "\U{00E9}";
    assert HasShortSubpart("\U{00E9}");
    assert HasShortSubpart(" \U{00E9}");
    assert HasShortSubpart(": \U{00E9}");
    BlankLineOffsetKeptIff(s);
  }

  lemma FindBlank(s: Bytes, i: nat)
    requires i + 1 < |s| && s[i] == '\n' == s[i + 1]
    requires forall j: nat :: j < i ==> s[j] != '\n'
    ensures Find(s, BLANK_LINE) == Some(i)
  {
    BlankLineAt(s, i);
    forall j: nat | j < i ensures !MatchAt(s, BLANK_LINE, j) {
      BlankLineAt(s, j);
    }
    FindIs(s, BLANK_LINE, i);
  }
}
