/** What UTF-8 is, from the scalar values up, and that the byte-level validator and decoder agree.

    `Encoding` is the arithmetic of section 3 of RFC 3629. Nothing here looks at lead bytes or
    continuation ranges: those are what `Utf8` gets right. */
module Unicode {
  import opened Bytes
  import opened Utf8

  /** A Unicode scalar value: a code point that is not a surrogate. */
  predicate Scalar(cp: int)
  {
    0 <= cp <= 0x10FFFF && !(0xD800 <= cp <= 0xDFFF)
  }

  function ByteOf(n: int): Byte
    requires 0 <= n < 256
  {
    n as char
  }

  /** The UTF-8 bytes of a scalar value. */
  function Encoding(cp: int): (r: Bytes)
    requires Scalar(cp)
    ensures 1 <= |r| <= 4
  {
    if cp < 0x80 then [ByteOf(cp)]
    else if cp < 0x800 then [ByteOf(0xC0 + cp / 64), ByteOf(0x80 + cp % 64)]
    else if cp < 0x10000 then [ByteOf(0xE0 + cp / 4096), ByteOf(0x80 + cp / 64 % 64), ByteOf(0x80 + cp % 64)]
    else [ByteOf(0xF0 + cp / 262144), ByteOf(0x80 + cp / 4096 % 64), ByteOf(0x80 + cp / 64 % 64), ByteOf(0x80 + cp % 64)]
  }

  ghost predicate AllScalar(cps: seq<int>)
  {
    forall i :: 0 <= i < |cps| ==> Scalar(cps[i])
  }

  function EncodingOf(cps: seq<int>): Bytes
    requires AllScalar(cps)
  {
    if cps == [] then [] else Encoding(cps[0]) + EncodingOf(cps[1..])
  }

  // ---- One sequence ----------------------------------------------------------------------------------

  /** The code point a well-formed sequence of `n` bytes stands for. */
  function Value(s: Bytes, n: nat): int
    requires 1 <= n <= 4 && n <= |s|
  {
    var b0 := s[0] as int;
    if n == 1 then b0
    else
      var b1 := s[1] as int - 0x80;
      if n == 2 then (b0 - 0xC0) * 64 + b1
      else
        var b2 := s[2] as int - 0x80;
        if n == 3 then (b0 - 0xE0) * 4096 + b1 * 64 + b2
        else (b0 - 0xF0) * 262144 + b1 * 4096 + b2 * 64 + (s[3] as int - 0x80)
  }

  lemma DigitsOfTwo(h: int, a: int, cp: int)
    requires 0 <= a < 64 && cp == h * 64 + a
    ensures cp / 64 == h && cp % 64 == a
  {
  }

  lemma DigitsOfThree(h: int, a: int, b: int, cp: int)
    requires 0 <= a < 64 && 0 <= b < 64 && cp == h * 4096 + a * 64 + b
    ensures cp / 4096 == h && cp / 64 % 64 == a && cp % 64 == b
  {
    DigitsOfTwo(h * 64 + a, b, cp);
    DigitsOfTwo(h, a, h * 64 + a);
  }

  lemma DigitsOfFour(h: int, a: int, b: int, c: int, cp: int)
    requires 0 <= a < 64 && 0 <= b < 64 && 0 <= c < 64 && cp == h * 262144 + a * 4096 + b * 64 + c
    ensures cp / 262144 == h && cp / 4096 % 64 == a && cp / 64 % 64 == b && cp % 64 == c
  {
    DigitsOfThree(h * 64 + a, b, c, cp);
    DigitsOfTwo(h, a, h * 64 + a);
  }

  /** A sequence the validator accepts is the encoding of its value. */
  lemma WellFormedIsEncoding(s: Bytes)
    requires s != [] && StartsWellFormed(s)
    ensures var n := Width(s[0]);
            1 <= n <= 4 && n <= |s| && n == Chunk(s) && Scalar(Value(s, n)) && Encoding(Value(s, n)) == s[..n]
  {
    var n := Width(s[0]);
    if n == 1 {
      OneByte(s);
    } else if n == 2 {
      TwoBytes(s);
    } else if n == 3 {
      ThreeBytes(s);
    } else {
      FourBytes(s);
    }
  }

  lemma OneByte(s: Bytes)
    requires s != [] && Width(s[0]) == 1
    ensures Scalar(Value(s, 1)) && Encoding(Value(s, 1)) == s[..1]
  {
  }

  lemma TwoBytes(s: Bytes)
    requires |s| >= 2 && Width(s[0]) == 2 && SecondOk(s[0], s[1])
    ensures Scalar(Value(s, 2)) && Encoding(Value(s, 2)) == s[..2]
  {
    DigitsOfTwo(s[0] as int - 0xC0, s[1] as int - 0x80, Value(s, 2));
  }

  lemma ThreeBytes(s: Bytes)
    requires |s| >= 3 && Width(s[0]) == 3 && SecondOk(s[0], s[1]) && Tail(s[2])
    ensures Scalar(Value(s, 3)) && Encoding(Value(s, 3)) == s[..3]
  {
    DigitsOfThree(s[0] as int - 0xE0, s[1] as int - 0x80, s[2] as int - 0x80, Value(s, 3));
  }

  lemma FourBytes(s: Bytes)
    requires |s| >= 4 && Width(s[0]) == 4 && SecondOk(s[0], s[1]) && Tail(s[2]) && Tail(s[3])
    ensures Scalar(Value(s, 4)) && Encoding(Value(s, 4)) == s[..4]
  {
    DigitsOfFour(s[0] as int - 0xF0, s[1] as int - 0x80, s[2] as int - 0x80, s[3] as int - 0x80, Value(s, 4));
  }

  /** The shape the validator looks for, in every encoding. */
  lemma EncodingShape(cp: int)
    requires Scalar(cp)
    ensures var e := Encoding(cp);
            && Width(e[0]) == |e|
            && (|e| >= 2 ==> SecondOk(e[0], e[1]))
            && (|e| >= 3 ==> Tail(e[2]))
            && (|e| == 4 ==> Tail(e[3]))
  {
  }

  /** And an encoding in front of anything is a sequence the validator accepts. */
  lemma EncodingIsWellFormed(cp: int, rest: Bytes)
    requires Scalar(cp)
    ensures var s := Encoding(cp) + rest;
            StartsWellFormed(s) && Chunk(s) == |Encoding(cp)| && s[Chunk(s)..] == rest
  {
    EncodingShape(cp);
    var e, s := Encoding(cp), Encoding(cp) + rest;
    assert forall i :: 0 <= i < |e| ==> s[i] == e[i];
  }

  // ---- Whole strings ---------------------------------------------------------------------------------

  lemma {:induction false} EncodedIsValid(cps: seq<int>)
    requires AllScalar(cps)
    ensures Valid(EncodingOf(cps))
  {
    if cps != [] {
      EncodedIsValid(cps[1..]);
      EncodingIsWellFormed(cps[0], EncodingOf(cps[1..]));
    }
  }

  lemma {:induction false} ValidIsEncoded(s: Bytes) returns (cps: seq<int>)
    requires Valid(s)
    ensures AllScalar(cps) && EncodingOf(cps) == s
  {
    if s == [] {
      cps := [];
    } else {
      WellFormedIsEncoding(s);
      var n := Chunk(s);
      var rest := ValidIsEncoded(s[n..]);
      cps := [Value(s, n)] + rest;
      assert cps[1..] == rest && s == s[..n] + s[n..];
    }
  }

  /** UTF-8, exactly: a byte string is valid if and only if it is the encoding of scalar values. */
  lemma ValidIffEncoded(s: Bytes)
    ensures Valid(s) <==> exists cps :: AllScalar(cps) && EncodingOf(cps) == s
  {
    if Valid(s) {
      var cps := ValidIsEncoded(s);
    }
    forall cps | AllScalar(cps) && EncodingOf(cps) == s ensures Valid(s) {
      EncodedIsValid(cps);
    }
  }

  // ---- What is replaced --------------------------------------------------------------------------------

  /** `t` opens some encoding. */
  ghost predicate Opens(t: Bytes)
  {
    exists cp :: Scalar(cp) && t <= Encoding(cp)
  }

  /** `s` starts with a whole encoding. */
  ghost predicate StartsEncoded(s: Bytes)
  {
    exists cp :: Scalar(cp) && Encoding(cp) <= s
  }

  lemma StartsEncodedIff(s: Bytes)
    requires s != []
    ensures StartsWellFormed(s) <==> StartsEncoded(s)
  {
    if StartsWellFormed(s) {
      WellFormedIsEncoding(s);
    }
    forall cp | Scalar(cp) && Encoding(cp) <= s ensures StartsWellFormed(s) {
      EncodingIsWellFormed(cp, s[|Encoding(cp)|..]);
      assert s == Encoding(cp) + s[|Encoding(cp)|..];
    }
  }

  /** A continuation byte that may follow `lead` in second place. */
  function SomeSecond(lead: Byte): Byte
  {
    if lead as int == 0xED || lead as int == 0xF4 then ByteOf(0x80) else ByteOf(0xA0)
  }

  /** The first `n` bytes of `s`, filled up to a whole sequence. */
  function Filled(s: Bytes, n: nat): Bytes
    requires 1 <= n <= |s|
  {
    if n == 1 then [s[0], SomeSecond(s[0]), ByteOf(0x80), ByteOf(0x80)]
    else s[..n] + [ByteOf(0x80), ByteOf(0x80)]
  }

  /** What the validator reads before it gives up opens some encoding. */
  lemma ReachOpens(s: Bytes)
    requires s != [] && Reach(s) > 0
    ensures Opens(s[..Reach(s)])
  {
    var n := Reach(s);
    var t := Filled(s, n);
    assert t[0] == s[0];
    assert n >= 2 ==> t[1] == s[1];
    assert n >= 3 ==> t[2] == s[2];
    assert StartsWellFormed(t);
    WellFormedIsEncoding(t);
    var w := Width(t[0]);
    assert s[..n] == t[..w][..n];
    assert s[..n] <= Encoding(Value(t, w));
  }

  /** And nothing longer does, unless it was a whole sequence. */
  lemma OpensWithinReach(s: Bytes, n: nat, cp: int)
    requires 1 <= n <= |s| && Scalar(cp) && s[..n] <= Encoding(cp)
    ensures StartsWellFormed(s) || n <= Reach(s)
  {
    EncodingShape(cp);
    var e := Encoding(cp);
    assert forall i :: 0 <= i < n ==> s[i] == s[..n][i] == e[i];
  }

  lemma BeyondReach(s: Bytes, n: nat)
    requires s != [] && !StartsWellFormed(s) && Reach(s) < n <= |s|
    ensures !Opens(s[..n])
  {
    if Opens(s[..n]) {
      var cp :| Scalar(cp) && s[..n] <= Encoding(cp);
      OpensWithinReach(s, n, cp);
    }
  }

  /** What the decoder replaces at once is the maximal subpart: the longest first part that opens some
      encoding, or a single byte if none does. */
  lemma ReplacedIsMaximal(s: Bytes)
    requires s != [] && !StartsEncoded(s)
    ensures Chunk(s) == 1 || Opens(s[..Chunk(s)])
    ensures forall n :: Chunk(s) < n <= |s| ==> !Opens(s[..n])
  {
    StartsEncodedIff(s);
    if Reach(s) > 0 {
      ReachOpens(s);
    }
    forall n | Chunk(s) < n <= |s| ensures !Opens(s[..n]) {
      BeyondReach(s, n);
    }
  }

  /** `t` is `s` as text: encodings stay, and each maximal subpart becomes the replacement
      character. */
  ghost predicate ReadsAs(s: Bytes, t: Bytes)
    decreases |s|
  {
    if s == [] then t == []
    else if StartsEncoded(s) then
      exists cp :: Scalar(cp) && Encoding(cp) <= s && KeepsFirst(s, t, Encoding(cp))
    else
      exists n: nat :: MaximalSubpart(s, n) && ReplacesFirst(s, t, n)
  }

  ghost predicate KeepsFirst(s: Bytes, t: Bytes, e: Bytes)
    requires 1 <= |e| && e <= s
    decreases |s|, 0
  {
    e <= t && ReadsAs(s[|e|..], t[|e|..])
  }

  ghost predicate MaximalSubpart(s: Bytes, n: nat)
  {
    && 1 <= n <= |s| && (n == 1 || Opens(s[..n]))
    && forall m :: n < m <= |s| ==> !Opens(s[..m])
  }

  ghost predicate ReplacesFirst(s: Bytes, t: Bytes, n: nat)
    requires 1 <= n <= |s|
    decreases |s|, 0
  {
    Encoding(0xFFFD) <= t && ReadsAs(s[n..], t[|Encoding(0xFFFD)|..])
  }

  lemma ReplacementIs()
    ensures Encoding(0xFFFD) == REPLACEMENT
  {
  }

  /** Lossy decoding is exactly that. */
  lemma {:induction false} LossyReadsAs(s: Bytes)
    ensures ReadsAs(s, Lossy(s))
    decreases |s|
  {
    if s != [] {
      var n := Chunk(s);
      StartsEncodedIff(s);
      LossyReadsAs(s[n..]);
      if StartsWellFormed(s) {
        WellFormedIsEncoding(s);
        var e := Encoding(Value(s, n));
        assert Lossy(s)[n..] == Lossy(s[n..]);
        assert KeepsFirst(s, Lossy(s), e);
      } else {
        ReplacementIs();
        ReplacedIsMaximal(s);
        assert Lossy(s)[3..] == Lossy(s[n..]);
        assert MaximalSubpart(s, n) && ReplacesFirst(s, Lossy(s), n);
      }
    }
  }

  /** The decoder's first step is the only one that reads `s` so. */
  lemma FirstStepKept(s: Bytes, t: Bytes, cp: int)
    requires s != [] && Scalar(cp) && Encoding(cp) <= s && Encoding(cp) <= t
    requires t[|Encoding(cp)|..] == Lossy(s[|Encoding(cp)|..])
    ensures t == Lossy(s)
  {
    var e := Encoding(cp);
    EncodingIsWellFormed(cp, s[|e|..]);
    assert s == e + s[|e|..] && t == e + t[|e|..];
  }

  lemma FirstStepReplaced(s: Bytes, t: Bytes, n: nat)
    requires s != [] && !StartsEncoded(s) && MaximalSubpart(s, n) && Encoding(0xFFFD) <= t
    requires t[|Encoding(0xFFFD)|..] == Lossy(s[n..])
    ensures t == Lossy(s)
  {
    StartsEncodedIff(s);
    ReplacedIsMaximal(s);
    ReplacementIs();
    assert n == Chunk(s);
    assert t == REPLACEMENT + t[3..];
  }

  lemma {:induction false} ReadsAsIsLossy(s: Bytes, t: Bytes)
    requires ReadsAs(s, t)
    ensures t == Lossy(s)
    decreases |s|
  {
    if s != [] {
      if StartsEncoded(s) {
        var cp :| Scalar(cp) && Encoding(cp) <= s && KeepsFirst(s, t, Encoding(cp));
        var n := |Encoding(cp)|;
        ReadsAsIsLossy(s[n..], t[n..]);
        FirstStepKept(s, t, cp);
      } else {
        var n: nat :| MaximalSubpart(s, n) && ReplacesFirst(s, t, n);
        ReadsAsIsLossy(s[n..], t[|Encoding(0xFFFD)|..]);
        FirstStepReplaced(s, t, n);
      }
    }
  }

  /** Lossy decoding, exactly: the text in which every encoding stays and every maximal ill-formed
      subpart becomes U+FFFD, and no other. */
  lemma LossyIff(s: Bytes, t: Bytes)
    ensures ReadsAs(s, t) <==> t == Lossy(s)
  {
    LossyReadsAs(s);
    if ReadsAs(s, t) {
      ReadsAsIsLossy(s, t);
    }
  }
}
