/** Byte strings as they travel on the ESL socket, and the search the parser runs over them. */
module Bytes {

  /** A wire byte. Rust's `u8`, and each byte of a Rust `str`, is written as the character with
      that code, so wire text can be spelled as a literal such as "\n\n". Nothing below relies on
      a code staying under 256: every result holds for all character sequences. */
  type Byte = char
  type Bytes = seq<Byte>

  datatype Option<+T> = None | Some(value: T)

  datatype Result<+T, +E> = Ok(value: T) | Err(error: E)

  const BLANK_LINE: Bytes := "\n\n"

  predicate MatchAt(s: Bytes, pat: Bytes, i: nat)
  {
    i + |pat| <= |s| && s[i..i + |pat|] == pat
  }

  /** First occurrence of `pat` in `s` at or after `from`. */
  function FindFrom(s: Bytes, pat: Bytes, from: nat): (r: Option<nat>)
    ensures r.Some? ==> from <= r.value && MatchAt(s, pat, r.value)
    ensures r.Some? ==> forall j :: from <= j < r.value ==> !MatchAt(s, pat, j)
    ensures r.None? ==> forall j :: from <= j ==> !MatchAt(s, pat, j)
    decreases |s| - from
  {
    if from + |pat| > |s| then None
    else if MatchAt(s, pat, from) then Some(from)
    else FindFrom(s, pat, from + 1)
  }

  /** First occurrence of `pat` in `s`. */
  function Find(s: Bytes, pat: Bytes): (r: Option<nat>)
    ensures r.Some? ==> MatchAt(s, pat, r.value)
    ensures r.Some? ==> forall j: nat :: j < r.value ==> !MatchAt(s, pat, j)
    ensures r.None? ==> forall j: nat :: !MatchAt(s, pat, j)
  {
    FindFrom(s, pat, 0)
  }

  lemma MatchInSuffix(s: Bytes, pat: Bytes, start: nat, i: nat)
    requires start <= |s|
    ensures MatchAt(s[start..], pat, i) <==> MatchAt(s, pat, start + i)
  {
    if start + i + |pat| <= |s| {
      assert s[start..][i..i + |pat|] == s[start + i..start + i + |pat|];
    }
  }

  lemma MatchInPrefix(s: Bytes, t: Bytes, pat: Bytes, i: nat)
    requires i + |pat| <= |s|
    ensures MatchAt(s + t, pat, i) <==> MatchAt(s, pat, i)
  {
    assert (s + t)[i..i + |pat|] == s[i..i + |pat|];
  }

  /** An index that matches with nothing before it is what the search returns. */
  lemma FindIs(s: Bytes, pat: Bytes, i: nat)
    requires MatchAt(s, pat, i)
    requires forall j: nat :: j < i ==> !MatchAt(s, pat, j)
    ensures Find(s, pat) == Some(i)
  {
    var r := Find(s, pat);
    assert r.Some?;
    assert !(r.value < i) && !(i < r.value);
  }

  /** Bytes that arrive later never move a match that is already there. */
  lemma FindStable(s: Bytes, t: Bytes, pat: Bytes)
    requires Find(s, pat).Some?
    ensures Find(s + t, pat) == Find(s, pat)
  {
    var i := Find(s, pat).value;
    forall j: nat | j <= i ensures MatchAt(s + t, pat, j) == MatchAt(s, pat, j) {
      MatchInPrefix(s, t, pat, j);
    }
    FindIs(s + t, pat, i);
  }

  /** A blank line is found exactly where two newlines meet. */
  lemma BlankLineAt(s: Bytes, i: nat)
    ensures MatchAt(s, BLANK_LINE, i) <==> i + 1 < |s| && s[i] == '\n' && s[i + 1] == '\n'
  {
    if i + 1 < |s| {
      assert s[i..i + 2] == [s[i], s[i + 1]];
    }
  }

  /** Position of the first `c`. */
  function FirstIndex(s: Bytes, c: Byte): (i: nat)
    requires c in s
    ensures i < |s| && s[i] == c && c !in s[..i]
  {
    if s[0] == c then 0
    else
      var j := FirstIndex(s[1..], c);
      assert s[..j + 1] == [s[0]] + s[1..][..j];
      j + 1
  }

  lemma FirstIndexIs(a: Bytes, c: Byte, b: Bytes)
    requires c !in a
    ensures c in a + [c] + b && FirstIndex(a + [c] + b, c) == |a|
  {
    var s := a + [c] + b;
    assert s[|a|] == c;
    assert forall j :: 0 <= j < |a| ==> s[j] == a[j];
    var i := FirstIndex(s, c);
    assert forall j :: 0 <= j < i ==> s[j] in s[..i];
  }

  /** A newline-free line followed by text that opens with no newline adds no blank line. */
  lemma NoBlankLineAcross(la: Bytes, lb: Bytes)
    requires '\n' !in la && Find(lb, BLANK_LINE).None?
    requires lb != [] ==> lb[0] != '\n'
    ensures Find(la + ['\n'] + lb, BLANK_LINE).None?
  {
    var t := la + ['\n'] + lb;
    forall j: nat ensures !MatchAt(t, BLANK_LINE, j) {
      BlankLineAt(t, j);
      if j < |la| {
        assert t[j] == la[j];
      } else if j > |la| {
        BlankLineAt(lb, j - |la| - 1);
      }
    }
  }

  /** A head whose own line closes without a blank line is where the first blank line ends up. */
  lemma FirstBlankLine(head: Bytes, tail: Bytes)
    requires Find(head + ['\n'], BLANK_LINE).None?
    ensures Find(head + BLANK_LINE + tail, BLANK_LINE) == Some(|head|)
  {
    var s := head + BLANK_LINE + tail;
    forall j: nat | j < |head| ensures !MatchAt(s, BLANK_LINE, j) {
      BlankLineAt(s, j);
      BlankLineAt(head + ['\n'], j);
    }
    BlankLineAt(s, |head|);
    FindIs(s, BLANK_LINE, |head|);
  }

  /** And conversely. */
  lemma BeforeFirstBlankLine(head: Bytes, tail: Bytes)
    requires Find(head + BLANK_LINE + tail, BLANK_LINE) == Some(|head|)
    ensures Find(head + ['\n'], BLANK_LINE).None?
  {
    var s := head + BLANK_LINE + tail;
    forall j: nat ensures !MatchAt(head + ['\n'], BLANK_LINE, j) {
      BlankLineAt(head + ['\n'], j);
      BlankLineAt(s, j);
    }
  }

  function Concat(parts: seq<Bytes>): Bytes
  {
    if parts == [] then [] else parts[0] + Concat(parts[1..])
  }

  lemma ConcatCons(p: Bytes, parts: seq<Bytes>)
    ensures Concat([p] + parts) == p + Concat(parts)
  {
    assert ([p] + parts)[1..] == parts;
  }

  lemma Associate<T>(a: seq<T>, b: seq<T>, c: seq<T>)
    ensures a + b + c == a + (b + c)
  {}
}
