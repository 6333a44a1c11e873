/** Header-key normalisation: one canonical spelling per case-insensitive key.

    `known` stands for the `EventHeader` table, whose lookup ignores ASCII case. */
module HeaderKeys {
  import opened Bytes

  function Lower(c: Byte): Byte
  {
    if 'A' <= c <= 'Z' then (c as int + 32) as char else c
  }

  function Upper(c: Byte): Byte
  {
    if 'a' <= c <= 'z' then (c as int - 32) as char else c
  }

  const CAPITALS: Bytes := "ABCDEFGHIJKLMNOPQRSTUVWXYZ"
  const SMALL: Bytes := "abcdefghijklmnopqrstuvwxyz"

  /** The 26 letters pair up in order, and everything else is its own case. */
  lemma Letters(i: nat)
    requires i < 26
    ensures |CAPITALS| == |SMALL| == 26
    ensures Lower(CAPITALS[i]) == SMALL[i] && Upper(SMALL[i]) == CAPITALS[i]
    ensures Lower(SMALL[i]) == SMALL[i] && Upper(CAPITALS[i]) == CAPITALS[i]
  {
  }

  lemma NotLetters(c: Byte)
    requires c !in CAPITALS && c !in SMALL
    ensures Lower(c) == c && Upper(c) == c
  {
    LetterRanges(c);
  }

  lemma LetterRanges(c: Byte)
    ensures 'A' <= c <= 'Z' ==> c in CAPITALS
    ensures 'a' <= c <= 'z' ==> c in SMALL
  {
    if 'A' <= c <= 'Z' {
      assert CAPITALS[c as int - 'A' as int] == c;
    }
    if 'a' <= c <= 'z' {
      assert SMALL[c as int - 'a' as int] == c;
    }
  }

  /** `to_ascii_lowercase`. */
  function Fold(s: Bytes): (r: Bytes)
    ensures |r| == |s| && forall i :: 0 <= i < |s| ==> r[i] == Lower(s[i])
  {
    seq(|s|, i requires 0 <= i < |s| => Lower(s[i]))
  }

  ghost predicate DistinctFolded(known: seq<Bytes>)
  {
    forall i, j :: 0 <= i < j < |known| ==> Fold(known[i]) != Fold(known[j])
  }

  /** The table's spelling of `raw`, if the table has one. */
  function Lookup(known: seq<Bytes>, raw: Bytes): (r: Option<Bytes>)
    ensures r.Some? ==> r.value in known && Fold(r.value) == Fold(raw)
    ensures r.None? ==> forall k :: k in known ==> Fold(k) != Fold(raw)
  {
    if known == [] then None
    else if Fold(known[0]) == Fold(raw) then Some(known[0])
    else Lookup(known[1..], raw)
  }

  function TitleFrom(s: Bytes, capitalizeNext: bool): Bytes
  {
    if s == [] then []
    else if s[0] == '-' then ['-'] + TitleFrom(s[1..], true)
    else if capitalizeNext then [Upper(s[0])] + TitleFrom(s[1..], false)
    else [Lower(s[0])] + TitleFrom(s[1..], false)
  }

  /** Whether the character at `i` opens a dash-separated word. */
  predicate OpensWord(s: Bytes, i: nat)
    requires i < |s|
  {
    i == 0 || s[i - 1] == '-'
  }

  lemma {:induction false} TitleAt(s: Bytes, cap: bool, i: nat)
    requires i < |s|
    ensures |TitleFrom(s, cap)| == |s|
    ensures TitleFrom(s, cap)[i] == if (if i == 0 then cap else OpensWord(s, i)) then Upper(s[i]) else Lower(s[i])
  {
    var next := s[0] == '-';
    if i > 0 {
      TitleAt(s[1..], next, i - 1);
    } else if |s| > 1 {
      TitleAt(s[1..], next, 0);
    } else {
      assert TitleFrom(s[1..], next) == [];
    }
  }

  function Titled(c: Byte, capitalize: bool): Byte
  {
    if capitalize then Upper(c) else Lower(c)
  }

  lemma TitleStep(s: Bytes, i: nat, cap: bool)
    requires i < |s|
    ensures TitleFrom(s[i..], cap) == [Titled(s[i], cap)] + TitleFrom(s[i + 1..], s[i] == '-')
  {
    assert s[i..][0] == s[i] && s[i..][1..] == s[i + 1..];
  }

  /** `title_case_dashes`, one character at a time: letters that open a word are capitals, all the
      others are not, and nothing else changes. */
  method TitleCaseDashes(s: Bytes) returns (result: Bytes)
    ensures result == TitleFrom(s, true)
    ensures |result| == |s|
    ensures forall i :: 0 <= i < |s| ==> result[i] == if OpensWord(s, i) then Upper(s[i]) else Lower(s[i])
  {
    result := [];
    var capitalizeNext := true;
    assert s[0..] == s && result + TitleFrom(s, true) == TitleFrom(s, true);
    for i := 0 to |s|
      invariant result + TitleFrom(s[i..], capitalizeNext) == TitleFrom(s, true)
    {
      var c := s[i];
      TitleStep(s, i, capitalizeNext);
      Associate(result, [Titled(c, capitalizeNext)], TitleFrom(s[i + 1..], c == '-'));
      if c == '-' {
        result := result + ['-'];
        capitalizeNext := true;
      } else if capitalizeNext {
        result := result + [Upper(c)];
        capitalizeNext := false;
      } else {
        result := result + [Lower(c)];
      }
    }
    assert s[|s|..] == [] && result + [] == result;
    forall i | 0 <= i < |s|
      ensures |result| == |s| && result[i] == if OpensWord(s, i) then Upper(s[i]) else Lower(s[i])
    {
      TitleAt(s, true, i);
    }
  }

  /** `case_alias_key`: the lowercase alias, withheld from keys that hold an underscore. */
  function CaseAlias(key: Bytes): Option<Bytes>
  {
    if '_' in key then None else Some(Fold(key))
  }

  /** `normalize_header_key`. */
  function Normalize(known: seq<Bytes>, raw: Bytes): Bytes
  {
    match Lookup(known, raw)
    case Some(name) => name
    case None => if CaseAlias(raw).None? then raw else TitleFrom(raw, true)
  }

  lemma {:induction false} TitleKeepsFold(s: Bytes, cap: bool)
    ensures Fold(TitleFrom(s, cap)) == Fold(s)
  {
    if s != [] {
      var next := s[0] == '-';
      TitleKeepsFold(s[1..], next);
      var t := TitleFrom(s, cap);
      assert t[1..] == TitleFrom(s[1..], next) && Lower(t[0]) == Lower(s[0]);
      assert Fold(t) == [Lower(t[0])] + Fold(t[1..]);
      assert Fold(s) == [Lower(s[0])] + Fold(s[1..]);
    }
  }

  /** Title case depends only on the key up to case. */
  lemma {:induction false} TitleOfFold(a: Bytes, b: Bytes, cap: bool)
    requires Fold(a) == Fold(b)
    ensures TitleFrom(a, cap) == TitleFrom(b, cap)
    decreases |a|
  {
    FoldHead(a, b);
    if a != [] {
      TitleOfFold(a[1..], b[1..], a[0] == '-');
      assert TitleFrom(a, cap) == [Titled(a[0], cap)] + TitleFrom(a[1..], a[0] == '-');
      assert TitleFrom(b, cap) == [Titled(b[0], cap)] + TitleFrom(b[1..], b[0] == '-');
    }
  }

  /** Keys equal up to case agree on their first character, and on the rest. */
  lemma FoldHead(a: Bytes, b: Bytes)
    requires Fold(a) == Fold(b)
    ensures |a| == |b|
    ensures a != [] ==> Fold(a[1..]) == Fold(b[1..]) && (a[0] == '-' <==> b[0] == '-')
                        && Upper(a[0]) == Upper(b[0]) && Lower(a[0]) == Lower(b[0])
  {
    assert |Fold(a)| == |a| && |Fold(b)| == |b|;
    if a != [] {
      assert Lower(a[0]) == Fold(a)[0] == Fold(b)[0] == Lower(b[0]);
      assert Fold(a[1..]) == Fold(a)[1..] && Fold(b[1..]) == Fold(b)[1..];
    }
  }

  lemma FoldKeepsUnderscore(a: Bytes, b: Bytes)
    requires Fold(a) == Fold(b)
    ensures '_' in a <==> '_' in b
  {
    assert |Fold(a)| == |a| && |Fold(b)| == |b|;
    forall i | 0 <= i < |a| ensures a[i] == '_' <==> b[i] == '_' {
      assert Lower(a[i]) == Fold(a)[i] == Fold(b)[i] == Lower(b[i]);
    }
    assert forall i :: 0 <= i < |a| ==> (a[i] == '_' <==> b[i] == '_');
  }

  lemma {:induction false} LookupOfFold(known: seq<Bytes>, a: Bytes, b: Bytes)
    requires Fold(a) == Fold(b)
    ensures Lookup(known, a) == Lookup(known, b)
  {
    if known != [] {
      LookupOfFold(known[1..], a, b);
    }
  }

  lemma NormalizeKeepsFold(known: seq<Bytes>, key: Bytes)
    ensures Fold(Normalize(known, key)) == Fold(key)
  {
    TitleKeepsFold(key, true);
  }

  /** What a key becomes: the table's spelling if the table has it; itself if it holds an underscore;
      and otherwise title case, capitals exactly where a word opens. */
  lemma NormalizeIs(known: seq<Bytes>, key: Bytes)
    ensures Lookup(known, key).Some? ==> Normalize(known, key) in known && Fold(Normalize(known, key)) == Fold(key)
    ensures Lookup(known, key).None? && '_' in key ==> Normalize(known, key) == key
    ensures Lookup(known, key).None? && '_' !in key ==>
              && |Normalize(known, key)| == |key|
              && forall i :: 0 <= i < |key| ==>
                   Normalize(known, key)[i] == if OpensWord(key, i) then Upper(key[i]) else Lower(key[i])
  {
    if Lookup(known, key).None? && '_' !in key {
      forall i | 0 <= i < |key|
        ensures |Normalize(known, key)| == |key|
                && Normalize(known, key)[i] == if OpensWord(key, i) then Upper(key[i]) else Lower(key[i])
      {
        TitleAt(key, true, i);
      }
      if key == [] {
        assert TitleFrom(key, true) == [];
      }
    }
  }

  /** Underscore-free keys share their alias exactly when they are equal up to case; the alias itself is
      lower case, and keys with an underscore have none. */
  lemma CaseAliasIff(a: Bytes, b: Bytes)
    ensures CaseAlias(a).Some? <==> '_' !in a
    ensures CaseAlias(a).Some? ==> Fold(CaseAlias(a).value) == CaseAlias(a).value
    ensures CaseAlias(a).Some? && CaseAlias(b).Some? ==> (CaseAlias(a) == CaseAlias(b) <==> Fold(a) == Fold(b))
  {
    assert forall c: Byte :: Lower(Lower(c)) == Lower(c);
  }

  /** Normalising twice is normalising once. */
  lemma NormalizeIdempotent(known: seq<Bytes>, key: Bytes)
    ensures Normalize(known, Normalize(known, key)) == Normalize(known, key)
  {
    var n := Normalize(known, key);
    NormalizeKeepsFold(known, key);
    LookupOfFold(known, n, key);
    FoldKeepsUnderscore(n, key);
    TitleOfFold(n, key, true);
  }

  /** Two keys share a canonical form exactly when they are the same key, or differ only in case
      and are either in the table or free of underscores. */
  lemma NormalizeAlikeIff(known: seq<Bytes>, a: Bytes, b: Bytes)
    ensures Normalize(known, a) == Normalize(known, b) <==>
              a == b || (Fold(a) == Fold(b) && (Lookup(known, a).Some? || '_' !in a))
  {
    NormalizeKeepsFold(known, a);
    NormalizeKeepsFold(known, b);
    if Fold(a) == Fold(b) {
      LookupOfFold(known, a, b);
      FoldKeepsUnderscore(a, b);
      TitleOfFold(a, b, true);
    }
  }

  /** Every table entry is its own canonical form, exactly when no two entries collide on case. */
  lemma {:induction false} TableIsCanonicalIff(known: seq<Bytes>)
    requires forall i, j :: 0 <= i < j < |known| ==> known[i] != known[j]
    ensures (forall k :: k in known ==> Normalize(known, k) == k) <==> DistinctFolded(known)
  {
    if DistinctFolded(known) {
      forall k | k in known ensures Normalize(known, k) == k {
        var n := Lookup(known, k).value;
        var i :| 0 <= i < |known| && known[i] == k;
        var j :| 0 <= j < |known| && known[j] == n;
        assert Fold(known[i]) == Fold(known[j]);
        assert !(i < j) && !(j < i);
      }
    } else {
      var i, j :| 0 <= i < j < |known| && Fold(known[i]) == Fold(known[j]);
      LookupOfFold(known, known[i], known[j]);
      assert Normalize(known, known[i]) == Normalize(known, known[j]);
      assert known[i] in known && known[j] in known;
    }
  }
}
