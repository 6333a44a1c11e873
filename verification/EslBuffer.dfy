/** The parser's byte buffer, with a watermark of the bytes a pattern search has already seen. */
module EslBuffer {
  import opened Bytes
  import opened HeaderBlock
  import Framer

  /** What a search that starts over would find; the source's search finds no empty pattern. */
  function Search(s: Bytes, pat: Bytes): Option<nat>
  {
    if pat == [] then None else Find(s, pat)
  }

  /** Searching a suffix is searching from its start. */
  lemma FindInSuffix(s: Bytes, pat: Bytes, start: nat)
    requires start <= |s|
    ensures match Find(s[start..], pat)
            case Some(rel) => FindFrom(s, pat, start) == Some(start + rel)
            case None => FindFrom(s, pat, start).None?
  {
    var r := FindFrom(s, pat, start);
    match Find(s[start..], pat)
    case Some(rel) =>
      MatchInSuffix(s, pat, start, rel);
      assert MatchAt(s, pat, start + rel);
      assert r.Some? && r.value <= start + rel;
      MatchInSuffix(s, pat, start, r.value - start);
    case None =>
      if r.Some? {
        MatchInSuffix(s, pat, start, r.value - start);
      }
  }

  class Buffer {
    var buffer: Bytes
    var scanOffset: nat

    constructor ()
      ensures buffer == [] && scanOffset == 0
    {
      buffer, scanOffset := [], 0;
    }

    /** No full match of `pat` ends at or before the watermark, which lies inside the buffer. */
    ghost predicate Valid(pat: Bytes)
      reads this
    {
      scanOffset <= |buffer|
      && (pat != [] ==> forall i: nat :: i + |pat| <= scanOffset ==> !MatchAt(buffer, pat, i))
    }

    method ExtendFromSlice(data: Bytes, ghost pat: Bytes)
      requires Valid(pat)
      modifies this
      ensures Valid(pat) && buffer == old(buffer) + data
    {
      forall i: nat | i + |pat| <= |buffer| ensures MatchAt(buffer + data, pat, i) == MatchAt(buffer, pat, i) {
        MatchInPrefix(buffer, data, pat, i);
      }
      buffer := buffer + data;
    }

    /** Resumes from the watermark, backed up so that a match straddling it is not skipped. The
        result is that of a search from the start; only a hit moves the watermark past a match. */
    method FindPattern(pat: Bytes) returns (r: Option<nat>)
      requires Valid(pat)
      modifies this`scanOffset
      ensures r == Search(buffer, pat)
      ensures r.None? ==> Valid(pat)
      ensures r.Some? ==> scanOffset == r.value + |pat|
    {
      if pat == [] || |buffer| < |pat| {
        return None;
      }
      var back := |pat| - 1;
      var start := if scanOffset < back then 0 else scanOffset - back;
      FindInSuffix(buffer, pat, start);
      ResumeFindsFirst(start, pat);
      match Find(buffer[start..], pat) {
        case Some(rel) =>
          r := Some(start + rel);
          scanOffset := start + rel + |pat|;
        case None =>
          r := None;
          scanOffset := |buffer|;
      }
    }

    lemma ResumeFindsFirst(start: nat, pat: Bytes)
      requires Valid(pat) && pat != [] && start <= |buffer|
      requires start == if scanOffset < |pat| - 1 then 0 else scanOffset - (|pat| - 1)
      ensures FindFrom(buffer, pat, start) == Find(buffer, pat)
    {
      assert forall i: nat :: i < start ==> !MatchAt(buffer, pat, i);
      var r := FindFrom(buffer, pat, start);
      if r.Some? {
        FindIs(buffer, pat, r.value);
      }
    }

    method ExtractUntilPattern(pat: Bytes) returns (r: Option<Bytes>)
      requires Valid(pat)
      modifies this
      ensures Valid(pat)
      ensures match Search(old(buffer), pat)
              case Some(i) => r == Some(old(buffer)[..i]) && buffer == old(buffer)[i + |pat|..]
              case None => r.None? && buffer == old(buffer)
    {
      var found := FindPattern(pat);
      if found.None? {
        return None;
      }
      r := Some(buffer[..found.value]);
      buffer := buffer[found.value + |pat|..];
      scanOffset := 0;
    }

    method ExtractBytes(count: nat, ghost pat: Bytes) returns (r: Option<Bytes>)
      requires Valid(pat)
      modifies this
      ensures Valid(pat)
      ensures r.Some? <==> count <= |old(buffer)|
      ensures r.Some? ==> r.value == old(buffer)[..count] && buffer == old(buffer)[count..]
      ensures r.None? ==> buffer == old(buffer)
    {
      if |buffer| < count {
        return None;
      }
      r := Some(buffer[..count]);
      buffer := buffer[count..];
      scanOffset := if scanOffset < count then 0 else scanOffset - count;
      forall i: nat ensures MatchAt(buffer, pat, i) == MatchAt(old(buffer), pat, count + i) {
        MatchInSuffix(old(buffer), pat, count, i);
      }
    }

    method Clear(ghost pat: Bytes)
      modifies this
      ensures Valid(pat) && buffer == []
    {
      buffer, scanOffset := [], 0;
    }

    /** `compact` only reserves capacity, which this model does not carry. */
    method Compact(ghost pat: Bytes)
      requires Valid(pat)
      ensures Valid(pat)
    {
    }

    method CheckSizeLimits() returns (r: Result<(), EslError>)
      ensures r == if |buffer| > Framer.MAX_BUFFER_SIZE then Err(BufferOverflow(|buffer|)) else Ok(())
    {
      if |buffer| > Framer.MAX_BUFFER_SIZE {
        return Err(BufferOverflow(|buffer|));
      }
      return Ok(());
    }
  }

  datatype Op = Extend(data: Bytes) | ExtractUntil | Extract(count: nat) | Clear | Compact

  /** The same operation on a bare byte string, searching from the start every time. */
  function Simple(s: Bytes, op: Op, pat: Bytes): (Option<Bytes>, Bytes)
  {
    match op
    case Extend(data) => (None, s + data)
    case ExtractUntil =>
      (match Search(s, pat)
       case Some(i) => (Some(s[..i]), s[i + |pat|..])
       case None => (None, s))
    case Extract(n) => if n <= |s| then (Some(s[..n]), s[n..]) else (None, s)
    case Clear => (None, [])
    case Compact => (None, s)
  }

  function SimpleRun(s: Bytes, ops: seq<Op>, pat: Bytes): (seq<Option<Bytes>>, Bytes)
    decreases ops
  {
    if ops == [] then ([], s)
    else
      var (out, s') := Simple(s, ops[0], pat);
      var (outs, last) := SimpleRun(s', ops[1..], pat);
      ([out] + outs, last)
  }

  method Perform(b: Buffer, op: Op, pat: Bytes) returns (out: Option<Bytes>)
    requires b.Valid(pat)
    modifies b
    ensures b.Valid(pat) && (out, b.buffer) == Simple(old(b.buffer), op, pat)
  {
    out := None;
    match op {
      case Extend(data) => b.ExtendFromSlice(data, pat);
      case ExtractUntil => out := b.ExtractUntilPattern(pat);
      case Extract(n) => out := b.ExtractBytes(n, pat);
      case Clear => b.Clear(pat);
      case Compact => b.Compact(pat);
    }
  }

  /** Watermark refinement: for any pattern and any interleaving of operations on a new buffer,
      every result is the one the watermark-free buffer gives, and so are the bytes left. */
  method AnyInterleaving(pat: Bytes, ops: seq<Op>) returns (outs: seq<Option<Bytes>>, left: Bytes)
    ensures (outs, left) == SimpleRun([], ops, pat)
  {
    var b := new Buffer();
    outs := [];
    assert ops[0..] == ops && [] + SimpleRun([], ops, pat).0 == SimpleRun([], ops, pat).0;
    for i := 0 to |ops|
      invariant fresh(b) && b.Valid(pat)
      invariant var (rest, last) := SimpleRun(b.buffer, ops[i..], pat);
                SimpleRun([], ops, pat) == (outs + rest, last)
    {
      var rest := ops[i..];
      assert rest[0] == ops[i] && rest[1..] == ops[i + 1..];
      var out := Perform(b, ops[i], pat);
      ghost var later := SimpleRun(b.buffer, ops[i + 1..], pat).0;
      assert outs + ([out] + later) == (outs + [out]) + later;
      outs := outs + [out];
    }
    assert ops[|ops|..] == [] && outs + [] == outs;
    left := b.buffer;
  }
}
