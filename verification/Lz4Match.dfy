/** Comparing stretches of the text: LZ4_count and what a match found by it means. */
module Lz4Match {
  import opened Bytes
  import opened Lz4Format

  /** Length of the longest common prefix of text[m..] and text[p..limit], byte by byte. */
  function CommonLen(text: seq<byte>, m: nat, p: nat, limit: nat): (n: nat)
    requires m <= p <= limit <= |text|
    ensures p + n <= limit
    decreases limit - p
  {
    if p < limit && text[m] == text[p] then 1 + CommonLen(text, m + 1, p + 1, limit) else 0
  }

  /** `w` bytes from `p` on are the same as those from `m` on. */
  predicate Agree(text: seq<byte>, m: nat, p: nat, w: nat)
    requires m <= p && p + w <= |text|
  {
    forall k :: p <= k < p + w ==> text[k] == text[k - (p - m)]
  }

  lemma {:induction false} CommonLenAgree(text: seq<byte>, m: nat, p: nat, limit: nat, w: nat)
    requires m <= p && p + w <= limit <= |text|
    ensures Agree(text, m, p, w) == (w <= CommonLen(text, m, p, limit))
    ensures Agree(text, m, p, w) ==> CommonLen(text, m, p, limit) == w + CommonLen(text, m + w, p + w, limit)
    decreases w
  {
    if w > 0 {
      CommonLenAgree(text, m + 1, p + 1, limit, w - 1);
      if Agree(text, m, p, w) {
        assert text[p] == text[p - (p - m)];
        assert Agree(text, m + 1, p + 1, w - 1);
      } else if text[m] == text[p] {
        assert !Agree(text, m + 1, p + 1, w - 1);
      }
    }
  }

  /** LZ4_NbCommonBytes of the difference of two eight-byte words: the first byte that differs, 8 if none does. */
  method FirstDifference(text: seq<byte>, m: nat, p: nat) returns (d: nat)
    requires m <= p && p + 8 <= |text|
    ensures d <= 8 && Agree(text, m, p, d)
    ensures d < 8 ==> text[p + d] != text[m + d]
  {
    d := 0;
    while d < 8 && text[m + d] == text[p + d]
      invariant d <= 8 && Agree(text, m, p, d)
    {
      d := d + 1;
    }
  }

  /** Two words of `w` bytes, read and compared (LZ4_read32, LZ4_read16). */
  method ReadsEqual(text: seq<byte>, m: nat, p: nat, w: nat) returns (b: bool)
    requires m <= p && p + w <= |text|
    ensures b == Agree(text, m, p, w)
  {
    for i := 0 to w
      invariant Agree(text, m, p, i)
    {
      if text[m + i] != text[p + i] {
        assert text[p + i] != text[p + i - (p - m)];
        return false;
      }
    }
    return true;
  }

  /** The last few bytes: four, then two, then one. */
  method CountTail(text: seq<byte>, p: nat, m: nat, limit: nat) returns (n: nat)
    requires m <= p <= limit <= |text| && limit <= p + 7
    ensures n == CommonLen(text, m, p, limit)
  {
    hide CommonLen, Agree;
    n := 0;
    if p + 3 < limit {
      CommonLenAgree(text, m, p, limit, 4);
      var b := ReadsEqual(text, m, p, 4);
      n := if b then 4 else 0;
    }
    if p + n + 1 < limit {
      CommonLenAgree(text, m + n, p + n, limit, 2);
      var b := ReadsEqual(text, m + n, p + n, 2);
      n := if b then n + 2 else n;
    }
    if p + n < limit {
      CommonLenFirst(text, m + n, p + n, limit);
      n := if text[m + n] == text[p + n] then n + 1 else n;
    }
  }

  lemma CommonLenFirst(text: seq<byte>, m: nat, p: nat, limit: nat)
    requires m <= p < limit <= |text|
    ensures (CommonLen(text, m, p, limit) > 0) == (text[m] == text[p])
  {
  }

  /** LZ4_count, with STEPSIZE 8. */
  method Count(text: seq<byte>, pIn: nat, pMatch: nat, limit: nat) returns (n: nat)
    requires pMatch <= pIn <= limit <= |text|
    ensures n == CommonLen(text, pMatch, pIn, limit)
  {
    var p, m := pIn, pMatch;
    while p + 7 < limit
      invariant pIn <= p <= limit && p - m == pIn - pMatch
      invariant CommonLen(text, pMatch, pIn, limit) == p - pIn + CommonLen(text, m, p, limit)
    {
      var d := FirstDifference(text, m, p);
      CommonLenAgree(text, m, p, limit, d);
      p, m := p + d, m + d;
      if d < 8 {
        return p - pIn;
      }
    }
    var t := CountTail(text, p, m, limit);
    n := p - pIn + t;
  }

  /** A usable match: real, at distance 1 to 65535, and inside the text. */
  predicate RealMatch(text: seq<byte>, ip: nat, ref: int, len: nat) {
    0 <= ref < ip <= ref + MAX_DISTANCE && ip + len <= |text| && Agree(text, ref, ip, len)
  }

  /** No four bytes that start before `end` are those of a match. */
  ghost predicate MatchlessTo(text: seq<byte>, end: int) {
    forall ip: nat, m: nat :: ip < end ==> !RealMatch(text, ip, m, MINMATCH)
  }

  /** No match that a compressor could use. */
  ghost predicate Matchless(text: seq<byte>) {
    MatchlessTo(text, |text| - MFLIMIT)
  }

  /** A text of which only positions in `at` have a match. */
  ghost predicate OnlyAt(text: seq<byte>, at: set<nat>) {
    forall ip: nat, m: nat :: RealMatch(text, ip, m, MINMATCH) ==> ip in at
  }

  /** Forward and backward extension of a match of four bytes. */
  lemma ExtendMatch(text: seq<byte>, ip: nat, ref: nat, back: nat, limit: nat)
    requires RealMatch(text, ip, ref, 4) && ip + 4 <= limit <= |text| && back <= ref
    requires Agree(text, ref - back, ip - back, back)
    ensures RealMatch(text, ip - back, ref - back, back + 4 + CommonLen(text, ref + 4, ip + 4, limit))
  {
    var n := CommonLen(text, ref + 4, ip + 4, limit);
    CommonLenAgree(text, ref + 4, ip + 4, limit, n);
    forall k | ip - back <= k < ip + 4 + n
      ensures text[k] == text[k - (ip - ref)]
    {
      if k >= ip + 4 {
        assert text[k] == text[k - (ip + 4 - (ref + 4))];
      }
    }
  }

  lemma ShortenMatch(text: seq<byte>, ip: nat, ref: nat, len: nat, from: nat, len': nat)
    requires RealMatch(text, ip, ref, len) && from + len' <= len
    ensures RealMatch(text, ip + from, ref + from, len')
  {
    forall k | ip + from <= k < ip + from + len'
      ensures text[k] == text[k - (ip - ref)]
    {
    }
  }

  /** Appending the sequence "text[anchor..ip], then a real match" to a parse. */
  lemma Append(text: seq<byte>, start: nat, p: Parse, anchor: nat, ip: nat, ref: nat, len: matchlen)
    requires Builds(text, start, p, anchor) && Conforms(p, anchor, |text|)
    requires start <= anchor <= ip && RealMatch(text, ip, ref, len)
    requires ip + MFLIMIT <= |text| && ip + len + LASTLITERALS <= |text|
    ensures var p' := Then(p, Sequence(text[anchor..ip], ip - ref, len));
            Builds(text, start, p', ip + len) && Conforms(p', ip + len, |text|)
  {
  }
}
