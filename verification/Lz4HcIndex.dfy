/** The hash-chain index of LZ4 HC, for one segment of memory: LZ4HC_Insert and LZ4HC_InsertAndGetWiderMatch. */
module Lz4HcIndex {
  import opened Bytes
  import opened Lz4Format
  import opened Lz4Match

  /** Index of the first byte of the text: LZ4HC_init puts `base` 64 KB before it. */
  const FIRST := 0x1_0000

  const CHAIN_SIZE := 0x1_0000

  const HASH_SIZE := 0x8000

  /** What a search depends on: the text, a hash of four bytes, and the two settings of the compression level. */
  datatype Search = Search(text: seq<byte>, hash: seq<byte> -> nat, attempts: nat, patternAnalysis: bool)
  {
    /** Index `idx` is that of four bytes of the text. */
    predicate Hashable(idx: int) {
      FIRST <= idx && idx - FIRST + 4 <= |text|
    }

    /** LZ4HC_hashPtr at an index. */
    function HashAt(idx: nat, size: nat): (h: nat)
      requires Hashable(idx) && 0 < size
      ensures h < size
    {
      hash(text[idx - FIRST..idx - FIRST + 4]) % size
    }

    /** All positions before index `end` can be hashed. */
    predicate HashableTo(end: nat) {
      FIRST <= end && (end > FIRST ==> Hashable(end - 1))
    }

    /** The hash table holds, for each hash, the last position before `end` with it. */
    ghost predicate HashTableInv(table: seq<nat>, end: nat) {
      && 0 < |table| && HashableTo(end)
      && (forall h :: 0 <= h < |table| ==>
            table[h] == 0 || (FIRST <= table[h] < end && HashAt(table[h], |table|) == h))
      && (forall j :: FIRST <= j < end ==> j <= table[HashAt(j, |table|)])
    }

    /** `d` is the link of position `idx`: the distance to the previous position with the same hash, clipped. */
    ghost predicate Link(size: nat, idx: nat, d: nat)
      requires Hashable(idx) && 0 < size
    {
      && 1 <= d <= MAX_DISTANCE
      && (forall j :: FIRST <= j < idx && idx - d < j ==> HashAt(j, size) != HashAt(idx, size))
      && (d < MAX_DISTANCE ==> FIRST <= idx - d && HashAt(idx - d, size) == HashAt(idx, size))
    }

    /** The chain table, indexed modulo 64K, is right about the last 64K positions before `end`. */
    ghost predicate ChainInv(size: nat, chain: seq<nat>, end: nat)
      requires 0 < size && HashableTo(end)
    {
      && |chain| == CHAIN_SIZE
      && forall idx :: FIRST <= idx < end <= idx + CHAIN_SIZE ==> Link(size, idx, chain[idx % CHAIN_SIZE])
    }

    ghost predicate Indexed(table: seq<nat>, chain: seq<nat>, end: nat) {
      HashTableInv(table, end) && ChainInv(|table|, chain, end)
    }
  }

  lemma ModDistinct(i: nat, j: nat)
    requires i < j < i + CHAIN_SIZE
    ensures i % CHAIN_SIZE != j % CHAIN_SIZE
  {
  }

  function Clip(d: nat): nat {
    if d > MAX_DISTANCE then MAX_DISTANCE else d
  }

  lemma NewLink(s: Search, table: seq<nat>, idx: nat)
    requires s.HashTableInv(table, idx) && s.Hashable(idx)
    ensures var last := table[s.HashAt(idx, |table|)];
            last < idx && s.Link(|table|, idx, Clip(idx - last))
  {
    var last := table[s.HashAt(idx, |table|)];
    forall j | FIRST <= j < idx && idx - Clip(idx - last) < j
      ensures s.HashAt(j, |table|) != s.HashAt(idx, |table|)
    {
      assert j <= table[s.HashAt(j, |table|)];
    }
  }

  lemma InsertKeepsTable(s: Search, table: seq<nat>, idx: nat)
    requires s.HashTableInv(table, idx) && s.Hashable(idx)
    ensures s.HashTableInv(table[s.HashAt(idx, |table|) := idx], idx + 1)
  {
  }

  lemma InsertKeepsChain(s: Search, size: nat, chain: seq<nat>, idx: nat, d: nat)
    requires 0 < size && s.HashableTo(idx) && s.ChainInv(size, chain, idx) && s.Hashable(idx) && s.Link(size, idx, d)
    ensures s.ChainInv(size, chain[idx % CHAIN_SIZE := d], idx + 1)
  {
    var chain' := chain[idx % CHAIN_SIZE := d];
    forall i | FIRST <= i < idx + 1 <= i + CHAIN_SIZE
      ensures s.Link(size, i, chain'[i % CHAIN_SIZE])
    {
      if i < idx {
        ModDistinct(i, idx);
      }
    }
  }

  // ---------- what a search finds ----------

  /** A match that covers position `ip`, starting at or after `iLow` and ending at or before `iHigh`. */
  predicate Wider(text: seq<byte>, ip: nat, iLow: nat, iHigh: nat, start: nat, ref: nat, len: nat) {
    iLow <= start <= ip && RealMatch(text, start, ref, len) && ip + MINMATCH <= start + len <= iHigh
  }

  /** How many bytes before position `ip`, down to `iLow`, are the same before position `m`. */
  function BackLen(text: seq<byte>, ip: nat, iLow: nat, m: nat): (b: nat)
    requires m <= ip <= |text|
    ensures b <= m && (b == 0 || iLow + b <= ip)
    decreases ip
  {
    if iLow < ip && 0 < m && text[ip - 1] == text[m - 1] then 1 + BackLen(text, ip - 1, iLow, m - 1) else 0
  }

  /** Length of the match that a candidate gives, extended both ways; none, if it has less than four bytes from `ip`
      on. */
  function WideLen(text: seq<byte>, ip: nat, iLow: nat, iHigh: nat, m: nat): nat
    requires m <= ip <= iHigh <= |text|
  {
    var n := CommonLen(text, m, ip, iHigh);
    if n < MINMATCH then 0 else BackLen(text, ip, iLow, m) + n
  }

  /** No earlier position within reach gives a longer match. */
  predicate Longest(text: seq<byte>, ip: nat, iLow: nat, iHigh: nat, len: nat)
    requires ip <= iHigh <= |text|
  {
    forall q :: 0 <= q < ip <= q + MAX_DISTANCE ==> WideLen(text, ip, iLow, iHigh, q) <= len
  }

  /** Without room before `ip`, the match is a common prefix. */
  lemma WideAtLow(text: seq<byte>, ip: nat, iHigh: nat, m: nat)
    requires m <= ip <= iHigh <= |text|
    ensures var n := CommonLen(text, m, ip, iHigh);
            WideLen(text, ip, ip, iHigh, m) == if n < MINMATCH then 0 else n
  {
    hide CommonLen;
  }

  /** A longer match than `longest` covers the byte behind the first `longest` from `iLow` on. */
  lemma WideCovers(text: seq<byte>, ip: nat, iLow: nat, iHigh: nat, m: nat, longest: nat)
    requires m < ip && iLow <= ip <= iLow + longest && ip <= iHigh && iLow + longest <= iHigh < |text|
    ensures longest < WideLen(text, ip, iLow, iHigh, m) ==> text[iLow + longest] == text[m + iLow + longest - ip]
  {
    hide CommonLen;
    var n, k := CommonLen(text, m, ip, iHigh), iLow + longest;
    CommonLenAgree(text, m, ip, iHigh, n);
    if k < ip + n {
      assert text[k] == text[k - (ip - m)];
    }
  }

  lemma SameHash(s: Search, q: nat, ip: nat, iHigh: nat, size: nat)
    requires q <= ip && ip + MINMATCH <= iHigh <= |s.text| && 0 < size
    requires CommonLen(s.text, q, ip, iHigh) >= MINMATCH
    ensures s.HashAt(q + FIRST, size) == s.HashAt(ip + FIRST, size)
  {
    CommonLenAgree(s.text, q, ip, iHigh, MINMATCH);
    assert Agree(s.text, q, ip, MINMATCH);
    var x, y := s.text[q..q + 4], s.text[ip..ip + 4];
    var d := ip - q;
    assert s.text[ip] == s.text[ip - d] && s.text[ip + 1] == s.text[ip + 1 - d];
    assert s.text[ip + 2] == s.text[ip + 2 - d] && s.text[ip + 3] == s.text[ip + 3 - d];
    assert x == y;
  }

  /** Lowest index a match for `ip` may have. */
  function LowLimit(ip: nat): nat {
    if FIRST + FIRST > ip + FIRST then FIRST else ip + FIRST - MAX_DISTANCE
  }

  /** The latest position with the hash of `ip`, if it is within reach, is no better than `longest`. */
  ghost predicate LatestTried(s: Search, size: nat, ip: nat, iHigh: nat, longest: nat)
    requires ip + MINMATCH <= iHigh <= |s.text| && 0 < size
  {
    forall q: nat :: Latest(s, size, q, ip) && LowLimit(ip) <= q + FIRST ==> CommonLen(s.text, q, ip, iHigh) <= longest
  }

  ghost predicate Latest(s: Search, size: nat, q: nat, ip: nat)
    requires ip + MINMATCH <= |s.text| && 0 < size
  {
    && q < ip && s.HashAt(q + FIRST, size) == s.HashAt(ip + FIRST, size)
    && forall j :: q + FIRST < j < ip + FIRST ==> s.HashAt(j, size) != s.HashAt(ip + FIRST, size)
  }

  lemma LatestInTable(s: Search, table: seq<nat>, ip: nat, q: nat)
    requires ip + MINMATCH <= |s.text| && s.HashTableInv(table, ip + FIRST) && Latest(s, |table|, q, ip)
    ensures table[s.HashAt(ip + FIRST, |table|)] == q + FIRST
  {
    var t := table[s.HashAt(ip + FIRST, |table|)];
    assert q + FIRST <= t;
    assert t - FIRST <= q;
  }

  /** No candidate with the hash of `ip` whose index is above `above` is better than `longest`. */
  ghost predicate Seen(s: Search, size: nat, ip: nat, iLow: nat, iHigh: nat, above: int, longest: nat)
    requires ip + MINMATCH <= iHigh <= |s.text| && 0 < size
  {
    forall j :: LowLimit(ip) <= j < ip + FIRST && above < j && s.HashAt(j, size) == s.HashAt(ip + FIRST, size) ==>
                WideLen(s.text, ip, iLow, iHigh, j - FIRST) <= longest
  }

  lemma SeenStart(s: Search, table: seq<nat>, ip: nat, iLow: nat, iHigh: nat, longest: nat)
    requires ip + MINMATCH <= iHigh <= |s.text| && s.HashTableInv(table, ip + FIRST)
    ensures Seen(s, |table|, ip, iLow, iHigh, table[s.HashAt(ip + FIRST, |table|)], longest)
  {
  }

  /** Following a link skips no candidate. */
  lemma SeenNext(s: Search, size: nat, ip: nat, iLow: nat, iHigh: nat, idx: nat, next: nat, longest: nat,
                 longest': nat)
    requires ip + MINMATCH <= iHigh <= |s.text| && 0 < size && LowLimit(ip) <= idx < ip + FIRST
    requires Seen(s, size, ip, iLow, iHigh, idx, longest) && longest <= longest'
    requires WideLen(s.text, ip, iLow, iHigh, idx - FIRST) <= longest'
    requires s.HashAt(idx, size) == s.HashAt(ip + FIRST, size)
    requires next < idx && s.Link(size, idx, idx - next)
    ensures Seen(s, size, ip, iLow, iHigh, next, longest')
    ensures LowLimit(ip) <= next ==> s.HashAt(next, size) == s.HashAt(ip + FIRST, size)
  {
    hide WideLen;
  }

  // ---------- how many candidates are tried ----------

  /** How many positions behind `q`, and before `ip`, have the hash of `ip`. */
  ghost function Later(s: Search, size: nat, q: nat, ip: nat): (n: nat)
    requires ip + MINMATCH <= |s.text| && 0 < size
    ensures q < ip ==> n < ip - q
    decreases ip - q
  {
    if q + 1 >= ip then 0
    else (if s.HashAt(q + 1 + FIRST, size) == s.HashAt(ip + FIRST, size) then 1 else 0) + Later(s, size, q + 1, ip)
  }

  /** No earlier position within reach that has fewer than `s.attempts` others with the hash of `ip` behind it gives a
      match longer than `longest`. */
  ghost predicate Tried(s: Search, size: nat, ip: nat, iLow: nat, iHigh: nat, longest: nat)
    requires ip + MINMATCH <= iHigh <= |s.text| && 0 < size
  {
    forall q: nat :: q < ip <= q + MAX_DISTANCE && Later(s, size, q, ip) < s.attempts ==>
                       WideLen(s.text, ip, iLow, iHigh, q) <= longest
  }

  lemma {:induction false} LaterGrows(s: Search, size: nat, q: nat, p: nat, ip: nat)
    requires ip + MINMATCH <= |s.text| && 0 < size && q <= p
    ensures Later(s, size, p, ip) <= Later(s, size, q, ip)
    decreases p - q
  {
    hide Search.HashAt;
    if q < p {
      LaterGrows(s, size, q + 1, p, ip);
    }
  }

  /** The next position down the chain has one more behind it. */
  lemma {:induction false} LaterNext(s: Search, size: nat, q: nat, p: nat, ip: nat)
    requires ip + MINMATCH <= |s.text| && 0 < size && q < p < ip
    requires s.HashAt(p + FIRST, size) == s.HashAt(ip + FIRST, size)
    requires forall j :: q + FIRST < j < p + FIRST ==> s.HashAt(j, size) != s.HashAt(ip + FIRST, size)
    ensures Later(s, size, q, ip) == Later(s, size, p, ip) + 1
    decreases p - q
  {
    hide Search.HashAt;
    if q + 1 < p {
      LaterNext(s, size, q + 1, p, ip);
    }
  }

  /** Behind the last position with the hash there is none. */
  lemma {:induction false} LaterNone(s: Search, size: nat, q: nat, ip: nat)
    requires ip + MINMATCH <= |s.text| && 0 < size
    requires forall j :: q + FIRST < j < ip + FIRST ==> s.HashAt(j, size) != s.HashAt(ip + FIRST, size)
    ensures Later(s, size, q, ip) == 0
    decreases ip - q
  {
    hide Search.HashAt;
    if q + 1 < ip {
      LaterNone(s, size, q + 1, ip);
    }
  }

  /** The walk stands at `idx`: what is above is seen, and so many candidates were tried. */
  ghost predicate Walked(s: Search, size: nat, ip: nat, iLow: nat, iHigh: nat, idx: int, tried: nat, longest: nat)
    requires ip + MINMATCH <= iHigh <= |s.text| && 0 < size
  {
    && idx < ip + FIRST && Seen(s, size, ip, iLow, iHigh, idx, longest)
    && (LowLimit(ip) <= idx ==> s.HashAt(idx, size) == s.HashAt(ip + FIRST, size)
                                && Later(s, size, idx - FIRST, ip) == tried)
  }

  lemma WalkStart(s: Search, table: seq<nat>, ip: nat, iLow: nat, iHigh: nat, longest: nat)
    requires ip + MINMATCH <= iHigh <= |s.text| && s.HashTableInv(table, ip + FIRST)
    ensures Walked(s, |table|, ip, iLow, iHigh, table[s.HashAt(ip + FIRST, |table|)], 0, longest)
  {
    hide Seen;
    SeenStart(s, table, ip, iLow, iHigh, longest);
    var idx := table[s.HashAt(ip + FIRST, |table|)];
    if LowLimit(ip) <= idx {
      LaterNone(s, |table|, idx - FIRST, ip);
    }
  }

  lemma WalkNext(s: Search, size: nat, ip: nat, iLow: nat, iHigh: nat, idx: nat, next: nat, tried: nat, longest: nat,
                 longest': nat)
    requires ip + MINMATCH <= iHigh <= |s.text| && 0 < size && LowLimit(ip) <= idx
    requires Walked(s, size, ip, iLow, iHigh, idx, tried, longest) && longest <= longest'
    requires WideLen(s.text, ip, iLow, iHigh, idx - FIRST) <= longest'
    requires next < idx && s.Link(size, idx, idx - next)
    ensures Walked(s, size, ip, iLow, iHigh, next, tried + 1, longest')
  {
    hide Seen, WideLen, Search.HashAt;
    SeenNext(s, size, ip, iLow, iHigh, idx, next, longest, longest');
    if LowLimit(ip) <= next {
      LaterNext(s, size, next - FIRST, idx - FIRST, ip);
    }
  }

  lemma WalkSeen(s: Search, size: nat, ip: nat, iLow: nat, iHigh: nat, idx: int, tried: nat, longest: nat)
    requires ip + MINMATCH <= iHigh <= |s.text| && 0 < size && Walked(s, size, ip, iLow, iHigh, idx, tried, longest)
    ensures Seen(s, size, ip, iLow, iHigh, idx, longest)
  {
  }

  /** When the attempts are used up, or the chain leaves the window, all that the attempts allow have been tried. */
  lemma WalkEnd(s: Search, size: nat, ip: nat, iLow: nat, iHigh: nat, idx: int, longest: nat)
    requires ip + MINMATCH <= iHigh <= |s.text| && 0 < size
    requires idx < LowLimit(ip) || Walked(s, size, ip, iLow, iHigh, idx, s.attempts, longest)
    requires Seen(s, size, ip, iLow, iHigh, idx, longest)
    ensures Tried(s, size, ip, iLow, iHigh, longest)
  {
    hide CommonLen, Search.HashAt;
    forall q: nat | q < ip <= q + MAX_DISTANCE && Later(s, size, q, ip) < s.attempts
      ensures WideLen(s.text, ip, iLow, iHigh, q) <= longest
    {
      if LowLimit(ip) <= idx && q <= idx - FIRST {
        LaterGrows(s, size, q, idx - FIRST, ip);
      } else if CommonLen(s.text, q, ip, iHigh) >= MINMATCH {
        SameHash(s, q, ip, iHigh, size);
        assert LowLimit(ip) <= q + FIRST;
      }
    }
  }

  /** With as many attempts as there are positions within reach, the match is the longest of all. */
  lemma TriedAll(s: Search, size: nat, ip: nat, iLow: nat, iHigh: nat, longest: nat)
    requires ip + MINMATCH <= iHigh <= |s.text| && 0 < size && Tried(s, size, ip, iLow, iHigh, longest)
    requires s.attempts >= MAX_DISTANCE
    ensures Longest(s.text, ip, iLow, iHigh, longest)
  {
    hide WideLen, Later;
  }

  /** One candidate: a quick test on a single byte, the four bytes, then extension both ways. */
  method TryCandidate(text: seq<byte>, ip: nat, iLow: nat, iHigh: nat, m: nat, longest: nat, start: nat, ref: nat)
    returns (longest': nat, start': nat, ref': nat)
    requires m < ip <= m + MAX_DISTANCE && iLow <= ip <= iLow + longest && ip + MINMATCH <= iHigh
    requires iLow + longest <= iHigh < |text|
    ensures longest <= longest' && iLow + longest' <= iHigh
    ensures if longest' == longest then start' == start && ref' == ref
            else Wider(text, ip, iLow, iHigh, start', ref', longest')
    ensures var w := WideLen(text, ip, iLow, iHigh, m); longest' == if w > longest then w else longest
  {
    longest', start', ref' := longest, start, ref;
    hide CommonLen, Agree, Wider, BackLen;
    if text[iLow + longest] != text[m - (ip - iLow) + longest] {
      WideCovers(text, ip, iLow, iHigh, m, longest);
      return;
    }
    CommonLenAgree(text, m, ip, iHigh, MINMATCH);
    var same := ReadsEqual(text, m, ip, 4);
    if same {
      var mlt, back := ExtendBothWays(text, ip, iLow, iHigh, m);
      if mlt > longest {
        longest', start', ref' := mlt, ip - back, m - back;
      }
    }
  }

  lemma MatchBehind(text: seq<byte>, ip: nat, m: nat)
    requires RealMatch(text, ip, m, MINMATCH)
    ensures m < ip && ip + MINMATCH <= |text|
  {
  }

  /** A match of four bytes, extended. */
  method ExtendBothWays(text: seq<byte>, ip: nat, iLow: nat, iHigh: nat, m: nat) returns (mlt: nat, back: nat)
    requires RealMatch(text, ip, m, MINMATCH) && iLow <= ip && ip + MINMATCH <= iHigh < |text|
    ensures iLow + back <= ip && back <= m && Wider(text, ip, iLow, iHigh, ip - back, m - back, mlt)
    ensures back == BackLen(text, ip, iLow, m)
    ensures mlt == back + MINMATCH + CommonLen(text, m + MINMATCH, ip + MINMATCH, iHigh)
  {
    hide CommonLen, RealMatch;
    MatchBehind(text, ip, m);
    var n := Count(text, ip + MINMATCH, m + MINMATCH, iHigh);
    mlt, back := MINMATCH + n, 0;
    ExtendMatch(text, ip, m, 0, iHigh);
    while ip - back > iLow && m - back > 0 && text[ip - back - 1] == text[m - back - 1]
      invariant iLow + back <= ip && back <= m
      invariant BackLen(text, ip, iLow, m) == back + BackLen(text, ip - back, iLow, m - back)
      invariant RealMatch(text, ip - back, m - back, mlt + back)
    {
      OneBack(text, ip - back, m - back, mlt + back);
      back := back + 1;
    }
    mlt := mlt + back;
  }

  lemma OneBack(text: seq<byte>, ip: nat, m: nat, len: nat)
    requires RealMatch(text, ip, m, len) && 0 < m && text[ip - 1] == text[m - 1]
    ensures RealMatch(text, ip - 1, m - 1, len + 1)
  {
  }

  // ---------- repeated patterns ----------

  datatype Repeat = Untested | Not | Confirmed

  /** Byte `i` of the endless repetition of a pattern. */
  function Cycle(pattern: seq<byte>, i: nat): byte
    requires |pattern| == 4
  {
    pattern[i % 4]
  }

  lemma CycleShift(pattern: seq<byte>, n: nat)
    requires |pattern| == 4 && n % 4 == 0
    ensures forall i: nat :: Cycle(pattern, n + i) == Cycle(pattern, i)
  {
  }

  /** From `p` on, the text is the repetition of a pattern, for `n` bytes. */
  predicate Cycles(text: seq<byte>, p: nat, n: nat, pattern: seq<byte>)
    requires |pattern| == 4 && p + n <= |text|
  {
    forall i :: 0 <= i < n ==> Cycle(pattern, i) == text[p + i]
  }

  lemma CyclesMore(text: seq<byte>, p: nat, n: nat, j: nat, pattern: seq<byte>)
    requires |pattern| == 4 && p + n + j <= |text| && n % 4 == 0
    requires Cycles(text, p, n, pattern) && Cycles(text, p + n, j, pattern)
    ensures Cycles(text, p, n + j, pattern)
  {
    CycleShift(pattern, n);
    forall i | 0 <= i < n + j
      ensures Cycle(pattern, i) == text[p + i]
    {
      if i >= n {
        assert Cycle(pattern, n + (i - n)) == Cycle(pattern, i - n);
      }
    }
  }

  /** Eight bytes against the pattern; how many agree. */
  method CountEight(text: seq<byte>, p: nat, pattern: seq<byte>) returns (j: nat)
    requires |pattern| == 4 && p + 8 <= |text|
    ensures j <= 8 && Cycles(text, p, j, pattern) && (j < 8 ==> text[p + j] != Cycle(pattern, j))
  {
    j := 0;
    while j < 8 && text[p + j] == Cycle(pattern, j)
      invariant j <= 8 && Cycles(text, p, j, pattern)
    {
      j := j + 1;
    }
  }

  /** LZ4HC_countPattern: how far a four-byte pattern repeats, eight bytes at a time and then one by one. */
  method CountPattern(text: seq<byte>, ip: nat, iEnd: nat, pattern: seq<byte>) returns (n: nat)
    requires |pattern| == 4 && ip <= iEnd <= |text|
    ensures ip + n <= iEnd && Cycles(text, ip, n, pattern)
    ensures ip + n < iEnd ==> text[ip + n] != Cycle(pattern, n)
  {
    n := 0;
    while ip + n + 7 < iEnd
      invariant ip + n <= iEnd && n % 4 == 0 && Cycles(text, ip, n, pattern)
    {
      var j := CountEight(text, ip + n, pattern);
      CyclesMore(text, ip, n, j, pattern);
      CycleShift(pattern, n);
      n := n + j;
      if j < 8 {
        return;
      }
    }
    while ip + n < iEnd && text[ip + n] == Cycle(pattern, n)
      invariant ip + n <= iEnd && Cycles(text, ip, n, pattern)
    {
      n := n + 1;
    }
  }

  /** Up to `p`, the text is the repetition of a pattern, for `n` bytes. */
  predicate CyclesBack(text: seq<byte>, p: nat, n: nat, pattern: seq<byte>)
    requires |pattern| == 4 && n <= p <= |text|
  {
    forall i :: 0 <= i < n ==> text[p - 1 - i] == pattern[3 - i % 4]
  }

  /** LZ4HC_reverseCountPattern: the same backwards, four bytes at a time and then at most three more. */
  method ReverseCountPattern(text: seq<byte>, ip: nat, iLow: nat, pattern: seq<byte>) returns (n: nat)
    requires |pattern| == 4 && ip <= |text|
    ensures (n == 0 || iLow + n <= ip) && n <= ip && CyclesBack(text, ip, n, pattern)
    ensures iLow + n < ip ==> text[ip - 1 - n] != pattern[3 - n % 4]
  {
    hide CyclesBack;
    n := 0;
    BackNone(text, ip, pattern);
    while ip - n >= iLow + 4 && text[ip - n - 1] == pattern[3] && text[ip - n - 2] == pattern[2]
          && text[ip - n - 3] == pattern[1] && text[ip - n - 4] == pattern[0]
      invariant (n == 0 || iLow + n <= ip) && n <= ip && n % 4 == 0 && CyclesBack(text, ip, n, pattern)
      decreases ip - n
    {
      BackFour(text, ip - n, pattern);
      BackMore(text, ip, n, 4, pattern);
      n := n + 4;
    }
    var p, j := ip - n, 0;
    BackNone(text, p, pattern);
    while p - j > iLow && text[p - j - 1] == pattern[3 - j]
      invariant 0 <= j <= 3 && (j == 0 || iLow + j <= p) && j <= p && CyclesBack(text, p, j, pattern)
      invariant j >= 1 ==> text[p - 1] == pattern[3]
      invariant j >= 2 ==> text[p - 2] == pattern[2]
      invariant j >= 3 ==> text[p - 3] == pattern[1]
      decreases 4 - j
    {
      BackOne(text, p, j, pattern);
      j := j + 1;
    }
    BackMore(text, ip, n, j, pattern);
    n := n + j;
  }

  lemma BackNone(text: seq<byte>, p: nat, pattern: seq<byte>)
    requires |pattern| == 4 && p <= |text|
    ensures CyclesBack(text, p, 0, pattern)
  {
  }

  lemma BackOne(text: seq<byte>, p: nat, j: nat, pattern: seq<byte>)
    requires |pattern| == 4 && j < 4 && j < p <= |text| && CyclesBack(text, p, j, pattern)
    requires text[p - 1 - j] == pattern[3 - j]
    ensures CyclesBack(text, p, j + 1, pattern)
  {
  }

  lemma BackFour(text: seq<byte>, p: nat, pattern: seq<byte>)
    requires |pattern| == 4 && 4 <= p <= |text|
    requires text[p - 1] == pattern[3] && text[p - 2] == pattern[2] && text[p - 3] == pattern[1]
    requires text[p - 4] == pattern[0]
    ensures CyclesBack(text, p, 4, pattern)
  {
  }

  lemma BackMore(text: seq<byte>, p: nat, n: nat, j: nat, pattern: seq<byte>)
    requires |pattern| == 4 && n + j <= p <= |text| && n % 4 == 0 && j <= 4
    requires CyclesBack(text, p, n, pattern) && CyclesBack(text, p - n, j, pattern)
    ensures CyclesBack(text, p, n + j, pattern)
  {
    forall i | 0 <= i < n + j
      ensures text[p - 1 - i] == pattern[3 - i % 4]
    {
      if i >= n {
        assert text[p - n - 1 - (i - n)] == pattern[3 - (i - n) % 4];
      }
    }
  }

  /** A run of the pattern around `m`: `back` bytes before it and `fwd` from it on, and no further within the limits. */
  predicate RunAround(text: seq<byte>, ip: nat, iHigh: nat, m: nat, back: nat, fwd: nat)
    requires m < ip && ip + MINMATCH <= iHigh <= |text|
  {
    var pattern, low := text[ip..ip + 4], LowLimit(ip) - FIRST;
    && back <= m && 4 <= fwd && m + fwd <= iHigh && CyclesBack(text, m, back, pattern) && Cycles(text, m, fwd, pattern)
    && (low + back < m ==> text[m - 1 - back] != pattern[3 - back % 4])
    && (m + fwd < iHigh ==> text[m + fwd] != Cycle(pattern, fwd))
  }

  /** Four equal bytes: only then are the candidates of a pattern skipped. */
  predicate Uniform(text: seq<byte>, ip: nat)
    requires ip + MINMATCH <= |text|
  {
    text[ip] == text[ip + 1] == text[ip + 2] == text[ip + 3]
  }

  /** The pattern at `ip` is repeated for `n` bytes. */
  predicate PatternHere(text: seq<byte>, ip: nat, iHigh: nat, n: nat)
    requires ip + MINMATCH <= iHigh <= |text|
  {
    var pattern := text[ip..ip + 4];
    && 4 <= n && ip + n <= iHigh && Cycles(text, ip, n, pattern)
    && (ip + n < iHigh ==> text[ip + n] != Cycle(pattern, n))
  }

  /** What has been found out about the pattern at `ip`. */
  predicate Known(text: seq<byte>, ip: nat, iHigh: nat, repeat: Repeat, n: nat)
    requires ip + MINMATCH <= iHigh <= |text|
  {
    match repeat
    case Untested => true
    case Not => !Uniform(text, ip)
    case Confirmed => Uniform(text, ip) && PatternHere(text, ip, iHigh, n)
  }

  /** Where the search goes from a candidate `m`, of which the pattern is repeated `n` times at `ip`. */
  ghost predicate Jumps(text: seq<byte>, ip: nat, iHigh: nat, m: nat, n: nat, m': int)
    requires m < ip && ip + MINMATCH <= iHigh <= |text|
  {
    if text[m..m + 4] != text[ip..ip + 4] then m' == m
    else exists back: nat, fwd: nat :: RunAround(text, ip, iHigh, m, back, fwd)
                                       && m' == if fwd <= n <= back + fwd then m + fwd - n else m - back
  }

  /** Where a repeated pattern lets the search jump to: to where as much of it follows as at the current position, if
      its run around the candidate is long enough, or else to the start of the run. */
  method JumpPattern(text: seq<byte>, ip: nat, iHigh: nat, m: nat, srcPatternLength: nat)
    returns (m': nat, ghost back: nat, ghost fwd: nat)
    requires m < ip && ip + MINMATCH <= iHigh <= |text|
    ensures m' <= m
    ensures if text[m..m + 4] != text[ip..ip + 4] then m' == m
            else
              && RunAround(text, ip, iHigh, m, back, fwd)
              && m' == if fwd <= srcPatternLength <= back + fwd then m + fwd - srcPatternLength else m - back
  {
    m', back, fwd := m, 0, 0;
    var pattern := text[ip..ip + 4];
    if text[m..m + 4] == pattern {
      var forward := CountPattern(text, m + 4, iHigh, pattern);
      var forwardPatternLength := forward + 4;
      FirstFour(text, m, forward, pattern);
      var maxLow := if MAX_DISTANCE >= ip then 0 else ip - MAX_DISTANCE;
      var backLength := ReverseCountPattern(text, m, maxLow, pattern);
      back, fwd := backLength, forwardPatternLength;
      var currentSegmentLength := backLength + forwardPatternLength;
      if currentSegmentLength >= srcPatternLength && forwardPatternLength <= srcPatternLength {
        m' := m + forwardPatternLength - srcPatternLength;
      } else {
        m' := m - backLength;
      }
    }
  }

  lemma FirstFour(text: seq<byte>, m: nat, forward: nat, pattern: seq<byte>)
    requires |pattern| == 4 && m + 4 + forward <= |text| && text[m..m + 4] == pattern
    requires Cycles(text, m + 4, forward, pattern)
    ensures Cycles(text, m, forward + 4, pattern) && Cycle(pattern, forward + 4) == Cycle(pattern, forward)
  {
    forall i | 0 <= i < 4
      ensures Cycle(pattern, i) == text[m + i]
    {
      assert text[m..m + 4][i] == text[m + i];
    }
    assert Cycles(text, m, 4, pattern);
    CyclesMore(text, m, 4, forward, pattern);
  }

  /** LZ4HC_CCtx_internal. */
  class Context {
    const hashTable: array<nat>
    const chainTable: array<nat>
    /** Index of the first position that is not in the tables yet. */
    var nextToUpdate: nat

    /** LZ4HC_init. */
    constructor ()
      ensures fresh(hashTable) && fresh(chainTable) && nextToUpdate == FIRST && hashTable.Length == HASH_SIZE
      ensures forall s: Search :: Indexed(s)
    {
      hashTable := new nat[HASH_SIZE](_ => 0);
      chainTable := new nat[CHAIN_SIZE](_ => 0xFFFF);
      nextToUpdate := FIRST;
    }

    ghost predicate Indexed(s: Search)
      reads this, hashTable, chainTable
    {
      hashTable != chainTable && s.Indexed(hashTable[..], chainTable[..], nextToUpdate)
    }

    /** LZ4HC_Insert: all positions before `ip`. */
    method Insert(s: Search, ip: nat)
      requires Indexed(s) && nextToUpdate <= ip + FIRST && ip + 3 <= |s.text|
      modifies this, hashTable, chainTable
      ensures Indexed(s) && nextToUpdate == ip + FIRST
    {
      var target := ip + FIRST;
      while nextToUpdate < target
        invariant Indexed(s) && nextToUpdate <= target
      {
        InsertOne(s);
      }
    }

    method InsertOne(s: Search)
      requires Indexed(s) && nextToUpdate - FIRST + 4 <= |s.text|
      modifies this, hashTable, chainTable
      ensures Indexed(s) && nextToUpdate == old(nextToUpdate) + 1
    {
      var idx := nextToUpdate;
      var h := s.HashAt(idx, hashTable.Length);
      NewLink(s, hashTable[..], idx);
      InsertKeepsTable(s, hashTable[..], idx);
      var delta := idx - hashTable[h];
      if delta > MAX_DISTANCE {
        delta := MAX_DISTANCE;
      }
      InsertKeepsChain(s, hashTable.Length, chainTable[..], idx, delta);
      chainTable[idx % CHAIN_SIZE] := delta;
      hashTable[h] := idx;
      nextToUpdate := idx + 1;
      assert hashTable[..] == old(hashTable[..])[h := idx];
      assert chainTable[..] == old(chainTable[..])[idx % CHAIN_SIZE := delta];
    }

    /** LZ4HC_InsertAndGetWiderMatch, for one segment. */
    method InsertAndGetWiderMatch(s: Search, ip: nat, iLow: nat, iHigh: nat, longest0: nat)
      returns (longest: nat, start: nat, ref: nat)
      requires Indexed(s) && nextToUpdate <= ip + FIRST
      requires iLow <= ip <= iLow + longest0 && ip + MINMATCH <= iHigh < |s.text| && iLow + longest0 <= iHigh
      modifies this, hashTable, chainTable
      ensures Indexed(s) && nextToUpdate == ip + FIRST
      ensures longest0 <= longest
      ensures longest > longest0 ==> Wider(s.text, ip, iLow, iHigh, start, ref, longest)
      ensures !(s.patternAnalysis && Uniform(s.text, ip)) ==>
                Tried(s, hashTable.Length, ip, iLow, iHigh, longest)
      ensures ip == iLow && longest0 >= MINMATCH - 1 && s.attempts > 0 ==>
                LatestTried(s, hashTable.Length, ip, iHigh, longest)
    {
      Insert(s, ip);
      longest, start, ref := Walk(s, ip, iLow, iHigh, longest0);
    }

    static lemma FirstTried(s: Search, table: seq<nat>, ip: nat, iHigh: nat, longest: nat)
      requires ip + MINMATCH <= iHigh <= |s.text| && s.HashTableInv(table, ip + FIRST)
      requires var first := table[s.HashAt(ip + FIRST, |table|)];
               LowLimit(ip) <= first < ip + FIRST ==> CommonLen(s.text, first - FIRST, ip, iHigh) <= longest
      ensures LatestTried(s, |table|, ip, iHigh, longest)
    {
      hide CommonLen, Search.HashTableInv;
      forall q: nat | Latest(s, |table|, q, ip) && LowLimit(ip) <= q + FIRST
        ensures CommonLen(s.text, q, ip, iHigh) <= longest
      {
        LatestInTable(s, table, ip, q);
      }
    }

    /** The walk along the chain. */
    method Walk(s: Search, ip: nat, iLow: nat, iHigh: nat, longest0: nat)
      returns (longest: nat, start: nat, ref: nat)
      requires Indexed(s) && nextToUpdate == ip + FIRST
      requires iLow <= ip <= iLow + longest0 && ip + MINMATCH <= iHigh < |s.text| && iLow + longest0 <= iHigh
      ensures longest0 <= longest
      ensures longest > longest0 ==> Wider(s.text, ip, iLow, iHigh, start, ref, longest)
      ensures !(s.patternAnalysis && Uniform(s.text, ip)) ==>
                Tried(s, hashTable.Length, ip, iLow, iHigh, longest)
      ensures ip == iLow && longest0 >= MINMATCH - 1 && s.attempts > 0 ==>
                LatestTried(s, hashTable.Length, ip, iHigh, longest)
    {
      hide CommonLen, Wider, Walked, Search.HashAt, Tried, LatestTried, Jumps, PatternHere;
      ghost var first := hashTable[s.HashAt(ip + FIRST, hashTable.Length)];
      ghost var exact := !(s.patternAnalysis && Uniform(s.text, ip));
      ghost var size := hashTable.Length;
      var lowLimit := LowLimit(ip);
      var h := s.HashAt(ip + FIRST, hashTable.Length);
      var matchIndex, nbAttempts := hashTable[h], s.attempts;
      longest, start, ref := longest0, ip, 0;
      WalkStart(s, hashTable[..], ip, iLow, iHigh, longest);
      var repeat, srcPatternLength := Untested, 0;
      while matchIndex >= lowLimit && nbAttempts > 0
        invariant matchIndex < ip + FIRST && 0 <= nbAttempts <= s.attempts
        invariant longest0 <= longest && iLow + longest <= iHigh
        invariant longest > longest0 ==> Wider(s.text, ip, iLow, iHigh, start, ref, longest)
        invariant || (nbAttempts == s.attempts && matchIndex == first)
                  || (ip == iLow && longest0 >= MINMATCH - 1 && lowLimit <= first < ip + FIRST ==>
                        CommonLen(s.text, first - FIRST, ip, iHigh) <= longest)
        invariant exact ==> Walked(s, size, ip, iLow, iHigh, matchIndex, s.attempts - nbAttempts, longest)
        invariant Known(s.text, ip, iHigh, repeat, srcPatternLength)
        decreases nbAttempts
      {
        nbAttempts := nbAttempts - 1;
        var longest' := longest;
        longest', start, ref := TryCandidate(s.text, ip, iLow, iHigh, matchIndex - FIRST, longest, start, ref);
        var next;
        next, repeat, srcPatternLength := Next(s, ip, iHigh, matchIndex, repeat, srcPatternLength);
        if exact {
          WalkNext(s, size, ip, iLow, iHigh, matchIndex, next, s.attempts - nbAttempts - 1, longest, longest');
        }
        matchIndex, longest := next, longest';
      }
      if exact {
        WalkSeen(s, size, ip, iLow, iHigh, matchIndex, s.attempts - nbAttempts, longest);
        WalkEnd(s, size, ip, iLow, iHigh, matchIndex, longest);
      }
      if ip == iLow && longest0 >= MINMATCH - 1 && s.attempts > 0 {
        FirstTried(s, hashTable[..], ip, iHigh, longest);
      }
    }

    /** The link is 1 exactly if the position before has the same hash. */
    static lemma OneLink(s: Search, size: nat, idx: nat, d: nat)
      requires s.Hashable(idx) && 0 < size
      ensures s.Link(size, idx, d) ==> (s.Link(size, idx, 1) <==> d == 1)
    {
      hide Search.HashAt;
    }

    /** The next candidate: one link down the chain, or further in a repeated pattern. */
    method Next(s: Search, ip: nat, iHigh: nat, matchIndex: nat, repeat: Repeat, srcPatternLength: nat)
      returns (next: nat, repeat': Repeat, srcPatternLength': nat)
      requires Indexed(s) && nextToUpdate == ip + FIRST && LowLimit(ip) <= matchIndex < ip + FIRST
      requires ip + MINMATCH <= iHigh <= |s.text|
      ensures next < matchIndex
      requires Known(s.text, ip, iHigh, repeat, srcPatternLength)
      ensures Known(s.text, ip, iHigh, repeat', srcPatternLength')
      ensures if s.patternAnalysis && Uniform(s.text, ip) && s.Link(hashTable.Length, matchIndex, 1) then
                && repeat' == Confirmed && FIRST < matchIndex
                && Jumps(s.text, ip, iHigh, matchIndex - 1 - FIRST, srcPatternLength', next - FIRST)
              else
                s.Link(hashTable.Length, matchIndex, matchIndex - next)
    {
      hide RunAround, Cycles, Cycle, Search.HashAt;
      OneLink(s, hashTable.Length, matchIndex, chainTable[..][matchIndex % CHAIN_SIZE]);
      assert s.Link(hashTable.Length, matchIndex, chainTable[..][matchIndex % CHAIN_SIZE]);
      var nextOffset := chainTable[matchIndex % CHAIN_SIZE];
      next := matchIndex - nextOffset;
      repeat', srcPatternLength' := repeat, srcPatternLength;
      if s.patternAnalysis && nextOffset == 1 {
        if repeat' == Untested {
          if s.text[ip] == s.text[ip + 1] == s.text[ip + 2] == s.text[ip + 3] {
            repeat' := Confirmed;
            var n := CountPattern(s.text, ip + 4, iHigh, s.text[ip..ip + 4]);
            FirstFour(s.text, ip, n, s.text[ip..ip + 4]);
            srcPatternLength' := n + 4;
          } else {
            repeat' := Not;
          }
        }
        if repeat' == Confirmed && next >= FIRST {
          var m;
          ghost var back, fwd;
          m, back, fwd := JumpPattern(s.text, ip, iHigh, next - FIRST, srcPatternLength');
          next := m + FIRST;
        }
      }
    }
  }
}
