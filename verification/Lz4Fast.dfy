/** LZ4_compress_generic: the hash-table compressor, on one contiguous piece of memory. */
module Lz4Fast {
  import opened Bytes
  import opened Lz4Format
  import opened Lz4RoundTrip
  import opened Lz4Emit
  import opened Lz4Match

  const LIMIT_64K := 65536 + MFLIMIT - 1

  /** What a call to LZ4_compress_generic is given, apart from its output buffer: the memory up to the end of the
      input, where the input and the usable history begin, the zero of table indexes, the kind of table, whether
      candidates before the history must be refused, and a hash, about which nothing is assumed. */
  datatype Source = Source(text: seq<byte>, start: nat, low: nat, base: int, byU16: bool, dictSmall: bool,
                           hash: nat -> nat)
  {
    function Size(): int { |text| - start }

    function Modulus(): nat { if byU16 then 0x1_0000 else 0x1_0000_0000 }

    predicate Valid() {
      && low <= start <= |text| && base <= start
      && |text| - start <= MAX_INPUT_SIZE
      && (byU16 ==> base == start && |text| - start < LIMIT_64K)
      && |text| - base < 0x1_0000_0000
      && (dictSmall || low <= base || start - low >= 0x1_0000)
    }
  }

  /** Every entry of the table is the index of a position before `ip`. */
  ghost predicate TableInv(c: Source, table: array<nat>, ip: int)
    reads table
  {
    table.Length > 0 && forall h :: 0 <= h < table.Length ==> c.base + table[h] < ip
  }

  lemma EntriesBefore(c: Source, table: array<nat>, ip: int, end: int)
    requires TableInv(c, table, ip) && ip <= end
    ensures TableInv(c, table, end) && table.Length > 0
  {
  }

  /** A match the compressor may use at `ip`. */
  predicate Candidate(c: Source, ip: nat, m: int) {
    c.low <= m && RealMatch(c.text, ip, m, MINMATCH)
  }

  method PutPosition(c: Source, table: array<nat>, p: nat, ghost ip: int)
    requires c.Valid() && c.start <= p < ip && p + MFLIMIT <= |c.text| && TableInv(c, table, ip)
    modifies table
    ensures TableInv(c, table, ip)
    ensures c.base + table[c.hash(p) % table.Length] == p
    ensures forall h :: 0 <= h < table.Length && h != c.hash(p) % table.Length ==> table[h] == old(table[h])
  {
    table[c.hash(p) % table.Length] := (p - c.base) % c.Modulus();
  }

  /** The tests on a candidate, in the order of the source. */
  method Accept(c: Source, ip: nat, m: int, checkDistance: bool) returns (b: bool)
    requires c.Valid() && c.base <= m < ip && c.start < ip && ip + MFLIMIT <= |c.text|
    requires checkDistance || c.byU16
    ensures b <==> Candidate(c, ip, m)
  {
    if c.dictSmall && m < c.low {
      return false;
    }
    if checkDistance && m + MAX_DISTANCE < ip {
      return false;
    }
    b := ReadsEqual(c.text, m, ip, 4);
  }

  /** The positions that a search tries: the first two are neighbours, then the steps grow by one every 64 positions. */
  function Probe(ip0: nat, acceleration: nat, k: nat): nat {
    if k == 0 then ip0 else Probe(ip0, acceleration, k - 1) + Stride(acceleration, k - 1)
  }

  function Stride(acceleration: nat, k: nat): nat {
    if k == 0 then 1 else (acceleration * 64 + k - 1) / 64
  }

  /** With acceleration 1, no position is left out until the 65th. */
  lemma {:induction false} NoneLeftOut(ip0: nat, k: nat)
    requires k <= 65
    ensures Probe(ip0, 1, k) == ip0 + k
  {
    if k > 0 {
      NoneLeftOut(ip0, k - 1);
    }
  }

  lemma {:induction false} ProbesAscend(ip0: nat, acceleration: nat, j: nat, k: nat)
    requires 1 <= acceleration && j <= k
    ensures ip0 <= Probe(ip0, acceleration, j) && Probe(ip0, acceleration, j) + (k - j) <= Probe(ip0, acceleration, k)
    decreases k
  {
    if k > 0 {
      ProbesAscend(ip0, acceleration, if j < k then j else k - 1, k - 1);
    }
  }

  /** Where the slot `h` of the table `t` leads to when `k` positions have been tried, and entered. */
  function Latest(c: Source, t: seq<nat>, ip0: nat, acceleration: nat, k: nat, h: nat): int
    requires h < |t|
  {
    if k == 0 then c.base + t[h]
    else if c.hash(Probe(ip0, acceleration, k - 1)) % |t| == h then Probe(ip0, acceleration, k - 1)
    else Latest(c, t, ip0, acceleration, k - 1, h)
  }

  /** The position that is tried after `k` others is found to repeat what its slot leads to. */
  predicate Hit(c: Source, t: seq<nat>, ip0: nat, acceleration: nat, k: nat)
    requires 0 < |t|
  {
    var q := Probe(ip0, acceleration, k);
    Candidate(c, q, Latest(c, t, ip0, acceleration, k, c.hash(q) % |t|))
  }

  /** It is the first one; the search does not give up before it, as the next position is far enough from the end. */
  predicate FirstHit(c: Source, t: seq<nat>, ip0: nat, acceleration: nat, k: nat)
    requires 0 < |t|
  {
    && Probe(ip0, acceleration, k + 1) + MFLIMIT <= |c.text|
    && Hit(c, t, ip0, acceleration, k) && forall j: nat :: j < k ==> !Hit(c, t, ip0, acceleration, j)
  }

  lemma NotYet(c: Source, t: seq<nat>, ip0: nat, acceleration: nat, n: nat)
    requires 0 < |t| && 1 <= acceleration && Probe(ip0, acceleration, n + 1) + MFLIMIT > |c.text|
    requires forall j: nat :: j < n ==> !Hit(c, t, ip0, acceleration, j)
    ensures forall k: nat :: !FirstHit(c, t, ip0, acceleration, k)
  {
    hide Probe, Hit;
    forall k: nat
      ensures !FirstHit(c, t, ip0, acceleration, k)
    {
      if k >= n {
        ProbesAscend(ip0, acceleration, n + 1, k + 1);
      }
    }
  }

  /** No position is a first hit but this one. */
  lemma OnlyHit(c: Source, t: seq<nat>, ip0: nat, acceleration: nat, n: nat)
    requires 0 < |t| && FirstHit(c, t, ip0, acceleration, n)
    ensures forall k: nat :: FirstHit(c, t, ip0, acceleration, k) ==> k == n
  {
    hide Probe, Hit;
  }

  /** The first hit is at `q`, and repeats what stands at `m`. */
  ghost predicate FirstHitAt(c: Source, t: seq<nat>, ip0: nat, acceleration: nat, q: nat, m: nat)
    requires 0 < |t|
  {
    && ip0 <= q && q + MFLIMIT < |c.text| && Candidate(c, q, m)
    && exists k: nat :: FirstHit(c, t, ip0, acceleration, k) && q == Probe(ip0, acceleration, k)
                        && m == Latest(c, t, ip0, acceleration, k, c.hash(q) % |t|)
  }

  /** The search of the main loop. It finds the first hit, and gives up only if there is none before the next position
      to try is too close to the end. */
  method FindMatch(c: Source, table: array<nat>, ip0: nat, acceleration: nat) returns (found: bool, ip: nat, m: int)
    requires c.Valid() && c.start < ip0 <= |c.text| && 1 <= acceleration && TableInv(c, table, ip0)
    modifies table
    ensures TableInv(c, table, |c.text|)
    ensures found ==> ip0 <= ip && ip + MFLIMIT < |c.text| && Candidate(c, ip, m) && TableInv(c, table, ip + 1)
    ensures found <==> exists k: nat :: FirstHit(c, old(table[..]), ip0, acceleration, k)
    ensures forall k: nat :: FirstHit(c, old(table[..]), ip0, acceleration, k) ==>
              && ip == Probe(ip0, acceleration, k)
              && m == Latest(c, old(table[..]), ip0, acceleration, k, c.hash(ip) % table.Length)
  {
    hide Candidate, FirstHit, Stride, Probe, Latest, Hit;
    ghost var t, n: nat := table[..], 0;
    FirstProbe(c, t, ip0, acceleration);
    var forwardIp, step, searchMatchNb := ip0, 1, acceleration * 64;
    ip, m := ip0, 0;
    while true
      invariant ip0 <= ip <= forwardIp <= |c.text| && forwardIp == Probe(ip0, acceleration, n)
      invariant step == Stride(acceleration, n) && searchMatchNb == acceleration * 64 + n
      invariant TableInv(c, table, forwardIp)
      invariant forall h :: 0 <= h < |t| ==> c.base + table[h] == Latest(c, t, ip0, acceleration, n, h)
      invariant forall j: nat :: j < n ==> !Hit(c, t, ip0, acceleration, j)
      decreases |c.text| - forwardIp
    {
      ip := forwardIp;
      forwardIp := forwardIp + step;
      step := searchMatchNb / 64;
      searchMatchNb := searchMatchNb + 1;
      NextProbe(c, t, ip0, acceleration, n);
      if forwardIp + MFLIMIT > |c.text| {
        NotYet(c, t, ip0, acceleration, n);
        return false, ip, m;
      }
      m := c.base + table[c.hash(ip) % table.Length];
      PutPosition(c, table, ip, ip + 1);
      found := Accept(c, ip, m, !c.byU16);
      if found {
        ThisHit(c, t, ip0, acceleration, n);
        return;
      }
      n := n + 1;
    }
  }

  lemma FirstProbe(c: Source, t: seq<nat>, ip0: nat, acceleration: nat)
    ensures Stride(acceleration, 0) == 1 && Probe(ip0, acceleration, 0) == ip0
    ensures forall h :: 0 <= h < |t| ==> Latest(c, t, ip0, acceleration, 0, h) == c.base + t[h]
  {
  }

  lemma NextProbe(c: Source, t: seq<nat>, ip0: nat, acceleration: nat, n: nat)
    requires 1 <= acceleration && 0 < |t|
    ensures 1 <= Stride(acceleration, n) && Stride(acceleration, n + 1) == (acceleration * 64 + n) / 64
    ensures var q := Probe(ip0, acceleration, n);
            var slot := c.hash(q) % |t|;
            && Probe(ip0, acceleration, n + 1) == q + Stride(acceleration, n)
            && Hit(c, t, ip0, acceleration, n) == Candidate(c, q, Latest(c, t, ip0, acceleration, n, slot))
            && Latest(c, t, ip0, acceleration, n + 1, slot) == q
            && forall h :: 0 <= h < |t| && h != slot ==>
                 Latest(c, t, ip0, acceleration, n + 1, h) == Latest(c, t, ip0, acceleration, n, h)
  {
    hide Candidate;
  }

  lemma ThisHit(c: Source, t: seq<nat>, ip0: nat, acceleration: nat, n: nat)
    requires 0 < |t| && Hit(c, t, ip0, acceleration, n) && Probe(ip0, acceleration, n + 1) + MFLIMIT <= |c.text|
    requires forall j: nat :: j < n ==> !Hit(c, t, ip0, acceleration, j)
    ensures FirstHit(c, t, ip0, acceleration, n)
    ensures forall k: nat :: FirstHit(c, t, ip0, acceleration, k) ==> k == n
  {
    hide Probe, Hit;
    OnlyHit(c, t, ip0, acceleration, n);
  }

  /** A match that can be extended backwards by one byte, and then begins where the literals do. */
  predicate OneBack(c: Source, anchor: nat, ip0: nat, m0: int) {
    anchor + 1 == ip0 <= |c.text| && c.low < m0 < ip0 && c.text[ip0 - 1] == c.text[m0 - 1]
  }

  /** Extends a match backwards, as far as the last emitted sequence and the history allow. */
  method CatchUp(c: Source, anchor: nat, ip0: nat, m0: nat) returns (ip: nat, m: nat)
    requires Candidate(c, ip0, m0) && anchor <= ip0
    ensures anchor <= ip <= ip0 && c.low <= m && RealMatch(c.text, ip, m, ip0 - ip + MINMATCH)
    ensures m0 == c.low ==> ip == ip0 && m == m0
    ensures OneBack(c, anchor, ip0, m0) ==> ip == ip0 - 1 && m == m0 - 1
  {
    ip, m := ip0, m0;
    while ip > anchor && m > c.low && c.text[ip - 1] == c.text[m - 1]
      invariant anchor <= ip <= ip0 && ip - m == ip0 - m0 && c.low <= m
      invariant RealMatch(c.text, ip, m, ip0 - ip + MINMATCH)
    {
      ip, m := ip - 1, m - 1;
    }
  }

  // ---------- output ----------

  /** The output so far is the encoding of parse `p`, which spells the input up to `anchor`. */
  ghost predicate Emitted(c: Source, dst: array<byte>, op: nat, p: Parse, anchor: nat)
    reads dst
  {
    && c.start <= anchor <= |c.text|
    && Has(dst, op, EncodeSeqs(p))
    && Builds(c.text, c.start, p, anchor) && Conforms(p, anchor, |c.text|)
  }

  /** Where writes may go: below `lim`. Either the output limit is in there, and what the guards let pass beyond it, or
      there is room for the worst case. */
  predicate Room(c: Source, limited: bool, olimit: nat, lim: nat)
    requires c.start <= |c.text|
  {
    (limited && olimit + Spill(c.Size(), c.low < c.start, olimit) <= lim) || Bound(c.Size()) <= lim
  }

  /** How far beyond the limit the writes for an input of `n` bytes, with history or not, may reach: not at all if all
      its match codes are guarded, or if a match saves its length. */
  function Spill(n: nat, history: bool, olimit: nat): nat {
    if n + (if history then 1 else 0) <= GUARDED_SIZE || SavesItsLength(n, olimit) then 0 else (n + 61185) / 65280
  }

  /** What the guard of the match length lets pass is below the limit and that. */
  lemma MatchSpill(n: nat, history: bool, a: nat, op: nat, length: nat, mcode: nat, olimit: nat)
    requires op <= Grown(a) && a + length + MINMATCH + mcode + LASTLITERALS <= n
    requires mcode <= n - MINMATCH - LASTLITERALS - if history then 0 else 1
    requires MatchGuard(op + 1 + LenCost(length) + length + 2, mcode) <= olimit
    ensures op + 1 + LenCost(length) + length + 2 + LenCost(mcode) + 3 <= olimit + Spill(n, history, olimit)
  {
    hide Grown, LenCost;
    var o := op + 1 + LenCost(length) + length + 2;
    GuardExact(o, mcode);
    if mcode <= GUARDED {
      GuardedCode(mcode);
    } else if SavesItsLength(n, olimit) {
      LongMatchFits(n, a, op, length, mcode, olimit);
    } else {
      LongLength(mcode);
      Quotients(mcode);
      MoreSpill(mcode, n);
    }
  }

  lemma LongLength(mcode: nat)
    requires GUARDED < mcode
    ensures LenCost(mcode) == (mcode - 15) / 255 + 1
  {
  }

  lemma MoreSpill(m: nat, n: nat)
    requires m <= n
    ensures (m + 61185) / 65280 <= (n + 61185) / 65280
  {
  }

  /** With a limit of one byte less than the input, as for the blocks of a frame, a match that is too long for its guard
      has itself saved the room that its length takes. */
  predicate SavesItsLength(n: int, olimit: nat) {
    n <= 0x40_0000 && n <= olimit + 1
  }

  lemma LongMatchFits(n: nat, a: nat, op: nat, length: nat, mcode: nat, olimit: nat)
    requires op <= Grown(a) && a + length + MINMATCH + mcode + LASTLITERALS <= n
    requires SavesItsLength(n, olimit) && GUARDED < mcode
    ensures op + 1 + LenCost(length) + length + 2 + LenCost(mcode) + 3 <= olimit
  {
    FloorSum(a, length);
  }

  lemma EmittedSize(c: Source, dst: array<byte>, op: nat, p: Parse, anchor: nat)
    requires Emitted(c, dst, op, p, anchor)
    ensures op <= Grown(anchor - c.start)
  {
    SeqsSizeBound(c.text, c.start, p, anchor);
  }

  /** With room for the worst case, the guard of the literals never fails... */
  lemma LiteralsFit(n: nat, a: nat, op: nat, length: nat)
    requires op <= Grown(a) && a + length + MFLIMIT <= n
    ensures LiteralGuard(op, length) <= Bound(n)
  {
    FloorSum(a, length);
  }

  /** ...and neither does that of the match length. */
  lemma MatchFits(n: nat, a: nat, op: nat, length: nat, mcode: nat)
    requires op <= Grown(a) && a + length + MINMATCH + mcode + LASTLITERALS <= n
    ensures op + 1 + LenCost(length) + length + 2 + LenCost(mcode) + 3 <= Bound(n)
    ensures MatchGuard(op + 1 + LenCost(length) + length + 2, mcode) <= Bound(n)
  {
    FloorSum(a, length);
  }

  /** Token and literals of the next sequence. After a match that is followed at once by another one, the token is
      written without a test. */
  method EmitLiterals(c: Source, dst: array<byte>, op: nat, anchor: nat, ip: nat, immediate: bool, limited: bool,
                      olimit: nat, ghost lim: nat, ghost p: Parse) returns (ok: bool, op': nat)
    requires Emitted(c, dst, op, p, anchor) && anchor <= ip && ip + MFLIMIT <= |c.text|
    requires Room(c, limited, olimit, lim) && lim <= dst.Length
    requires immediate ==> anchor == ip && (op + 3 <= lim)
    modifies dst
    ensures !ok ==> limited && olimit < Bound(c.Size())
    ensures ok ==> Has(dst, op', EncodeSeqs(p) + Half(c.text[anchor..ip]))
    ensures ok ==> op' == op + 1 + LenCost(ip - anchor) + (ip - anchor) && op' + 2 <= lim
    ensures !immediate ==> (ok <==> !limited || LiteralGuard(op, ip - anchor) <= olimit)
    ensures !ok ==> dst[..] == old(dst[..])
    ensures forall k :: lim <= k < dst.Length ==> dst[k] == old(dst[k])
  {
    ghost var e := EncodeSeqs(p);
    hide Grown, Bound, LiteralGuard, LenCost, LiteralRoom, Half, Builds, Conforms, EncodeSeqs;
    EmittedSize(c, dst, op, p, anchor);
    LiteralsFit(c.Size(), anchor - c.start, op, ip - anchor);
    if immediate {
      HalfEmpty(c.text[anchor..ip]);
      PutByte(dst, op, 0, e);
      return true, op + 1;
    }
    if limited && LiteralGuard(op, ip - anchor) > olimit {
      return false, op;
    }
    LiteralGuardSuffices(op, ip - anchor, lim);
    op' := PutLiterals(c.text, anchor, ip, dst, op, lim, e);
    ok := true;
  }

  lemma EncodeThen(p: Parse, s: Sequence)
    ensures EncodeSeqs(Then(p, s)) == EncodeSeqs(p) + EncodeSeq(s)
  {
  }

  /** The match itself: LZ4_count, then offset and length. */
  method EmitMatch(c: Source, dst: array<byte>, token: nat, op: nat, anchor: nat, ip: nat, m: nat, limited: bool,
                   olimit: nat, ghost lim: nat, ghost p: Parse)
    returns (ok: bool, op': nat, ip': nat, ghost p': Parse)
    requires c.Valid() && c.start <= anchor <= ip && ip + MFLIMIT <= |c.text| && Candidate(c, ip, m)
    requires token == |EncodeSeqs(p)| && token <= Grown(anchor - c.start)
    requires Builds(c.text, c.start, p, anchor) && Conforms(p, anchor, |c.text|)
    requires Has(dst, op, EncodeSeqs(p) + Half(c.text[anchor..ip]))
    requires op == token + 1 + LenCost(ip - anchor) + (ip - anchor)
    requires Room(c, limited, olimit, lim) && op + 2 <= lim <= dst.Length
    modifies dst
    ensures !ok ==> limited && olimit < Bound(c.Size())
    ensures ip' == ip + MINMATCH + CommonLen(c.text, m + MINMATCH, ip + MINMATCH, |c.text| - LASTLITERALS)
    ensures ok ==> Emitted(c, dst, op', p', ip') && op' + 3 <= lim
    ensures var mcode := ip' - ip - MINMATCH;
            && (ok <==> !limited || MatchGuard(op + 2, mcode) <= olimit)
            && (ok ==> op' == op + 2 + LenCost(mcode))
            && (ok ==> Spilled(dst, op', op + 2, mcode))
    ensures forall k :: lim <= k < dst.Length ==> dst[k] == old(dst[k])
  {
    hide Grown, Bound, LenCost, Spilled, Half, Builds, Conforms, EncodeSeqs, EncodeSeq, CommonLen, MatchGuard, Agree,
         Spill;
    var matchCode := Count(c.text, ip + MINMATCH, m + MINMATCH, |c.text| - LASTLITERALS);
    ip' := ip + MINMATCH + matchCode;
    ExtendMatch(c.text, ip, m, 0, |c.text| - LASTLITERALS);
    Append(c.text, c.start, p, anchor, ip, m, MINMATCH + matchCode);
    p' := Then(p, Sequence(c.text[anchor..ip], ip - m, MINMATCH + matchCode));
    EncodeThen(p, p'.last);
    MatchFits(c.Size(), anchor - c.start, token, ip - anchor, matchCode);
    if limited && MatchGuard(op + 2, matchCode) <= olimit {
      MatchSpill(c.Size(), c.low < c.start, anchor - c.start, token, ip - anchor, matchCode, olimit);
    }
    ok, op' := PutMatch(dst, token, op, limited, olimit, lim, EncodeSeqs(p), ip - m, matchCode, c.text[anchor..ip]);
  }

  /** The last run of literals. */
  method EmitLast(c: Source, dst: array<byte>, op: nat, anchor: nat, limited: bool, olimit: nat, ghost lim: nat,
                  ghost p: Parse) returns (n: nat)
    requires Emitted(c, dst, op, p, anchor)
    requires Room(c, limited, olimit, lim) && lim <= dst.Length
    modifies dst
    ensures n == 0 ==> limited && olimit < Bound(c.Size())
    ensures n > 0 ==> Has(dst, n, Block(p, c.text, anchor)) && n <= Bound(c.Size()) && (limited ==> n <= olimit)
    ensures n == 0 ==> dst[..] == old(dst[..])
    ensures var need := op + 1 + LenCost(|c.text| - anchor) + |c.text| - anchor;
            n == if limited && need > olimit then 0 else need
    ensures forall k :: lim <= k < dst.Length ==> dst[k] == old(dst[k])
  {
    var lastRun := |c.text| - anchor;
    BlockSizeBound(p, c.text, c.start, anchor);
    EncodeLastSize(c.text[anchor..]);
    LastGuard(lastRun);
    ghost var e := EncodeSeqs(p);
    assert Block(p, c.text, anchor) == e + EncodeLast(c.text[anchor..]);
    var need := op + lastRun + 1 + (lastRun + 255 - RUN_MASK) / 255;
    hide Bound, LenCost, EncodeLast, EncodeSeqs, Block, Builds, Conforms;
    if limited && need > olimit {
      return 0;
    }
    n := PutLast(c.text, anchor, dst, op, e);
  }

  lemma LastGuard(n: nat)
    ensures (n + 255 - RUN_MASK) / 255 == LenCost(n)
  {
  }

  // ---------- the main loop ----------

  /** A backed-up match reaches at least as far as the four bytes it was found by. */
  lemma CatchUpReaches(text: seq<byte>, ip: nat, m: nat, back: nat, limit: nat)
    requires RealMatch(text, ip, m, back + MINMATCH) && ip + MINMATCH + back <= limit <= |text|
    ensures back <= CommonLen(text, m + MINMATCH, ip + MINMATCH, limit)
    ensures RealMatch(text, ip, m, MINMATCH)
  {
    assert Agree(text, m + MINMATCH, ip + MINMATCH, back) by {
      ShortenMatch(text, ip, m, back + MINMATCH, MINMATCH, back);
    }
    CommonLenAgree(text, m + MINMATCH, ip + MINMATCH, limit, back);
  }

  /** What the first candidate leads to, when it is known how far it can be extended backwards: whether both guards
      pass, and where the sequence ends. */
  ghost predicate Foreseen(c: Source, dst: array<byte>, op: nat, anchor: nat, ip0: nat, m: nat, limited: bool,
                           olimit: nat, ok: bool, op': nat, ip: nat)
    requires anchor <= ip0 && m < ip0 && ip0 + MFLIMIT <= |c.text|
    reads dst
  {
    var o := op + 1 + LenCost(ip0 - anchor) + (ip0 - anchor) + 2;
    var mcode := CommonLen(c.text, m + MINMATCH, ip0 + MINMATCH, |c.text| - LASTLITERALS);
    && (ok <==> !limited || (LiteralGuard(op, ip0 - anchor) <= olimit && MatchGuard(o, mcode) <= olimit))
    && (ok ==> ip == ip0 + MINMATCH + mcode && op' == o + LenCost(mcode) && Spilled(dst, op', o, mcode))
  }

  lemma NoRoomForLiterals(op: nat, length: nat, olimit: nat)
    requires op + 9 > olimit
    ensures LiteralGuard(op, length) > olimit
  {
  }

  /** The search of the main loop, and the extension backwards from `tail`. */
  method FindBackwards(c: Source, table: array<nat>, anchor: nat, ip0: nat, acceleration: nat, ghost q: nat,
                       ghost hit: nat)
    returns (found: bool, ip: nat, m: int, tail: nat)
    requires c.Valid() && c.start < ip0 <= |c.text| && 1 <= acceleration && TableInv(c, table, ip0) && anchor <= ip0
    modifies table
    ensures TableInv(c, table, |c.text|)
    ensures found ==>
              && anchor <= ip <= tail && ip0 <= tail && tail + MFLIMIT < |c.text| && TableInv(c, table, tail + 1)
                      && c.low <= m && RealMatch(c.text, ip, m, tail - ip + MINMATCH)
    ensures FirstHitAt(c, old(table[..]), ip0, acceleration, q, hit) ==>
              && (hit == c.low ==> found && ip == q && m == hit)
              && (OneBack(c, anchor, q, hit) ==> found && ip == q - 1 && m == hit - 1)
    ensures Matchless(c.text) ==> !found
  {
    hide Agree, Matchless, FirstHit, Probe, Latest;
    found, tail, m := FindMatch(c, table, ip0, acceleration);
    ip := tail;
    if found {
      NotMatchless(c, tail, m);
      ip, m := CatchUp(c, anchor, tail, m);
    }
  }

  /** Between two sequences: the next match is already known, or must be searched from `ip` on. */
  ghost predicate Ready(c: Source, table: array<nat>, dst: array<byte>, op: nat, anchor: nat, ip: nat, m: int,
                        immediate: bool, lim: nat, p: Parse)
    reads table, dst
  {
    && table.Length > 0 && Emitted(c, dst, op, p, anchor) && anchor <= ip
    && if immediate then
         && anchor == ip && op + 3 <= lim && ip + MFLIMIT <= |c.text| && Candidate(c, ip, m)
         && TableInv(c, table, ip + 1)
       else
         c.start < ip <= |c.text| && TableInv(c, table, ip)
  }

  lemma GetReady(c: Source, table: array<nat>, dst: array<byte>, op: nat, anchor: nat, ip: nat, m: int,
                 immediate: bool, lim: nat, p: Parse)
    requires Emitted(c, dst, op, p, anchor) && anchor + MFLIMIT <= |c.text| && c.start < ip
    requires if immediate then ip == anchor && op + 3 <= lim && Candidate(c, ip, m) && TableInv(c, table, ip + 1)
             else anchor <= ip <= anchor + 1 && TableInv(c, table, ip)
    ensures Ready(c, table, dst, op, anchor, ip, m, immediate, lim, p)
  {
    hide Emitted, Candidate;
  }

  /** Finds and emits one sequence: `found` says if there was a match, `ok` if the output was large enough. */
  method NextSequence(c: Source, table: array<nat>, dst: array<byte>, op: nat, anchor: nat, ip0: nat, m0: int,
                      immediate: bool, acceleration: nat, limited: bool, olimit: nat, ghost lim: nat, ghost p: Parse,
                      ghost q: nat, ghost hit: nat)
    returns (found: bool, ok: bool, op': nat, ip: nat, ghost p': Parse)
    requires c.Valid() && 1 <= acceleration && Ready(c, table, dst, op, anchor, ip0, m0, immediate, lim, p)
    requires Room(c, limited, olimit, lim) && lim <= dst.Length
    modifies table, dst
    ensures TableInv(c, table, |c.text|)
    ensures found && !ok ==> limited && olimit < Bound(c.Size())
    ensures !found ==> op' == op && p' == p && Emitted(c, dst, op, p, anchor)
    ensures found && ok ==> Emitted(c, dst, op', p', ip) && op' + 3 <= lim && ip0 + MINMATCH <= ip
                            && TableInv(c, table, ip)
    ensures !immediate && FirstHitAt(c, old(table[..]), ip0, acceleration, q, hit) ==>
              && (hit == c.low ==> found && Foreseen(c, dst, op, anchor, q, hit, limited, olimit, ok, op', ip))
              && (OneBack(c, anchor, q, hit) ==>
                    found && Foreseen(c, dst, op, anchor, q - 1, hit - 1, limited, olimit, ok, op', ip))
    ensures !immediate && limited && op + 9 > olimit ==> (found ==> !ok) && dst[..] == old(dst[..])
    ensures !immediate && Matchless(c.text) ==> !found
    ensures forall k :: lim <= k < dst.Length ==> dst[k] == old(dst[k])
  {
    hide Grown, Bound, Half, Builds, Conforms, EncodeSeqs, CommonLen, Agree, LenCost, LiteralGuard, MatchGuard, Spilled,
         Matchless, FirstHitAt;
    HitInside(c, table[..], ip0, acceleration, q, hit);
    var m := m0;
    found, ok, op', ip, p' := true, true, op, ip0, p;
    var tail := ip0;
    if !immediate {
      found, ip, m, tail := FindBackwards(c, table, anchor, ip0, acceleration, q, hit);
      if !found {
        return;
      }
    }
    CatchUpReaches(c.text, ip, m, tail - ip, |c.text| - LASTLITERALS);
    EmittedSize(c, dst, op, p, anchor);
    var o;
    if op + 9 > olimit {
      NoRoomForLiterals(op, ip - anchor, olimit);
    }
    ok, o := EmitLiterals(c, dst, op, anchor, ip, immediate, limited, olimit, lim, p);
    if ok {
      ok, op', ip, p' := EmitMatch(c, dst, op, o, anchor, ip, m, limited, olimit, lim, p);
    }
  }

  lemma HitInside(c: Source, t: seq<nat>, ip0: nat, acceleration: nat, q: nat, hit: nat)
    requires 0 < |t|
    ensures FirstHitAt(c, t, ip0, acceleration, q, hit) ==> ip0 <= q && q + MFLIMIT < |c.text| && hit < q
  {
    hide FirstHit, Probe, Latest;
  }

  lemma NotMatchless(c: Source, ip: nat, m: int)
    requires Candidate(c, ip, m) && ip + MFLIMIT < |c.text|
    ensures !Matchless(c.text)
  {
  }

  /** After a match: two table updates, and the test of the very next position. */
  method NextPosition(c: Source, table: array<nat>, ip: nat) returns (immediate: bool, ip': nat, m: int)
    requires c.Valid() && c.start + 2 < ip && ip + MFLIMIT <= |c.text| && TableInv(c, table, ip)
    modifies table
    ensures if immediate then ip' == ip && Candidate(c, ip, m) && TableInv(c, table, ip + 1)
            else ip' == ip + 1 && TableInv(c, table, ip + 1)
    ensures TableInv(c, table, |c.text|)
    ensures var h := c.hash(ip) % table.Length;
            var entry := if c.hash(ip - 2) % table.Length == h then ip - 2 else c.base + old(table[h]);
            && (immediate <==> Candidate(c, ip, entry)) && (immediate ==> m == entry < ip)
            && c.base + table[h] == ip
  {
    PutPosition(c, table, ip - 2, ip);
    m := c.base + table[c.hash(ip) % table.Length];
    PutPosition(c, table, ip, ip + 1);
    immediate := Accept(c, ip, m, true);
    ip' := if immediate then ip else ip + 1;
  }

  // ---------- beyond the guards ----------

  /** Equal bytes, as many as make a match code of GUARDED + 1 behind `lead` literals, and others after them. */
  function Overlong(n: nat, lead: nat): (block: seq<byte>)
    ensures |block| == n
  {
    seq(n, i => if i < lead + MINMATCH + GUARDED + 1 then 0 else 1)
  }

  /** Literals before the first match: a match begins with the first byte only if there is history. */
  function Lead(history: bool): nat {
    if history then 0 else 1
  }

  /** The limit at which the guard for that match code just passes. */
  function SpillLimit(history: bool): nat {
    534 + Lead(history)
  }

  /** An input that is too long for its guard, and consists of that run and other bytes; history, if there is any, ends
      with the same byte. The first two positions have the same hash, as they have the same bytes. */
  predicate Overlarge(text: seq<byte>, start: nat, history: bool) {
    && start <= |text| && GUARDED_SIZE < |text| - start + (if history then 1 else 0)
    && text[start..] == Overlong(|text| - start, Lead(history)) && (history ==> 0 < start && text[start - 1] == 0)
  }

  predicate Overruns(c: Source, slots: nat, limited: bool, olimit: nat)
    requires 0 < slots
  {
    && limited && olimit == SpillLimit(c.low < c.start) && Overlarge(c.text, c.start, c.low < c.start)
    && c.hash(c.start) % slots == c.hash(c.start + 1) % slots
  }

  lemma OverlargeBytes(text: seq<byte>, start: nat, history: bool)
    requires Overlarge(text, start, history)
    ensures forall i :: start <= i < |text| ==>
              text[i] == if i < start + Lead(history) + MINMATCH + GUARDED + 1 then 0 else 1
  {
    forall i | start <= i < |text|
      ensures text[i] == if i < start + Lead(history) + MINMATCH + GUARDED + 1 then 0 else 1
    {
      assert text[i] == text[start..][i - start];
    }
  }

  /** The first candidate is one byte back, and so is the match, with that code; both guards pass; the length bytes end
      before the limit, and the last four bytes that were written for them behind it. */
  lemma FirstOverrun(c: Source, slots: nat, limited: bool, olimit: nat)
    requires 0 < slots && c.Valid() && Overruns(c, slots, limited, olimit)
    ensures c.start + 1 + MFLIMIT < |c.text| && Candidate(c, c.start + 1, c.start)
    ensures c.low < c.start ==> OneBack(c, c.start, c.start + 1, c.start)
    ensures var lead := Lead(c.low < c.start);
            var ip := c.start + lead;
            && 0 < ip && CommonLen(c.text, ip - 1 + MINMATCH, ip + MINMATCH, |c.text| - LASTLITERALS) == GUARDED + 1
            && LiteralGuard(0, lead) <= olimit && MatchGuard(3 + lead, GUARDED + 1) <= olimit && LenCost(lead) == 0
            && 3 + lead + LenCost(GUARDED + 1) == olimit - 2 && 3 + lead + FillEnd(GUARDED + 1) == olimit + 1
            && GUARDED + 1 >= ML_MASK
  {
    hide Overlong;
    var t, limit, ip := c.text, |c.text| - LASTLITERALS, c.start + Lead(c.low < c.start);
    OverlargeBytes(c.text, c.start, c.low < c.start);
    assert Agree(t, ip - 1 + MINMATCH, ip + MINMATCH, GUARDED + 1);
    CommonLenAgree(t, ip - 1 + MINMATCH, ip + MINMATCH, limit, GUARDED + 1);
    var m, p := ip - 1 + MINMATCH + GUARDED + 1, ip + MINMATCH + GUARDED + 1;
    assert p == limit || t[p] != t[m];
  }

  lemma FirstIsHit(c: Source, t: seq<nat>, ip0: nat, acceleration: nat, m: nat)
    requires 0 < |t| && 1 <= acceleration && ip0 + MFLIMIT < |c.text|
    requires c.base + t[c.hash(ip0) % |t|] == m && Candidate(c, ip0, m)
    ensures FirstHitAt(c, t, ip0, acceleration, ip0, m)
  {
    hide Candidate;
    assert Probe(ip0, acceleration, 0) == ip0 && Probe(ip0, acceleration, 1) == ip0 + 1;
    assert FirstHit(c, t, ip0, acceleration, 0);
  }

  /** Where the run ends, no match starts. */
  lemma NoneAfterRun(c: Source, slots: nat, limited: bool, olimit: nat, m: int)
    requires 0 < slots && Overruns(c, slots, limited, olimit)
    ensures !Candidate(c, c.start + Lead(c.low < c.start) + MINMATCH + GUARDED + 1, m)
  {
    hide Overlong;
    OverlargeBytes(c.text, c.start, c.low < c.start);
    SameFirst(c, c.start + Lead(c.low < c.start) + MINMATCH + GUARDED + 1, m);
  }

  lemma SameFirst(c: Source, ip: nat, m: int)
    ensures Candidate(c, ip, m) ==> c.text[m] == c.text[ip]
  {
    if Candidate(c, ip, m) {
      assert c.text[m + 0] == c.text[ip + 0];
    }
  }

  lemma EmittedStart(c: Source, dst: array<byte>)
    requires c.Valid()
    ensures Emitted(c, dst, 0, Start, c.start)
  {
    assert dst[..0] == [];
  }

  /** Where the first sequence ends, and what was written behind it. */
  lemma RunForeseen(c: Source, slots: nat, dst: array<byte>, limited: bool, olimit: nat, ok: bool, op: nat, ip: nat)
    requires 0 < slots && c.Valid() && Overruns(c, slots, limited, olimit) && olimit < dst.Length
    requires var q := c.start + Lead(c.low < c.start);
             && 0 < q && q + MFLIMIT <= |c.text|
             && Foreseen(c, dst, 0, c.start, q, q - 1, limited, olimit, ok, op, ip)
    ensures ok && op == olimit - 2 && dst[olimit] == 255
    ensures ip == c.start + Lead(c.low < c.start) + MINMATCH + GUARDED + 1 && ip + LASTLITERALS <= |c.text|
  {
    hide Overlarge, CommonLen, LiteralGuard, MatchGuard, LenCost, FillEnd;
    FirstOverrun(c, slots, limited, olimit);
  }

  lemma OverrunFacts(c: Source, slots: nat, limited: bool, olimit: nat)
    requires 0 < slots && Overruns(c, slots, limited, olimit)
    ensures limited && olimit == SpillLimit(c.low < c.start) && c.hash(c.start) % slots == c.hash(c.start + 1) % slots
    ensures GUARDED_SIZE <= |c.text| - c.start && (c.Valid() ==> c.low <= c.start)
  {
  }

  // ---------- repeated text ----------

  /** An input without history that repeats a first part in which nothing repeats. The repetition begins at a position
      that the search tries, and nothing that is tried before takes the slot of the first position. */
  ghost predicate Repeating(c: Source, slots: nat, acceleration: nat, k: nat)
    requires 0 < slots
  {
    var ip0 := c.start + 1;
    var p := Probe(ip0, acceleration, k);
    && c.low == c.start && Probe(ip0, acceleration, k + 1) + MFLIMIT <= |c.text|
    && c.start < p <= |c.text| && p - c.start <= MAX_DISTANCE && Repeats(c.text, p, |c.text|, p - c.start)
    && (forall ip: nat, m: nat :: c.start <= m && ip < p ==> !RealMatch(c.text, ip, m, MINMATCH))
    && c.hash(p) % slots == c.hash(c.start) % slots
    && forall j: nat :: j < k ==> c.hash(Probe(ip0, acceleration, j)) % slots != c.hash(c.start) % slots
  }

  lemma {:induction false} SlotKept(c: Source, t: seq<nat>, acceleration: nat, k: nat, n: nat)
    requires 0 < |t| && Repeating(c, |t|, acceleration, k) && n <= k
    ensures Latest(c, t, c.start + 1, acceleration, n, c.hash(c.start) % |t|) == c.base + t[c.hash(c.start) % |t|]
  {
    hide Probe;
    if n > 0 {
      SlotKept(c, t, acceleration, k, n - 1);
    }
  }

  lemma RepetitionReal(c: Source, slots: nat, acceleration: nat, k: nat)
    requires 0 < slots && 1 <= acceleration && Repeating(c, slots, acceleration, k)
    ensures RealMatch(c.text, Probe(c.start + 1, acceleration, k), c.start, MINMATCH)
  {
    hide Probe;
    ProbesAscend(c.start + 1, acceleration, k, k + 1);
  }

  /** The repetition is the first hit of the first search. */
  lemma RepetitionHit(c: Source, t: seq<nat>, acceleration: nat, k: nat)
    requires 0 < |t| && 1 <= acceleration && Repeating(c, |t|, acceleration, k)
    requires c.base + t[c.hash(c.start) % |t|] == c.start
    ensures FirstHitAt(c, t, c.start + 1, acceleration, Probe(c.start + 1, acceleration, k), c.start)
  {
    hide Probe, Latest;
    SlotKept(c, t, acceleration, k, k);
    var ip0 := c.start + 1;
    ProbesAscend(ip0, acceleration, k, k + 1);
    RepetitionReal(c, |t|, acceleration, k);
    forall j: nat | j < k
      ensures !Hit(c, t, ip0, acceleration, j)
    {
      ProbesAscend(ip0, acceleration, j, k);
    }
    assert FirstHit(c, t, ip0, acceleration, k);
  }

  /** A match at the second position can only be the repetition. */
  lemma RepetitionFirst(c: Source, slots: nat, acceleration: nat, k: nat)
    requires 0 < slots && 1 <= acceleration && Repeating(c, slots, acceleration, k)
    ensures Candidate(c, c.start + 1, c.start) ==> Probe(c.start + 1, acceleration, k) == c.start + 1
  {
    hide Probe;
    ProbesAscend(c.start + 1, acceleration, 0, k);
  }

  /** The match goes on to where the last literals must begin. */
  lemma RepetitionLength(c: Source, slots: nat, acceleration: nat, k: nat)
    requires 0 < slots && 1 <= acceleration && Repeating(c, slots, acceleration, k)
    ensures var p := Probe(c.start + 1, acceleration, k);
            && c.low == c.start < p && p + MFLIMIT < |c.text|
            && CommonLen(c.text, c.start + MINMATCH, p + MINMATCH, |c.text| - LASTLITERALS)
               == |c.text| - LASTLITERALS - p - MINMATCH
  {
    hide Probe, CommonLen;
    ProbesAscend(c.start + 1, acceleration, k, k + 1);
    var p, limit := Probe(c.start + 1, acceleration, k), |c.text| - LASTLITERALS;
    assert Agree(c.text, c.start + MINMATCH, p + MINMATCH, limit - p - MINMATCH);
    CommonLenAgree(c.text, c.start + MINMATCH, p + MINMATCH, limit, limit - p - MINMATCH);
  }

  lemma NoLaterRepetition(c: Source, slots: nat, acceleration: nat, j: nat, k: nat)
    requires 0 < slots && 1 <= acceleration && Repeating(c, slots, acceleration, j) && j < k
    ensures !Repeating(c, slots, acceleration, k)
  {
    hide Probe;
    RepetitionReal(c, slots, acceleration, j);
    ProbesAscend(c.start + 1, acceleration, j, k);
  }

  /** The block of an input of `n` bytes that repeats its first `d`: those as literals, one match, the last literals. */
  function RepeatedSize(n: nat, d: nat): nat
    requires d + 9 <= n
  {
    MatchAt(d) + LenCost(n - d - 9) + 1 + LASTLITERALS
  }

  /** Where the length bytes of the match are written. */
  function MatchAt(d: nat): nat {
    1 + LenCost(d) + d + 2
  }

  /** Both guards pass, and the last literals fit. */
  predicate RepeatedFits(n: nat, d: nat, olimit: nat)
    requires d + 9 <= n
  {
    && LiteralGuard(0, d) <= olimit && MatchGuard(MatchAt(d), n - d - 9) <= olimit && RepeatedSize(n, d) <= olimit
  }

  /** One sequence with all that repeats, if both guards pass. */
  predicate OneMatch(c: Source, acceleration: nat, k: nat, limited: bool, olimit: nat, ok: bool, op: nat, anchor: nat)
  {
    var n, d := |c.text| - c.start, Probe(c.start + 1, acceleration, k) - c.start;
    && 0 < d && d + MFLIMIT < n
    && (ok <==> !limited || (LiteralGuard(0, d) <= olimit && MatchGuard(MatchAt(d), n - d - 9) <= olimit))
    && (ok ==> op == MatchAt(d) + LenCost(n - d - 9) && anchor == |c.text| - LASTLITERALS)
  }

  lemma RepetitionForeseen(c: Source, slots: nat, acceleration: nat, k: nat, dst: array<byte>, limited: bool,
                           olimit: nat, ok: bool, op: nat, ip: nat)
    requires 0 < slots && 1 <= acceleration && Repeating(c, slots, acceleration, k)
    requires var p := Probe(c.start + 1, acceleration, k);
             && c.start < p && p + MFLIMIT <= |c.text|
             && Foreseen(c, dst, 0, c.start, p, c.start, limited, olimit, ok, op, ip)
    ensures OneMatch(c, acceleration, k, limited, olimit, ok, if ok then op else 0, if ok then ip else c.start)
    ensures ok ==> ip + MFLIMIT > |c.text|
  {
    hide Probe, Repeating, CommonLen, LenCost, LiteralGuard, MatchGuard, Spilled;
    RepetitionLength(c, slots, acceleration, k);
  }

  /** The sequences of a block, until no match is left or the output is full. */
  method CompressSequences(c: Source, table: array<nat>, dst: array<byte>, acceleration: nat, limited: bool,
                           olimit: nat, ghost lim: nat, ghost k: nat)
    returns (ok: bool, op: nat, anchor: nat, ghost p: Parse)
    requires c.Valid() && c.Size() > MFLIMIT && TableInv(c, table, c.start + 1) && 1 <= acceleration
    requires Room(c, limited, olimit, lim) && lim <= dst.Length
    modifies table, dst
    ensures TableInv(c, table, |c.text|)
    ensures !ok ==> limited && olimit < Bound(c.Size())
    ensures ok ==> Emitted(c, dst, op, p, anchor)
    ensures Matchless(c.text) ==> ok && op == 0 && anchor == c.start
    ensures Overruns(c, table.Length, limited, olimit) && olimit < dst.Length ==>
              dst[olimit] == 255 && (ok ==> op == olimit - 2 && anchor + LASTLITERALS <= |c.text|)
    ensures Repeating(c, table.Length, acceleration, k) ==>
              OneMatch(c, acceleration, k, limited, olimit, ok, op, anchor)
    ensures forall k :: lim <= k < dst.Length ==> dst[k] == old(dst[k])
  {
    hide Grown, Bound, Has, Builds, Conforms, EncodeSeqs, Candidate, CommonLen, LenCost, LiteralGuard, MatchGuard,
         FillEnd, Overruns, Emitted, Matchless, FirstHitAt, Probe, Repeating, OneMatch, MatchAt, Foreseen, Overlarge,
         Room, OneBack, Spill, TableInv, Source.Valid,
         Ready;
    EntriesBefore(c, table, c.start + 1, |c.text|);
    ghost var overruns := Overruns(c, table.Length, limited, olimit) && olimit < dst.Length;
    if overruns {
      OverrunFacts(c, table.Length, limited, olimit);
      FirstOverrun(c, table.Length, limited, olimit);
    }
    ghost var repeats := Repeating(c, table.Length, acceleration, k);
    ghost var at := if overruns then c.start + 1 else Probe(c.start + 1, acceleration, k);
    if repeats {
      RepetitionLength(c, table.Length, acceleration, k);
      RepetitionFirst(c, table.Length, acceleration, k);
    }
    EmittedStart(c, dst);
    var ip, m, immediate := c.start + 1, 0, false;
    op, anchor, p := 0, c.start, Start;
    PutPosition(c, table, c.start, c.start + 1);
    EntriesBefore(c, table, c.start + 1, |c.text|);
    GetReady(c, table, dst, op, anchor, ip, m, immediate, lim, p);
    ghost var first := true;
    while true
      invariant Ready(c, table, dst, op, anchor, ip, m, immediate, lim, p) && ip <= |c.text|
      invariant TableInv(c, table, |c.text|)
      invariant first ==> && !immediate && op == 0 && anchor == c.start && ip == c.start + 1
                          && c.base + table[c.hash(c.start) % table.Length] == c.start
      invariant Matchless(c.text) || repeats ==> first
      invariant overruns && !first ==> && !immediate && op == olimit - 2 && dst[olimit] == 255
                                       && anchor + LASTLITERALS <= |c.text|
      invariant forall k :: lim <= k < dst.Length ==> dst[k] == old(dst[k])
      decreases |c.text| - ip
    {
      if overruns && first {
        FirstIsHit(c, table[..], ip, acceleration, c.start);
      }
      if repeats {
        RepetitionHit(c, table[..], acceleration, k);
      }
      var found, op', ip';
      found, ok, op', ip', p := NextSequence(c, table, dst, op, anchor, ip, m, immediate, acceleration, limited, olimit,
                                             lim, p, at, c.start);
      if overruns && first {
        RunForeseen(c, table.Length, dst, limited, olimit, ok, op', ip');
      }
      if repeats {
        RepetitionForeseen(c, table.Length, acceleration, k, dst, limited, olimit, ok, op', ip');
      }
      if !found {
        return true, op, anchor, p;
      }
      if !ok {
        return false, op, anchor, p;
      }
      op, anchor, ip := op', ip', ip';
      first := false;
      if ip + MFLIMIT > |c.text| {
        return true, op, anchor, p;
      }
      immediate, ip, m := NextPosition(c, table, ip);
      GetReady(c, table, dst, op, anchor, ip, m, immediate, lim, p);
      if overruns {
        NoneAfterRun(c, table.Length, limited, olimit, m);
      }
    }
  }

  lemma RepeatedResult(c: Source, acceleration: nat, k: nat, limited: bool, olimit: nat, ok: bool, op: nat,
                       anchor: nat, n: nat)
    requires c.start <= |c.text| && OneMatch(c, acceleration, k, limited, olimit, ok, op, anchor)
    requires !ok ==> n == 0
    requires ok ==> anchor <= |c.text| &&
                    var need := op + 1 + LenCost(|c.text| - anchor) + |c.text| - anchor;
                    n == if limited && need > olimit then 0 else need
    ensures var d := Probe(c.start + 1, acceleration, k) - c.start;
            && 0 < d && d + MFLIMIT < c.Size()
            && n == if limited && !RepeatedFits(c.Size(), d, olimit) then 0 else RepeatedSize(c.Size(), d)
  {
    hide Probe, LiteralGuard, MatchGuard, MatchAt;
  }

  lemma TheRepetition(c: Source, slots: nat, acceleration: nat) returns (k: nat)
    requires 0 < slots && 1 <= acceleration
    ensures forall j: nat :: Repeating(c, slots, acceleration, j) ==> j == k && c.Size() > MFLIMIT
  {
    hide Repeating, Probe;
    k := 0;
    if j: nat :| Repeating(c, slots, acceleration, j) {
      k := j;
      RepetitionLength(c, slots, acceleration, k);
      forall i: nat | Repeating(c, slots, acceleration, i)
        ensures i == k
      {
        if i < k {
          NoLaterRepetition(c, slots, acceleration, i, k);
        } else if k < i {
          NoLaterRepetition(c, slots, acceleration, k, i);
        }
      }
    }
  }

  /** LZ4_compress_generic. `olimit` counts only when `limited`; `lim` bounds what is written. */
  method CompressGeneric(c: Source, table: array<nat>, dst: array<byte>, acceleration: nat, limited: bool, olimit: nat,
                         ghost lim: nat) returns (n: nat)
    requires c.Valid() && TableInv(c, table, c.start + 1) && 1 <= acceleration
    requires Room(c, limited, olimit, lim) && lim <= dst.Length
    modifies table, dst
    ensures TableInv(c, table, |c.text| + 1)
    ensures n == 0 ==> limited && olimit < Bound(c.Size())
    ensures n > 0 ==> n <= Bound(c.Size()) && (limited ==> n <= olimit) && n <= dst.Length
    ensures n > 0 ==> DecodesTo(dst[..n], c.text[..c.start], c.text)
    ensures Matchless(c.text) && limited && olimit <= c.Size() ==> n == 0
    ensures Overruns(c, table.Length, limited, olimit) && olimit < dst.Length ==> n == 0 && dst[olimit] == 255
    ensures forall k: nat :: Repeating(c, table.Length, acceleration, k) ==>
              var d := Probe(c.start + 1, acceleration, k) - c.start;
              && 0 < d && d + MFLIMIT < c.Size()
              && n == if limited && !RepeatedFits(c.Size(), d, olimit) then 0 else RepeatedSize(c.Size(), d)
    ensures forall k :: lim <= k < dst.Length ==> dst[k] == old(dst[k])
  {
    hide Grown, Bound, DecodesTo, Builds, Conforms, EncodeSeqs, Block, Overruns, Matchless, Repeating, Probe, LenCost,
         RepeatedFits, RepeatedSize, OneMatch;
    if Overruns(c, table.Length, limited, olimit) {
      OverrunFacts(c, table.Length, limited, olimit);
    }
    EmittedStart(c, dst);
    var ok, op, anchor := true, 0, c.start;
    ghost var p := Start;
    ghost var k := TheRepetition(c, table.Length, acceleration);
    if c.Size() >= MFLIMIT + 1 {
      ok, op, anchor, p := CompressSequences(c, table, dst, acceleration, limited, olimit, lim, k);
      if !ok {
        if Repeating(c, table.Length, acceleration, k) {
          RepeatedResult(c, acceleration, k, limited, olimit, ok, op, anchor, 0);
        }
        return 0;
      }
    }
    n := EmitLast(c, dst, op, anchor, limited, olimit, lim, p);
    if Repeating(c, table.Length, acceleration, k) {
      RepeatedResult(c, acceleration, k, limited, olimit, ok, op, anchor, n);
    }
    ParseDecodes(c.text, c.start, p, anchor);
  }
}
