/** What the parsers of LZ4 HC hold and write: matches, LZ4HC_encodeSequence with its guards, the last literals. */
module Lz4HcEmit {
  import opened Bytes
  import opened Lz4Format
  import opened Lz4RoundTrip
  import opened Lz4Emit
  import opened Lz4Match
  import Fast = Lz4Fast

  /** A match the parser holds: start2, ref2 and ml2, say. */
  datatype Match = Match(start: nat, ref: nat, len: nat)
  {
    function End(): nat { start + len }

    /** The match without its first `n` bytes. */
    function Drop(n: nat): Match
      requires n <= len
    {
      Match(start + n, ref + n, len - n)
    }
  }

  /** A match that may be encoded as it is. */
  predicate Usable(text: seq<byte>, m: Match) {
    && RealMatch(text, m.start, m.ref, m.len) && MINMATCH <= m.len
    && m.start + MFLIMIT < |text| && m.End() + LASTLITERALS <= |text|
  }

  lemma DropUsable(text: seq<byte>, m: Match, n: nat)
    requires Usable(text, m) && n + MINMATCH <= m.len && m.start + n + MFLIMIT < |text|
    ensures Usable(text, m.Drop(n))
  {
    ShortenMatch(text, m.start, m.ref, m.len, n, m.len - n);
  }

  lemma CutUsable(text: seq<byte>, m: Match, len: nat)
    requires Usable(text, m) && MINMATCH <= len <= m.len
    ensures Usable(text, m.(len := len))
  {
    ShortenMatch(text, m.start, m.ref, m.len, 0, len);
  }

  lemma UsableFacts(text: seq<byte>, m: Match)
    ensures Usable(text, m) ==> MINMATCH <= m.len && m.start + MFLIMIT < |text| && m.End() + LASTLITERALS <= |text|
  {
  }

  // ---------- output ----------

  ghost predicate Emitted(text: seq<byte>, dst: array<byte>, op: nat, p: Parse, anchor: nat)
    reads dst
  {
    && anchor <= |text| && Has(dst, op, EncodeSeqs(p))
    && Builds(text, 0, p, anchor) && Conforms(p, anchor, |text|)
  }

  // ---------- the guards ----------

  /** The output limit, if it is to be tested. */
  datatype Limit = Limit(limited: bool, olimit: nat)
  {
    predicate Allows(end: nat) { !limited || end <= olimit }
  }

  /** What the guard before the literals asks for. */
  function LiteralsGuard(op: nat, length: nat): nat {
    op + 1 + length / 256 + length + (2 + 1 + LASTLITERALS)
  }

  /** How far token, length bytes, literals as they are copied, and offset reach. */
  function LiteralsEnd(op: nat, length: nat): nat {
    op + 1 + LenCost(length) + if WildEnd(length) < length + 2 then length + 2 else WildEnd(length)
  }

  /** The runs of literals that the guard, which divides by 256, protects: the bytes of the length and those that are
      copied beyond the literals make at most eight more than it counts. */
  predicate RunGuarded(length: nat) {
    LenCost(length) + (if WildEnd(length) < length + 2 then 2 else WildEnd(length) - length) <= length / 256 + 8
  }

  lemma RunGuardExact(op: nat, length: nat)
    ensures LiteralsEnd(op, length) <= LiteralsGuard(op, length) <==> RunGuarded(length)
  {
  }

  /** The match codes that its guard protects; here no bytes are written beyond the length. */
  predicate LengthGuarded(mcode: nat) {
    LenCost(mcode) <= mcode / 256 + 6
  }

  lemma LengthGuardExact(op: nat, mcode: nat)
    ensures op + LenCost(mcode) <= MatchGuard(op, mcode) <==> LengthGuarded(mcode)
  {
  }

  /** The longest run up to which all are protected, and the largest input that has no longer one before a match. */
  const GUARDED_RUN := 5624
  const GUARDED_HC_SIZE := GUARDED_RUN + MFLIMIT + 1

  lemma RunGuardedUpTo(n: nat)
    ensures (forall length: nat :: length <= n ==> RunGuarded(length)) <==> n <= GUARDED_RUN
  {
    hide RunGuarded;
    forall length: nat | length <= GUARDED_RUN
      ensures RunGuarded(length)
    {
      ShortRun(length);
    }
    FirstLongRun();
  }

  lemma FirstLongRun()
    ensures !RunGuarded(GUARDED_RUN + 1)
  {
  }

  lemma ShortRun(length: nat)
    requires length <= GUARDED_RUN
    ensures RunGuarded(length)
  {
    if length >= RUN_MASK {
      var k := (length - RUN_MASK) / 255;
      assert 255 * k + 15 <= length < 255 * k + 270 && k <= 21;
      if length < 256 * k {
        assert length / 256 == k - 1;
        if k == 16 {
        } else if k == 17 {
        } else if k == 18 {
        } else if k == 19 {
        } else if k == 20 {
        } else {
          assert k == 21;
        }
      }
    }
  }

  lemma ShortLength(mcode: nat)
    requires mcode <= 60000
    ensures LengthGuarded(mcode)
  {
  }

  /** The largest block of a frame. */
  const MAX_BLOCK := 0x40_0000

  /** How far beyond an output limit the writes for an input of `n` bytes may reach: not at all if all its runs are
      guarded; by a byte for every 64 KB of the limit, and one, if a match has saved its own length. */
  function Spill(n: nat, limit: nat): nat {
    if n <= GUARDED_HC_SIZE then 0
    else if n <= limit + 1 <= MAX_BLOCK then limit / 0x1_0000 + 1
    else (n + 61185) / 65280
  }

  /** What the guard lets pass grows more slowly than what is written by one byte in 65280. */
  lemma RunSpill(op: nat, length: nat, limit: nat)
    requires LiteralsGuard(op, length) <= limit
    ensures LiteralsEnd(op, length) <= limit + (length + 61185) / 65280
  {
    WildTailSize(length);
    if length >= RUN_MASK {
      Quotients(length);
    }
  }

  lemma WildTailSize(length: nat)
    ensures length <= WildEnd(length) <= length + if length == 0 then 8 else 7
  {
  }

  lemma LengthSpill(op: nat, mcode: nat, limit: nat)
    requires MatchGuard(op, mcode) <= limit
    ensures op + LenCost(mcode) <= limit || op + LenCost(mcode) + 5 <= limit + (mcode + 61185) / 65280
  {
    if mcode >= ML_MASK {
      Quotients(mcode);
    }
  }

  /** A run that the guard lets pass is shorter than the limit by one byte in 257. */
  lemma ShortEnough(op: nat, length: nat, limit: nat)
    requires LiteralsGuard(op, length) <= limit < MAX_BLOCK
    ensures (length + 61185) / 65280 <= limit / 0x1_0000 + 1
  {
    var q := limit / 0x1_0000;
    assert length <= 256 * (length / 256) + 255;
    assert 257 * length + 2049 <= 256 * limit;
    assert limit <= 0x1_0000 * q + 0xFFFF && q < 64;
    assert length <= 65280 * q + 69374;
  }

  /** The writes of both kinds stay below the limit and the spill. */
  lemma SpillSuffices(n: nat, op: nat, length: nat, mcode: nat, limit: nat)
    requires length + MFLIMIT < n && mcode < n
    ensures LiteralsGuard(op, length) <= limit ==> LiteralsEnd(op, length) <= limit + Spill(n, limit)
    ensures MatchGuard(op, mcode) <= limit ==> op + LenCost(mcode) <= limit + Spill(n, limit)
  {
    hide LiteralsGuard, LiteralsEnd, MatchGuard, RunGuarded, LengthGuarded;
    RunGuardExact(op, length);
    LengthGuardExact(op, mcode);
    if n <= GUARDED_HC_SIZE {
      ShortRun(length);
      ShortLength(mcode);
    } else {
      if LiteralsGuard(op, length) <= limit {
        RunSpill(op, length, limit);
        if n <= limit + 1 <= MAX_BLOCK {
          ShortEnough(op, length, limit);
        }
      }
      if MatchGuard(op, mcode) <= limit {
        LengthSpill(op, mcode, limit);
        if n <= limit + 1 <= MAX_BLOCK {
          FewForLength(mcode, limit);
        }
      }
    }
  }

  lemma FewForLength(mcode: nat, limit: nat)
    requires mcode <= limit < MAX_BLOCK
    ensures (mcode + 61185) / 65280 <= limit / 0x1_0000 + 5
  {
    assert limit <= 0x1_0000 * (limit / 0x1_0000) + 0xFFFF && limit / 0x1_0000 < 64;
  }

  /** Where writes may go: below `lim`. Either the output limit is in there, and what the guards let pass beyond it, or
      there is room for the worst case. */
  predicate Room(n: nat, o: Limit, lim: nat) {
    (o.limited && o.olimit + Spill(n, o.olimit) <= lim) || Bound(n) <= lim
  }

  // ---------- sequences ----------

  /** Extra bytes of a match length, two 255s at a time. */
  method PutMatchLength(dst: array<byte>, op: nat, n: nat, ghost e: seq<byte>) returns (op': nat)
    requires Has(dst, op, e) && op + n / 255 + 1 <= dst.Length
    modifies dst
    ensures op' == op + n / 255 + 1 && Has(dst, op', e + LenExt(n))
    ensures forall k :: op' <= k < dst.Length ==> dst[k] == old(dst[k])
  {
    hide LenExt, Has;
    var length := n;
    op' := op;
    ghost var x := e;
    while length >= 510
      invariant 0 <= length <= n && op <= op' && op' + length / 255 == op + n / 255
      invariant Has(dst, op', x) && x + LenExt(length) == e + LenExt(n)
      invariant forall k :: op' <= k < dst.Length ==> dst[k] == old(dst[k])
    {
      LenExtStep(length, x);
      LenExtStep(length - 255, x + [255]);
      PutByte(dst, op', 255, x);
      PutByte(dst, op' + 1, 255, x + [255]);
      op', x, length := op' + 2, x + [255] + [255], length - 510;
    }
    if length >= 255 {
      LenExtStep(length, x);
      PutByte(dst, op', 255, x);
      op', x, length := op' + 1, x + [255], length - 255;
    }
    LenExtLast(length);
    PutByte(dst, op', length, x);
    op' := op' + 1;
  }

  lemma CostOfLength(mcode: nat)
    ensures LenCost(mcode) == if mcode < ML_MASK then 0 else (mcode - ML_MASK) / 255 + 1
  {
  }

  lemma LenExtLast(n: nat)
    requires n < 255
    ensures LenExt(n) == [n]
  {
  }

  /** The literals from `anchor` on, and the match after them. */
  function SequenceOf(text: seq<byte>, anchor: nat, m: Match): Sequence
    requires anchor <= m.start && Usable(text, m)
  {
    Sequence(text[anchor..m.start], m.start - m.ref, m.len)
  }

  /** The copy of the text goes on behind the literals and the offset that belongs there, in the output `d`. */
  predicate RunWritten(text: seq<byte>, d: seq<byte>, op: nat, anchor: nat, start: nat)
    requires anchor <= start
  {
    var length := start - anchor;
    var end := op + 1 + LenCost(length) + length;
    forall k :: end + 2 <= k < end - length + WildEnd(length) && k < |d| && start + (k - end) < |text| ==>
      d[k] == text[start + (k - end)]
  }

  lemma TailWritten(text: seq<byte>, dst: array<byte>, op: nat, anchor: nat, start: nat)
    requires anchor <= start
    ensures WildTail(text, start, dst, op + 1 + LenCost(start - anchor) + (start - anchor), start - anchor) ==>
              RunWritten(text, dst[..], op, anchor, start)
  {
  }

  /** The offset does not touch it. */
  lemma StillWritten(text: seq<byte>, before: seq<byte>, d: seq<byte>, op: nat, anchor: nat, start: nat)
    requires anchor <= start && |before| == |d| && RunWritten(text, before, op, anchor, start)
    requires forall k :: op + 1 + LenCost(start - anchor) + (start - anchor) + 2 <= k < |d| ==> d[k] == before[k]
    ensures RunWritten(text, d, op, anchor, start)
  {
  }

  /** LZ4HC_encodeSequence. */
  method EncodeSequence(text: seq<byte>, dst: array<byte>, op: nat, anchor: nat, m: Match, o: Limit, ghost lim: nat,
                        ghost p: Parse) returns (ok: bool, op': nat, ghost p': Parse)
    requires Emitted(text, dst, op, p, anchor) && anchor <= m.start && Usable(text, m)
    requires Room(|text|, o, lim) && lim <= dst.Length
    modifies dst
    ensures !ok ==> o.limited && o.olimit < Bound(|text|)
    ensures ok ==> Emitted(text, dst, op', p', m.End()) && p' == Then(p, SequenceOf(text, anchor, m))
    ensures EncodedOr(text, dst[..], op, anchor, m, o, ok, op')
    ensures forall k :: lim <= k < dst.Length ==> dst[k] == old(dst[k])
  {
    hide Emitted, Usable, Has, Half, Head, EncodeSeqs, EncodeSeq, Bound, LenCost, LiteralRoom, LenExt, LenBytes,
         OffsetBytes, Room, LiteralsGuard, MatchGuard, WildTail, WildEnd, RunWritten;
    ghost var e := EncodeSeqs(p);
    ghost var s := SequenceFacts(text, dst, op, anchor, m, p);
    var length := m.len - MINMATCH;
    RoomForSequence(|text|, op, anchor, m, o, lim);
    if !o.Allows(LiteralsGuard(op, m.start - anchor)) {
      return false, op, p;
    }
    op' := PutLiterals(text, anchor, m.start, dst, op, lim, e);
    TailWritten(text, dst, op, anchor, m.start);
    ghost var before := dst[..];
    PutOffset(dst, op', m.start - m.ref, e + Half(s.lits));
    StillWritten(text, before, dst[..], op, anchor, m.start);
    op' := op' + 2;
    if !o.Allows(MatchGuard(op', length)) {
      return false, op', p;
    }
    AddToToken(dst, op, op', length, e, s);
    if length >= ML_MASK {
      ExtraBytes(length);
      op' := PutMatchLength(dst, op', length - ML_MASK, e + Head(s));
    }
    ok, p' := true, Then(p, s);
    CostOfLength(length);
    AppendMatch(text, dst, op', anchor, m, p, s);
  }

  /** Once the bytes of a sequence are there, the parse has one more. */
  lemma AppendMatch(text: seq<byte>, dst: array<byte>, op: nat, anchor: nat, m: Match, p: Parse, s: Sequence)
    requires anchor <= m.start && Usable(text, m) && Builds(text, 0, p, anchor) && Conforms(p, anchor, |text|)
    requires s == Sequence(text[anchor..m.start], m.start - m.ref, m.len)
    requires Has(dst, op, EncodeSeqs(p) + Head(s) + LenBytes(s.len - MINMATCH))
             || (s.len - MINMATCH < ML_MASK && Has(dst, op, EncodeSeqs(p) + Head(s)))
    ensures Emitted(text, dst, op, Then(p, s), m.End())
  {
    hide Has, Head, LenBytes, EncodeSeq, RealMatch;
    Append(text, 0, p, anchor, m.start, m.ref, m.len);
    HeadMore(EncodeSeqs(p), s);
  }

  /** What LZ4HC_encodeSequence knows, spelled out. */
  lemma SequenceFacts(text: seq<byte>, dst: array<byte>, op: nat, anchor: nat, m: Match, p: Parse) returns (s: Sequence)
    requires Emitted(text, dst, op, p, anchor) && anchor <= m.start && Usable(text, m)
    ensures MINMATCH <= m.len && m.ref < m.start <= m.ref + MAX_DISTANCE && m.start + MFLIMIT < |text|
    ensures m.End() + LASTLITERALS <= |text| && s == Sequence(text[anchor..m.start], m.start - m.ref, m.len)
    ensures Builds(text, 0, p, anchor) && Conforms(p, anchor, |text|)
    ensures Has(dst, op, EncodeSeqs(p)) && op == |EncodeSeqs(p)| <= Grown(anchor)
  {
    s := Sequence(text[anchor..m.start], m.start - m.ref, m.len);
    SeqsSizeBound(text, 0, p, anchor);
  }

  /** With room for the worst case both guards pass; with less, what they let pass is below the limit. */
  lemma RoomForSequence(n: nat, op: nat, anchor: nat, m: Match, o: Limit, lim: nat)
    requires op <= Grown(anchor) && anchor <= m.start && MINMATCH <= m.len && m.start + MFLIMIT < n
    requires m.End() + LASTLITERALS <= n && Room(n, o, lim)
    ensures var length, mcode := m.start - anchor, m.len - MINMATCH;
            var end := op + 1 + LenCost(length) + length + 2;
            && LiteralsGuard(op, length) <= Bound(n) && MatchGuard(end, mcode) <= Bound(n)
            && (o.Allows(LiteralsGuard(op, length)) ==> LiteralRoom(op, length, lim) && end <= lim)
            && (o.Allows(MatchGuard(end, mcode)) ==> end + LenCost(mcode) <= lim)
  {
    hide Grown, Bound, MatchGuard, LiteralsGuard, RunGuarded, LengthGuarded, WildEnd, Spill, LenCost;
    var length, mcode := m.start - anchor, m.len - MINMATCH;
    var end := op + 1 + LenCost(length) + length + 2;
    Fast.LiteralsFit(n, anchor, op, length);
    Fast.MatchFits(n, anchor, op, length, mcode);
    LiteralsGuardIs(op, length);
    LiteralGuardSuffices(op, length, Bound(n));
    SpillSuffices(n, op, length, mcode, o.olimit);
    SpillSuffices(n, end, length, mcode, o.olimit);
  }

  lemma LiteralsGuardIs(op: nat, length: nat)
    ensures LiteralsGuard(op, length) <= LiteralGuard(op, length)
  {
  }

  // ---------- inputs with one or two matches ----------

  /** A sequence was written, or its literals were and the guard of its length failed, or that of its literals did. */
  predicate EncodedOr(text: seq<byte>, d: seq<byte>, op: nat, anchor: nat, m: Match, o: Limit, ok: bool, op': nat) {
    anchor <= m.start && MINMATCH <= m.len &&
    var length := m.start - anchor;
    && (ok <==> && o.Allows(LiteralsGuard(op, length))
                && o.Allows(MatchGuard(op + 1 + LenCost(length) + length + 2, m.len - MINMATCH)))
    && (o.Allows(LiteralsGuard(op, length)) && !ok ==> RunWritten(text, d, op, anchor, m.start))
    && (ok ==> op' == op + 1 + LenCost(length) + length + 2 + LenCost(m.len - MINMATCH))
  }

  /** The only matches are at `a` and `b`, of four bytes, one byte back; `a` may be `b`. */
  ghost predicate Sparse(text: seq<byte>, a: nat, b: nat) {
    && 0 < a && b + MFLIMIT < |text| && (a == b || a + MINMATCH <= b)
    && OnlyAt(text, {a, b}) && Agree(text, a - 1, a, MINMATCH) && Agree(text, b - 1, b, MINMATCH)
  }

  /** Where the output and the input stand when the second match is reached. */
  function OpBefore(a: nat, b: nat): nat {
    if a == b then 0 else 1 + LenCost(a) + a + 2
  }

  function AnchorBefore(a: nat, b: nat): nat {
    if a == b then 0 else a + MINMATCH
  }

  /** The limit at which the first sequence is written, and of the second only the literals, because the guard of its
      length fails. */
  ghost predicate Stops(text: seq<byte>, a: nat, b: nat, o: Limit) {
    Sparse(text, a, b) &&
    var op, length := OpBefore(a, b), b - AnchorBefore(a, b);
    && (a < b ==> o.Allows(LiteralsGuard(0, a)) && o.Allows(MatchGuard(op, 0)))
    && o.Allows(LiteralsGuard(op, length)) && !o.Allows(MatchGuard(op + 1 + LenCost(length) + length + 2, 0))
  }

  /** What is left of it. */
  predicate StoppedAt(text: seq<byte>, d: seq<byte>, a: nat, b: nat)
    requires AnchorBefore(a, b) <= b
  {
    RunWritten(text, d, OpBefore(a, b), AnchorBefore(a, b), b)
  }

  lemma StopsFacts(text: seq<byte>, a: nat, b: nat, o: Limit)
    requires Stops(text, a, b, o)
    ensures 0 < a && b + MFLIMIT < |text| && (a == b || a + MINMATCH <= b) && AnchorBefore(a, b) <= b && o.limited
  {
  }

  /** A match that may be encoded is the one at `a` or that at `b`, and has four bytes. */
  lemma SparseMatch(text: seq<byte>, a: nat, b: nat, m: Match)
    requires Sparse(text, a, b) && Usable(text, m)
    ensures (m.start == a || m.start == b) && m.len == MINMATCH
  {
    ShortenMatch(text, m.start, m.ref, m.len, 0, MINMATCH);
    assert m.start in {a, b};
    if m.len > MINMATCH {
      ShortenMatch(text, m.start, m.ref, m.len, 1, MINMATCH);
    }
  }

  /** Writing the sequence at `a` leads to where the second begins; at `b` it stops. */
  lemma StopsNext(text: seq<byte>, d: seq<byte>, a: nat, b: nat, o: Limit, op: nat, m: Match, ok: bool, op': nat)
    requires Stops(text, a, b, o) && m.len == MINMATCH
    requires op == (if m.start == a then 0 else OpBefore(a, b)) && (m.start == a || m.start == b)
    requires EncodedOr(text, d, op, if m.start == a then 0 else AnchorBefore(a, b), m, o, ok, op')
    ensures if m.start == a < b then ok && op' == OpBefore(a, b) else !ok && StoppedAt(text, d, a, b)
  {
    hide LiteralsGuard, MatchGuard, Sparse, LenCost;
    StopsFacts(text, a, b, o);
    NoCost();
  }

  lemma NoCost()
    ensures LenCost(MINMATCH - MINMATCH) == 0
  {
  }

  // ---------- the end ----------

  /** The last literals, after any parse. */
  method LastLiterals(text: seq<byte>, dst: array<byte>, op: nat, anchor: nat, o: Limit, ghost lim: nat, ghost p: Parse)
    returns (n: nat)
    requires Emitted(text, dst, op, p, anchor) && Room(|text|, o, lim) && lim <= dst.Length
    modifies dst
    ensures n == 0 ==> o.limited && o.olimit < Bound(|text|) && dst[..] == old(dst[..])
    ensures n > 0 ==> n <= Bound(|text|) && o.Allows(n) && n <= dst.Length && DecodesTo(dst[..n], [], text)
    ensures var need := op + 1 + LenCost(|text| - anchor) + |text| - anchor; n == if o.Allows(need) then need else 0
    ensures forall k :: lim <= k < dst.Length ==> dst[k] == old(dst[k])
  {
    hide Bound, DecodesTo, EncodeSeqs, EncodeLast, LenCost, Block, Builds, Conforms;
    var lastRun := |text| - anchor;
    BlockSizeBound(p, text, 0, anchor);
    EncodeLastSize(text[anchor..]);
    BlockParts(p, text, anchor);
    assert text[..0] == [];
    ParseDecodes(text, 0, p, anchor);
    Fast.LastGuard(lastRun);
    if !o.Allows(op + 1 + (lastRun + 255 - RUN_MASK) / 255 + lastRun) {
      return 0;
    }
    n := PutLast(text, anchor, dst, op, EncodeSeqs(p));
  }
}
