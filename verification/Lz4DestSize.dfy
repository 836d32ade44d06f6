/** LZ4_compress_destSize_generic: compress as much of the input as fits a given output size. */
module Lz4DestSize {
  import opened Bytes
  import opened Lz4Format
  import opened Lz4RoundTrip
  import opened Lz4Emit
  import opened Lz4Match
  import opened Lz4Fast

  /** Everything emitted so far leaves room for a legal end of block. */
  predicate RoomForEnd(p: Parse, op: nat, target: nat) {
    p.Then? ==>
      && op + LASTLITERALS + 1 <= target
      && (p.last.len - MINMATCH < ML_MASK ==> op + 9 <= target)
  }

  /** The last match respects the restrictions with respect to `end`. */
  predicate LastConforms(p: Parse, pos: int, end: int) {
    p.Then? ==> pos - p.last.len + MFLIMIT <= end && pos + LASTLITERALS <= end
  }

  /** If the last match respects the restrictions, all do. */
  lemma {:induction false} ConformsByLast(text: seq<byte>, start: nat, p: Parse, pos: int, end: int)
    requires Builds(text, start, p, pos) && LastConforms(p, pos, end)
    ensures Conforms(p, pos, end)
  {
    if p.Then? {
      ConformsByLast(text, start, p.front, pos - p.last.len - |p.last.lits|, end);
    }
  }

  ghost predicate Written(c: Source, dst: array<byte>, op: nat, p: Parse, anchor: nat, target: nat)
    reads dst
  {
    && c.start <= anchor <= |c.text|
    && Has(dst, op, EncodeSeqs(p))
    && Builds(c.text, c.start, p, anchor) && LastConforms(p, anchor, |c.text|)
    && RoomForEnd(p, op, target)
  }

  /** Length a match may have when its description must end at or before `oMaxMatch`. */
  function Shortened(op: nat, oMaxMatch: nat, mcode: nat): nat
    requires op <= oMaxMatch
  {
    if op + (mcode + 240) / 255 > oMaxMatch then 14 + (oMaxMatch - op) * 255 else mcode
  }

  lemma ShortenedFits(op: nat, oMaxMatch: nat, mcode: nat)
    requires op <= oMaxMatch
    ensures var s := Shortened(op, oMaxMatch, mcode);
            && s <= mcode && op + LenCost(s) <= oMaxMatch
            && (s < mcode ==> op + LenCost(s) == oMaxMatch)
            && (s < ML_MASK ==> LenCost(s) == 0)
  {
  }

  lemma ShortenedWhole(op: nat, oMaxMatch: nat, mcode: nat)
    requires op <= oMaxMatch
    ensures Shortened(op, oMaxMatch, mcode) == mcode <==> op + LenCost(mcode) <= oMaxMatch
  {
  }

  /** Token and literals, unless there would be no space for a last match after them. */
  method DestLiterals(c: Source, dst: array<byte>, op: nat, anchor: nat, ip: nat, immediate: bool, target: nat,
                      ghost p: Parse) returns (ok: bool, op': nat)
    requires Written(c, dst, op, p, anchor, target) && anchor <= ip && ip + MFLIMIT <= |c.text| && target <= dst.Length
    requires immediate ==> anchor == ip && op + 12 <= target
    modifies dst
    ensures ok ==> Has(dst, op', EncodeSeqs(p) + Half(c.text[anchor..ip]))
    ensures ok ==> op' + 11 <= target
    ensures !immediate ==> (ok <==> op + 1 + LenCost(ip - anchor) + ip - anchor + 11 <= target)
    ensures ok ==> op' == op + 1 + LenCost(ip - anchor) + ip - anchor
    ensures !ok ==> Written(c, dst, op, p, anchor, target)
    ensures forall k :: target <= k < dst.Length ==> dst[k] == old(dst[k])
  {
    hide Builds, EncodeSeqs, Half, LenCost;
    if immediate {
      HalfEmpty(c.text[anchor..ip]);
      PutByte(dst, op, 0, EncodeSeqs(p));
      return true, op + 1;
    }
    var litLength := ip - anchor;
    LastGuard(litLength);
    if op + 1 + (litLength + 240) / 255 + litLength + 11 > target {
      return false, op;
    }
    op' := PutLiterals(c.text, anchor, ip, dst, op, target, EncodeSeqs(p));
    ok := true;
  }

  /** The match, shortened when its description would be too long. */
  method DestMatch(c: Source, dst: array<byte>, token: nat, op: nat, anchor: nat, ip: nat, m: nat, target: nat,
                   ghost p: Parse) returns (op': nat, ip': nat, ghost p': Parse, ghost whole: bool)
    requires c.Valid() && c.start <= anchor <= ip && ip + MFLIMIT <= |c.text| && RealMatch(c.text, ip, m, MINMATCH)
    requires token == |EncodeSeqs(p)| && Builds(c.text, c.start, p, anchor)
    requires Has(dst, op, EncodeSeqs(p) + Half(c.text[anchor..ip])) && op + 11 <= target <= dst.Length
    modifies dst
    ensures Written(c, dst, op', p', ip', target) && ip + MINMATCH <= ip'
    ensures whole ==>
              ip' == ip + MINMATCH + CommonLen(c.text, m + MINMATCH, ip + MINMATCH, |c.text| - LASTLITERALS)
    ensures !whole ==> op' + 12 > target
    ensures var mcode := CommonLen(c.text, m + MINMATCH, ip + MINMATCH, |c.text| - LASTLITERALS);
            && (whole <==> op + 2 + LenCost(mcode) + LASTLITERALS + 1 <= target)
            && (whole ==> op' == op + 2 + LenCost(mcode))
    ensures forall k :: target <= k < dst.Length ==> dst[k] == old(dst[k])
  {
    hide Builds, Has, EncodeSeqs, EncodeSeq, Half, LenCost, Agree, CommonLen, Spells, Shortened;
    var matchLength := Count(c.text, ip + MINMATCH, m + MINMATCH, |c.text| - LASTLITERALS);
    ExtendMatch(c.text, ip, m, 0, |c.text| - LASTLITERALS);
    var mcode := Shortened(op + 2, target - 6, matchLength);
    ShortenedFits(op + 2, target - 6, matchLength);
    ShortenedWhole(op + 2, target - 6, matchLength);
    whole := mcode == matchLength;
    ShortenMatch(c.text, ip, m, MINMATCH + matchLength, 0, MINMATCH + mcode);
    ghost var s := Sequence(c.text[anchor..ip], ip - m, MINMATCH + mcode);
    op' := PutMatchPlain(dst, token, op, EncodeSeqs(p), ip - m, mcode, c.text[anchor..ip]);
    ip', p' := ip + MINMATCH + mcode, Then(p, s);
    EncodeThen(p, s);
    BuildsThen(c.text, c.start, p, anchor, ip, m, MINMATCH + mcode);
  }

  lemma BuildsThen(text: seq<byte>, start: nat, p: Parse, anchor: nat, ip: nat, m: nat, len: matchlen)
    requires Builds(text, start, p, anchor) && start <= anchor <= ip && RealMatch(text, ip, m, len)
    ensures Builds(text, start, Then(p, Sequence(text[anchor..ip], ip - m, len)), ip + len)
  {
  }

  /** What a first hit that cannot be extended backwards leads to, when there is room for all of it. */
  predicate DestForeseen(c: Source, op: nat, anchor: nat, q: nat, hit: nat, target: nat, found: bool, op': nat, ip: nat)
  {
    anchor <= q && hit < q && q + MFLIMIT <= |c.text| ==>
      var o := op + 1 + LenCost(q - anchor) + q - anchor + 2;
      var mcode := CommonLen(c.text, hit + MINMATCH, q + MINMATCH, |c.text| - LASTLITERALS);
      o + 9 <= target && o + LenCost(mcode) + LASTLITERALS + 1 <= target ==>
        found && op' == o + LenCost(mcode) && ip == q + MINMATCH + mcode
  }

  lemma AnchorInside(c: Source, dst: array<byte>, op: nat, p: Parse, anchor: nat, target: nat)
    requires Written(c, dst, op, p, anchor, target)
    ensures c.start <= anchor <= |c.text| && op == |EncodeSeqs(p)| && Builds(c.text, c.start, p, anchor)
  {
    hide Builds, EncodeSeqs;
  }

  /** Finds and emits one sequence; `found` is false when there is no match, or no space left for one. */
  method DestSequence(c: Source, table: array<nat>, dst: array<byte>, op: nat, anchor: nat, ip0: nat, m0: int,
                      immediate: bool, target: nat, ghost p: Parse, ghost q: nat, ghost hit: nat)
    returns (found: bool, op': nat, ip: nat, ghost p': Parse)
    requires c.Valid() && table.Length > 0 && Written(c, dst, op, p, anchor, target) && anchor <= ip0
    requires target <= dst.Length
    requires immediate ==> && anchor == ip0 && op + 12 <= target && ip0 + MFLIMIT <= |c.text|
                           && Candidate(c, ip0, m0) && TableInv(c, table, ip0 + 1)
    requires !immediate ==> c.start < ip0 <= |c.text| && TableInv(c, table, ip0)
    modifies table, dst
    ensures !found ==> p' == p && Written(c, dst, op, p, anchor, target)
    ensures found ==> Written(c, dst, op', p', ip, target) && anchor + MINMATCH <= ip
    ensures !immediate && FirstHitAt(c, old(table[..]), ip0, 1, q, hit) && hit == c.low ==>
              DestForeseen(c, op, anchor, q, hit, target, found, op', ip)
    ensures found && op' + 12 <= target ==> ip0 + MINMATCH <= ip && TableInv(c, table, ip)
    ensures forall k :: target <= k < dst.Length ==> dst[k] == old(dst[k])
  {
    hide Builds, EncodeSeqs, Half, CommonLen, Agree, FirstHitAt, LenCost, Written;
    HitInside(c, table[..], ip0, 1, q, hit);
    AnchorInside(c, dst, op, p, anchor, target);
    var m := m0;
    found, op', ip, p' := true, op, ip0, p;
    var tail := ip0;
    if !immediate {
      found, ip, m, tail := FindBackwards(c, table, anchor, ip0, 1, q, hit);
      if !found {
        return;
      }
    }
    CatchUpReaches(c.text, ip, m, tail - ip, |c.text| - LASTLITERALS);
    var o;
    found, o := DestLiterals(c, dst, op, anchor, ip, immediate, target, p);
    if found {
      ghost var whole;
      op', ip, p', whole := DestMatch(c, dst, op, o, anchor, ip, m, target, p);
    }
  }

  /** There is room for the literals and the match of a text that repeats its first `d` bytes. */
  predicate RepeatedReaches(n: nat, d: nat, target: nat) {
    d + MFLIMIT < n && MatchAt(d) + 9 <= target && MatchAt(d) + LenCost(n - d - 9) + LASTLITERALS + 1 <= target
  }

  /** The input is such a text. */
  ghost predicate Reaches(c: Source, slots: nat, k: nat, target: nat)
    requires 0 < slots && c.start <= |c.text|
  {
    && Repeating(c, slots, 1, k) && c.start < Probe(c.start + 1, 1, k)
    && RepeatedReaches(|c.text| - c.start, Probe(c.start + 1, 1, k) - c.start, target)
  }

  /** All that repeats is one sequence. */
  predicate OneMatchWhole(c: Source, k: nat, op: nat, anchor: nat) {
    var n, d := |c.text| - c.start, Probe(c.start + 1, 1, k) - c.start;
    0 < d && d + MFLIMIT < n && op == MatchAt(d) + LenCost(n - d - 9) && anchor == |c.text| - LASTLITERALS
  }

  lemma RepetitionReached(c: Source, slots: nat, k: nat, target: nat, found: bool, op: nat, ip: nat)
    requires 0 < slots && c.start <= |c.text| && Reaches(c, slots, k, target)
    requires DestForeseen(c, 0, c.start, Probe(c.start + 1, 1, k), c.start, target, found, op, ip)
    ensures found && ip + MFLIMIT > |c.text| && OneMatchWhole(c, k, op, ip)
  {
    hide Probe, Repeating, CommonLen, LenCost;
    RepetitionLength(c, slots, 1, k);
  }

  lemma ReachesRepeats(c: Source, slots: nat, k: nat, target: nat)
    requires 0 < slots && c.start <= |c.text|
    ensures Reaches(c, slots, k, target) ==> Repeating(c, slots, 1, k) && c.low == c.start
  {
    hide Probe;
  }

  method DestSequences(c: Source, table: array<nat>, dst: array<byte>, target: nat, ghost k: nat)
    returns (op: nat, anchor: nat, ghost p: Parse)
    requires c.Valid() && c.Size() > MFLIMIT && TableInv(c, table, c.start + 1) && 1 <= target <= dst.Length
    modifies table, dst
    ensures Written(c, dst, op, p, anchor, target)
    ensures Reaches(c, table.Length, k, target) ==> OneMatchWhole(c, k, op, anchor)
    ensures forall k :: target <= k < dst.Length ==> dst[k] == old(dst[k])
  {
    hide Has, Builds, EncodeSeqs, Candidate, Repeating, OneMatchWhole, Probe, FirstHitAt, DestForeseen, Reaches;
    EmittedStart(c, dst);
    ghost var reaches := Reaches(c, table.Length, k, target);
    ReachesRepeats(c, table.Length, k, target);
    var ip, m, immediate := c.start + 1, 0, false;
    op, anchor, p := 0, c.start, Start;
    PutPosition(c, table, c.start, c.start + 1);
    while true
      invariant Written(c, dst, op, p, anchor, target) && anchor <= ip
      invariant immediate ==> && anchor == ip && op + 12 <= target && ip + MFLIMIT <= |c.text|
                              && Candidate(c, ip, m) && TableInv(c, table, ip + 1)
      invariant !immediate ==> c.start < ip <= |c.text| && TableInv(c, table, ip)
      invariant reaches ==> && !immediate && op == 0 && anchor == c.start && ip == c.start + 1
                            && c.base + table[c.hash(c.start) % table.Length] == c.start
      invariant forall k :: target <= k < dst.Length ==> dst[k] == old(dst[k])
      decreases |c.text| - ip
    {
      if reaches {
        RepetitionHit(c, table[..], 1, k);
      }
      var found, op', ip';
      found, op', ip', p := DestSequence(c, table, dst, op, anchor, ip, m, immediate, target, p,
                                         Probe(c.start + 1, 1, k), c.start);
      if reaches {
        RepetitionReached(c, table.Length, k, target, found, op', ip');
      }
      if !found {
        return;
      }
      op, anchor := op', ip';
      if ip' + MFLIMIT > |c.text| || op + 12 > target {
        return;
      }
      immediate, ip, m := NextPosition(c, table, ip');
    }
  }

  /** Length of the last run: cut down to what fits. */
  function LastRun(left: nat, room: nat): nat
    requires 1 <= room
  {
    if 1 + (left + 240) / 255 + left > room then room - 1 - (room - 1 + 240) / 255 else left
  }

  lemma LastRunFits(left: nat, room: nat)
    requires 1 <= room
    ensures var l := LastRun(left, room);
            && l <= left && 1 + LenCost(l) + l <= room
            && (l < left && room >= 6 ==> l >= 5)
            && (l < left && room >= 9 ==> l >= 8)
            && (l < left ==> room <= 1 + LenCost(l) + l + 1 + room / 65025)
  {
  }

  /** The restrictions hold for the part of the input that was consumed, and not only for the input. */
  lemma ConsumedConforms(c: Source, p: Parse, op: nat, anchor: nat, target: nat, l: nat)
    requires c.start <= anchor <= |c.text| && Builds(c.text, c.start, p, anchor)
    requires LastConforms(p, anchor, |c.text|) && RoomForEnd(p, op, target)
    requires op < target && l == LastRun(|c.text| - anchor, target - op)
    ensures anchor + l <= |c.text|
    ensures Builds(c.text[..anchor + l], c.start, p, anchor) && Conforms(p, anchor, anchor + l)
  {
    hide Builds, LastRun;
    LastRunFits(|c.text| - anchor, target - op);
    BuildsExtend(c.text, c.text[..anchor + l], c.start, p, anchor);
    assert LastConforms(p, anchor, anchor + l);
    ConformsByLast(c.text, c.start, p, anchor, anchor + l);
  }

  /** What is not used of the room for the last run: a byte, and another one for every 65025. */
  lemma Filled(op: nat, target: nat, left: nat)
    requires op < target
    ensures var l := LastRun(left, target - op);
            l < left ==> target <= op + 1 + LenCost(l) + l + 1 + target / 65025
  {
    hide LastRun, LenCost;
    LastRunFits(left, target - op);
  }

  lemma TheReach(c: Source, slots: nat, target: nat) returns (k: nat)
    requires 0 < slots && c.start <= |c.text|
    ensures forall j: nat :: Reaches(c, slots, j, target) ==> j == k && c.Size() > MFLIMIT
  {
    hide Repeating, Probe;
    k := TheRepetition(c, slots, 1);
  }

  lemma NoReach(c: Source, slots: nat)
    requires 0 < slots && c.start <= |c.text|
    ensures forall k: nat :: !Reaches(c, slots, k, 0)
  {
    hide Repeating, Probe;
  }

  lemma WholeResult(c: Source, slots: nat, k: nat, target: nat, op: nat, anchor: nat, n: nat, consumed: nat)
    requires 0 < slots && c.start <= |c.text| && Reaches(c, slots, k, target) && OneMatchWhole(c, k, op, anchor)
    requires op < target && anchor <= |c.text|
    requires var l := LastRun(|c.text| - anchor, target - op);
             n == op + 1 + LenCost(l) + l && c.start + consumed == anchor + l
    ensures var d := Probe(c.start + 1, 1, k) - c.start;
            0 < d && d + MFLIMIT < c.Size() && n == RepeatedSize(c.Size(), d) && consumed == c.Size()
  {
    hide Repeating, Probe;
  }

  lemma WrittenStart(c: Source, dst: array<byte>, target: nat)
    requires c.Valid()
    ensures Written(c, dst, 0, Start, c.start, target)
  {
    assert dst[..0] == [];
  }

  lemma WrittenBelow(c: Source, dst: array<byte>, op: nat, p: Parse, anchor: nat, target: nat)
    requires Written(c, dst, op, p, anchor, target) && 1 <= target
    ensures op < target && anchor <= |c.text|
  {
  }

  /** LZ4_compress_destSize_generic: `consumed` bytes of the input were encoded, in `n` bytes. What is left over would
      not have fit: the target is full but for a byte, and another one for every 65025. */
  method CompressDestSizeGeneric(c: Source, table: array<nat>, dst: array<byte>, target: nat)
    returns (n: nat, consumed: nat)
    requires c.Valid() && TableInv(c, table, c.start + 1) && target <= dst.Length
    modifies table, dst
    ensures n == 0 <==> target == 0
    ensures n <= target && c.start + consumed <= |c.text|
    ensures n > 0 ==> DecodesTo(dst[..n], c.text[..c.start], c.text[..c.start + consumed])
    ensures n > 0 && c.start + consumed < |c.text| ==> target <= n + 1 + target / 65025
    ensures forall k: nat :: Reaches(c, table.Length, k, target) ==>
              var d := Probe(c.start + 1, 1, k) - c.start;
              0 < d && d + MFLIMIT < c.Size() && n == RepeatedSize(c.Size(), d) && consumed == c.Size()
    ensures forall k :: target <= k < dst.Length ==> dst[k] == old(dst[k])
  {
    hide Builds, EncodeSeqs, DecodesTo, Conforms, Reaches, Repeating, Probe, LastRun, LenCost, OneMatchWhole,
         RepeatedSize, Written;
    if target < 1 {
      NoReach(c, table.Length);
      return 0, 0;
    }
    WrittenStart(c, dst, target);
    var op, anchor := 0, c.start;
    ghost var p := Start;
    ghost var k := TheReach(c, table.Length, target);
    if c.Size() >= MFLIMIT + 1 {
      op, anchor, p := DestSequences(c, table, dst, target, k);
    }
    WrittenBelow(c, dst, op, p, anchor, target);
    n, consumed := DestLast(c, dst, op, anchor, target, p);
    if Reaches(c, table.Length, k, target) {
      WholeResult(c, table.Length, k, target, op, anchor, n, consumed);
    }
  }

  /** The last literals, as many of them as fit. */
  method DestLast(c: Source, dst: array<byte>, op: nat, anchor: nat, target: nat, ghost p: Parse)
    returns (n: nat, consumed: nat)
    requires Written(c, dst, op, p, anchor, target) && op < target <= dst.Length && anchor <= |c.text|
    modifies dst
    ensures 0 < n <= target && c.start + consumed <= |c.text|
    ensures DecodesTo(dst[..n], c.text[..c.start], c.text[..c.start + consumed])
    ensures c.start + consumed < |c.text| ==> target <= n + 1 + target / 65025
    ensures var l := LastRun(|c.text| - anchor, target - op);
            n == op + 1 + LenCost(l) + l && c.start + consumed == anchor + l
    ensures forall k :: target <= k < dst.Length ==> dst[k] == old(dst[k])
  {
    hide Builds, LastRun, EncodeSeqs, EncodeLast, LenCost, DecodesTo, Conforms, Block, RoomForEnd, LastConforms;
    var lastRunSize := LastRun(|c.text| - anchor, target - op);
    ConsumedConforms(c, p, op, anchor, target, lastRunSize);
    LastRunFits(|c.text| - anchor, target - op);
    Filled(op, target, |c.text| - anchor);
    ghost var text := c.text[..anchor + lastRunSize];
    assert text[..c.start] == c.text[..c.start];
    BlockParts(p, text, anchor);
    ParseDecodes(text, c.start, p, anchor);
    n := PutLast(c.text[..anchor + lastRunSize], anchor, dst, op, EncodeSeqs(p));
    consumed := anchor + lastRunSize - c.start;
  }
}
