/** Writing sequences into a destination array, as the LZ4 compressors do. `e` is what the array holds so far. */
module Lz4Emit {
  import opened Bytes
  import opened Lz4Format
  import opened Lz4RoundTrip

  /** The first `op` cells are the bytes `e`. */
  ghost predicate Has(dst: array<byte>, op: nat, e: seq<byte>)
    reads dst
  {
    op == |e| <= dst.Length && dst[..op] == e
  }

  method PutByte(dst: array<byte>, op: nat, b: byte, ghost e: seq<byte>)
    requires Has(dst, op, e) && op < dst.Length
    modifies dst
    ensures Has(dst, op + 1, e + [b])
    ensures forall k :: op + 1 <= k < dst.Length ==> dst[k] == old(dst[k])
  {
    dst[op] := b;
  }

  lemma LenExtStep(n: nat, e: seq<byte>)
    requires n >= 255
    ensures e + LenExt(n) == (e + [255]) + LenExt(n - 255)
  {
  }

  /** The 255-coded rest of a length. */
  method PutLength(dst: array<byte>, op: nat, n: nat, ghost e: seq<byte>) returns (op': nat)
    requires Has(dst, op, e) && op + n / 255 + 1 <= dst.Length
    modifies dst
    ensures op' == op + n / 255 + 1 && Has(dst, op', e + LenExt(n))
    ensures forall k :: op' <= k < dst.Length ==> dst[k] == old(dst[k])
  {
    var len := n;
    op' := op;
    ghost var x := e;
    while len >= 255
      invariant 0 <= len <= n && op <= op' && op' + len / 255 == op + n / 255
      invariant Has(dst, op', x) && x + LenExt(len) == e + LenExt(n)
      invariant forall k :: op' <= k < dst.Length ==> dst[k] == old(dst[k])
    {
      LenExtStep(len, x);
      PutByte(dst, op', 255, x);
      op', x, len := op' + 1, x + [255], len - 255;
    }
    PutByte(dst, op', len, x);
    op' := op' + 1;
  }

  /** LZ4_wildCopy copies eight bytes at a time, and at least once. */
  function WildEnd(length: nat): (n: nat)
    ensures length <= n && 8 <= n <= length + 8 && (length > 0 ==> n <= length + 7)
  {
    if length == 0 then 8 else (length + 7) / 8 * 8
  }

  /** What it leaves behind the literals that end at `op'`: the text goes on. */
  ghost predicate WildTail(text: seq<byte>, ip: nat, dst: array<byte>, op': nat, length: nat)
    reads dst
  {
    forall k :: op' <= k < op' - length + WildEnd(length) && k < dst.Length && ip + (k - op') < |text| ==>
      dst[k] == text[ip + (k - op')]
  }

  /** LZ4_wildCopy out of the source: the text goes on for at least eight bytes. */
  method WildCopyFrom(text: seq<byte>, anchor: nat, dst: array<byte>, op: nat, length: nat, ghost e: seq<byte>)
    requires anchor + length + 8 <= |text|
    requires Has(dst, op, e) && op + WildEnd(length) <= dst.Length
    modifies dst
    ensures Has(dst, op + length, e + text[anchor..anchor + length])
    ensures WildTail(text, anchor + length, dst, op + length, length)
    ensures forall k :: op + WildEnd(length) <= k < dst.Length ==> dst[k] == old(dst[k])
  {
    ghost var end := WildEnd(length);
    WildStep(length, 0);
    hide WildEnd;
    var i := 0;
    while true
      invariant (0 <= i < length || i == 0) && i + 8 <= end && i % 8 == 0
      invariant forall k :: 0 <= k < op ==> dst[k] == e[k]
      invariant forall k :: op <= k < op + i && k < dst.Length ==> dst[k] == text[anchor + (k - op)]
      invariant forall k :: op + i <= k < dst.Length ==> dst[k] == old(dst[k])
      decreases length - i
    {
      forall k | 0 <= k < 8 {
        dst[op + i + k] := text[anchor + i + k];
      }
      WildStep(length, i);
      i := i + 8;
      if i >= length {
        break;
      }
      WildStep(length, i);
    }
  }

  lemma WildStep(length: nat, i: nat)
    requires i % 8 == 0 && (i < length || i == 0)
    ensures i + 8 <= WildEnd(length) && (i + 8 >= length ==> i + 8 == WildEnd(length))
  {
  }

  /** What stands in the destination while a sequence is half written: a token without match length, then literals. */
  function Half(lits: seq<byte>): seq<byte> {
    [Token(|lits|, 0)] + LenBytes(|lits|) + lits
  }

  lemma HalfEmpty(lits: seq<byte>)
    requires |lits| == 0
    ensures Half(lits) == [0] && LenCost(|lits|) == 0
  {
    hide LenBytes, LenExt, Token;
    NoExtra(|lits|);
    assert |Half(lits)| == 1;
  }

  lemma NoExtra(n: nat)
    requires n < ML_MASK
    ensures LenBytes(n) == [] && Token(n, 0) == n * 16 && LenCost(n) == 0
  {
  }

  /** The token for `n` literals and the bytes of that length, after `e`. */
  function Begun(e: seq<byte>, n: nat): seq<byte> {
    e + ([Token(n, 0)] + LenBytes(n))
  }

  lemma HalfSplit(e: seq<byte>, text: seq<byte>, anchor: nat, ip: nat)
    requires anchor <= ip <= |text|
    ensures Begun(e, ip - anchor) + text[anchor..anchor + (ip - anchor)] == e + Half(text[anchor..ip])
  {
  }

  /** Token, length and literals fit below `lim`, with the bytes that the copy writes beyond them. */
  predicate LiteralRoom(op: nat, length: nat, lim: nat) {
    op + 1 + LenCost(length) + WildEnd(length) <= lim
  }

  /** What the guard of LZ4_compress_generic asks for: token, literals, their length, offset, and the end of a block. */
  function LiteralGuard(op: nat, length: nat): nat {
    op + 1 + length + (2 + 1 + LASTLITERALS) + length / 255
  }

  /** The guard leaves that room. */
  lemma LiteralGuardSuffices(op: nat, length: nat, lim: nat)
    requires LiteralGuard(op, length) <= lim
    ensures LiteralRoom(op, length, lim) && op + 1 + LenCost(length) + length + 2 <= lim
  {
  }

  lemma TokenParts(e: seq<byte>, n: nat)
    ensures n >= RUN_MASK ==>
              e + [RUN_MASK * 16 as byte] + LenExt(n - RUN_MASK) == Begun(e, n)
    ensures n < RUN_MASK ==> e + [n * 16 as byte] == Begun(e, n)
  {
    hide LenExt;
    if n >= RUN_MASK {
      assert Token(n, 0) == RUN_MASK * 16;
    } else {
      assert LenBytes(n) == [];
    }
  }

  /** Token and literal length. */
  method PutToken(dst: array<byte>, op: nat, litLength: nat, ghost e: seq<byte>) returns (op': nat)
    requires Has(dst, op, e) && op + 1 + LenCost(litLength) <= dst.Length
    modifies dst
    ensures op' == op + 1 + LenCost(litLength)
    ensures Has(dst, op', Begun(e, litLength))
    ensures forall k :: op' <= k < dst.Length ==> dst[k] == old(dst[k])
  {
    TokenParts(e, litLength);
    hide LenExt, LenBytes, Token, Begun;
    if litLength >= RUN_MASK {
      PutByte(dst, op, RUN_MASK * 16, e);
      op' := PutLength(dst, op + 1, litLength - RUN_MASK, e + [RUN_MASK * 16 as byte]);
    } else {
      PutByte(dst, op, litLength * 16, e);
      op' := op + 1;
    }
  }

  /** Token, length and literals of a sequence. */
  method PutLiterals(text: seq<byte>, anchor: nat, ip: nat, dst: array<byte>, op: nat, ghost lim: nat,
                     ghost e: seq<byte>)
    returns (op': nat)
    requires anchor <= ip && ip + 8 <= |text|
    requires Has(dst, op, e) && LiteralRoom(op, ip - anchor, lim) && lim <= dst.Length
    modifies dst
    ensures op' == op + 1 + LenCost(ip - anchor) + (ip - anchor)
    ensures Has(dst, op', e + Half(text[anchor..ip])) && WildTail(text, ip, dst, op', ip - anchor)
    ensures forall k :: lim <= k < dst.Length ==> dst[k] == old(dst[k])
  {
    var length := ip - anchor;
    assert op + 1 + LenCost(length) + WildEnd(length) <= lim;
    HalfSplit(e, text, anchor, ip);
    hide *;
    op' := PutToken(dst, op, length, e);
    WildCopyFrom(text, anchor, dst, op', length, Begun(e, length));
    op' := op' + length;
  }

  // ---------- match lengths ----------

  /** What the guard of the match length asks for. */
  function MatchGuard(op: nat, mcode: nat): nat {
    op + (1 + LASTLITERALS) + mcode / 256
  }

  /** The match codes that the guard, which divides by 256, protects. */
  predicate Guarded(mcode: nat) {
    mcode < ML_MASK || (mcode - ML_MASK) / 255 <= mcode / 256 + 2
  }

  /** For exactly these the guard leaves room for the bytes of the length, for those that are written four at a time
      beyond them, and for a token and an offset that follow without a test. */
  lemma GuardExact(op: nat, mcode: nat)
    ensures op + LenCost(mcode) + 3 <= MatchGuard(op, mcode) <==> Guarded(mcode)
  {
  }

  /** Up to this match code all of them are protected; it is that of a match in an input of GUARDED_SIZE bytes. */
  const GUARDED := 134654
  const GUARDED_SIZE := GUARDED + 1 + MINMATCH + LASTLITERALS

  lemma GuardedUpTo(n: nat)
    ensures (forall mcode: nat :: mcode <= n ==> Guarded(mcode)) <==> n <= GUARDED
  {
    assert !Guarded(GUARDED + 1);
  }

  lemma GuardedCode(mcode: nat)
    ensures mcode <= GUARDED ==> Guarded(mcode)
  {
    GuardedUpTo(GUARDED);
  }

  /** What a guard that divides by 256 counts grows more slowly than what is written, by one byte in 65280. */
  lemma Quotients(n: nat)
    requires n >= 15
    ensures (n - 15) / 255 - n / 256 <= (n + 61185) / 65280
  {
    var a, b := (n - 15) / 255, n / 256;
    assert 255 * a <= n - 15 && n - 255 <= 256 * b;
    assert 65280 * (a - b) <= n + 61185;
  }

  /** How far the speculative writes for a match length reach: they come in fours. */
  function FillEnd(mcode: nat): nat
    requires ML_MASK <= mcode
  {
    4 * ((mcode - ML_MASK) / 1020) + 4
  }

  /** The speculative writes for a match length at `op` have left 255s behind its end at `op'`. */
  ghost predicate Spilled(dst: array<byte>, op': nat, op: nat, mcode: nat)
    reads dst
  {
    ML_MASK <= mcode ==> forall k :: op' <= k < op + FillEnd(mcode) && k < dst.Length ==> dst[k] == 255
  }

  lemma NothingSpilled(dst: array<byte>, op': nat, op: nat, mcode: nat)
    ensures mcode < ML_MASK ==> Spilled(dst, op', op, mcode)
  {
  }

  /** The 255s of a match length, four at a time, written before it is known that they are needed. */
  method PutFours(dst: array<byte>, op: nat, mcode: nat, ghost lim: nat, ghost e: seq<byte>)
    returns (op': nat, matchCode: nat, ghost x: seq<byte>, ghost j: nat)
    requires Has(dst, op, e) && ML_MASK <= mcode && op + LenCost(mcode) + 3 <= lim <= dst.Length
    modifies dst
    ensures op' == op + 4 * j && matchCode == mcode - ML_MASK - 1020 * j < 1020 && op' + 4 <= lim
    ensures Has(dst, op', x) && Completes(x, matchCode, e + LenBytes(mcode))
    ensures dst[op'] == dst[op' + 1] == dst[op' + 2] == dst[op' + 3] == 255
    ensures forall k :: lim <= k < dst.Length ==> dst[k] == old(dst[k])
  {
    matchCode := mcode - ML_MASK;
    op', x, j := op, e, 0;
    assert Completes(x, matchCode, e + LenBytes(mcode));
    hide *;
    FillRoom(mcode, j);
    PutFour(dst, op', x);
    while matchCode >= 4 * 255
      invariant matchCode == mcode - ML_MASK - 1020 * j && op' == op + 4 * j && op' + 4 <= lim
      invariant Has(dst, op', x) && Completes(x, matchCode, e + LenBytes(mcode))
      invariant dst[op'] == dst[op' + 1] == dst[op' + 2] == dst[op' + 3] == 255
      invariant forall k :: lim <= k < dst.Length ==> dst[k] == old(dst[k])
    {
      FourMore(matchCode, x, e + LenBytes(mcode));
      HasMore(dst, op', x, 4);
      op', j := op' + 4, j + 1;
      x := x + Fill(4);
      FillRoom(mcode, j);
      PutFour(dst, op', x);
      matchCode := matchCode - 4 * 255;
    }
  }

  /** Extra bytes of a match length: as many of those 255s as are needed, and the rest. */
  method PutMatchLength(dst: array<byte>, op: nat, mcode: nat, ghost lim: nat, ghost e: seq<byte>) returns (op': nat)
    requires Has(dst, op, e) && ML_MASK <= mcode && op + LenCost(mcode) + 3 <= lim <= dst.Length
    modifies dst
    ensures op' == op + LenCost(mcode) && Has(dst, op', e + LenBytes(mcode))
    ensures Spilled(dst, op', op, mcode)
    ensures forall k :: lim <= k < dst.Length ==> dst[k] == old(dst[k])
  {
    hide LenExt, LenBytes, Has, LenCost, FillEnd;
    var o, matchCode;
    ghost var x, j;
    o, matchCode, x, j := PutFours(dst, op, mcode, lim, e);
    FillEnds(mcode, j);
    FewMore(matchCode, x);
    var k := matchCode / 255;
    HasMore(dst, o, x, k);
    PutByte(dst, o + k, matchCode % 255, x + Fill(k));
    op' := o + k + 1;
  }

  lemma FillRoom(mcode: nat, j: nat)
    requires ML_MASK <= mcode && 1020 * j <= mcode - ML_MASK
    ensures 4 * j + 4 <= LenCost(mcode) + 3
  {
  }

  lemma FillEnds(mcode: nat, j: nat)
    requires ML_MASK <= mcode && 1020 * j <= mcode - ML_MASK < 1020 * j + 1020
    ensures FillEnd(mcode) == 4 * j + 4
    ensures LenCost(mcode) == 4 * j + (mcode - ML_MASK - 1020 * j) / 255 + 1 && (mcode - ML_MASK - 1020 * j) / 255 <= 3
  {
  }

  /** LZ4_write32 of 0xFFFFFFFF. */
  method PutFour(dst: array<byte>, op: nat, ghost e: seq<byte>)
    requires Has(dst, op, e) && op + 4 <= dst.Length
    modifies dst
    ensures Has(dst, op, e) && dst[op] == dst[op + 1] == dst[op + 2] == dst[op + 3] == 255
    ensures forall k :: op + 4 <= k < dst.Length ==> dst[k] == old(dst[k])
  {
    dst[op], dst[op + 1], dst[op + 2], dst[op + 3] := 255, 255, 255, 255;
  }

  function Fill(k: nat): seq<byte> {
    seq(k, i => 255)
  }

  lemma HasMore(dst: array<byte>, op: nat, e: seq<byte>, k: nat)
    requires Has(dst, op, e) && k <= 4 && op + 4 <= dst.Length
    requires dst[op] == dst[op + 1] == dst[op + 2] == dst[op + 3] == 255
    ensures Has(dst, op + k, e + Fill(k))
  {
  }

  /** With the extra bytes for `n` after it, `x` is `goal`. */
  predicate Completes(x: seq<byte>, n: nat, goal: seq<byte>) {
    x + LenExt(n) == goal
  }

  lemma FourMore(n: nat, x: seq<byte>, goal: seq<byte>)
    requires n >= 4 * 255 && Completes(x, n, goal)
    ensures Completes(x + Fill(4), n - 4 * 255, goal)
  {
    LenExtStep(n, x);
    LenExtStep(n - 255, x + [255]);
    LenExtStep(n - 510, x + [255] + [255]);
    LenExtStep(n - 765, x + [255] + [255] + [255]);
    assert x + [255] + [255] + [255] + [255] == x + Fill(4);
  }

  lemma {:induction false} FewMore(n: nat, x: seq<byte>)
    ensures x + LenExt(n) == x + Fill(n / 255) + [n % 255]
    decreases n
  {
    if n >= 255 {
      FewMore(n - 255, x + [255]);
      LenExtStep(n, x);
      assert x + [255] + Fill((n - 255) / 255) == x + Fill(n / 255);
    }
  }

  // ---------- whole sequences ----------

  /** LZ4_writeLE16. */
  method PutOffset(dst: array<byte>, op: nat, off: u16, ghost e: seq<byte>)
    requires Has(dst, op, e) && op + 2 <= dst.Length
    modifies dst
    ensures Has(dst, op + 2, e + OffsetBytes(off))
    ensures forall k :: op + 2 <= k < dst.Length ==> dst[k] == old(dst[k])
  {
    dst[op] := off % 256;
    dst[op + 1] := off / 256;
  }

  /** A sequence without the extra bytes of its match length. */
  function Head(s: Sequence): seq<byte> {
    [Token(|s.lits|, s.len - MINMATCH)] + LenBytes(|s.lits|) + s.lits + OffsetBytes(s.off)
  }

  function OffsetBytes(off: u16): seq<byte> {
    [off % 256, off / 256]
  }

  /** The low nibble of a token that was written before the match was known. */
  method AddToToken(dst: array<byte>, token: nat, ghost op: nat, mcode: nat, ghost e: seq<byte>, ghost s: Sequence)
    requires token == |e| && s.len == mcode + MINMATCH && Has(dst, op, e + Half(s.lits) + OffsetBytes(s.off))
    modifies dst
    ensures Has(dst, op, e + Head(s))
    ensures forall k :: op <= k < dst.Length ==> dst[k] == old(dst[k])
  {
    ghost var before := dst[..op];
    TokenFirst(e, s);
    hide Half, Head, OffsetBytes;
    assert dst[token] == before[token];
    dst[token] := dst[token] + (if mcode >= ML_MASK then ML_MASK else mcode);
    assert dst[..op] == before[token := dst[token]];
  }

  lemma TokenFirst(e: seq<byte>, s: Sequence)
    ensures var x, y := e + Half(s.lits) + OffsetBytes(s.off), e + Head(s);
            && |e| < |x| == |y| && x[|e|] == Token(|s.lits|, 0) && x[|e| := Token(|s.lits|, s.len - MINMATCH)] == y
  {
    hide LenBytes, Token;
  }

  lemma HeadMore(e: seq<byte>, s: Sequence)
    ensures e + Head(s) + LenBytes(s.len - MINMATCH) == e + EncodeSeq(s)
    ensures s.len - MINMATCH < ML_MASK ==> e + Head(s) == e + EncodeSeq(s)
  {
    assert EncodeSeq(s) == Head(s) + LenBytes(s.len - MINMATCH);
  }

  /** Offset and match length of a sequence whose token and literals are already there; may find that the output is
      too small. */
  method PutMatch(dst: array<byte>, token: nat, op: nat, limited: bool, olimit: nat, ghost lim: nat, ghost e: seq<byte>,
                  off: u16, mcode: nat, ghost lits: seq<byte>) returns (ok: bool, op': nat)
    requires token == |e| && Has(dst, op, e + Half(lits)) && op + 2 <= lim <= dst.Length
    requires (limited && MatchGuard(op + 2, mcode) > olimit) || op + 2 + LenCost(mcode) + 3 <= lim
    modifies dst
    ensures !ok <==> limited && MatchGuard(op + 2, mcode) > olimit
    ensures ok ==> op' == op + 2 + LenCost(mcode) && Has(dst, op', e + EncodeSeq(Sequence(lits, off, mcode + MINMATCH)))
    ensures ok ==> op' + 3 <= lim
    ensures ok ==> Spilled(dst, op', op + 2, mcode)
    ensures forall k :: lim <= k < dst.Length ==> dst[k] == old(dst[k])
  {
    hide *;
    ghost var s := Sequence(lits, off, mcode + MINMATCH);
    HeadMore(e, s);
    PutOffset(dst, op, off, e + Half(lits));
    op' := op + 2;
    if limited && MatchGuard(op', mcode) > olimit {
      return false, op';
    }
    AddToToken(dst, token, op', mcode, e, s);
    if mcode >= ML_MASK {
      op' := PutMatchLength(dst, op', mcode, lim, e + Head(s));
    } else {
      NoExtra(mcode);
      NothingSpilled(dst, op', op', mcode);
    }
    ok := true;
  }

  /** Offset and match length, one byte after the other. */
  method PutMatchPlain(dst: array<byte>, token: nat, op: nat, ghost e: seq<byte>, off: u16, mcode: nat,
                       ghost lits: seq<byte>) returns (op': nat)
    requires token == |e| && Has(dst, op, e + Half(lits)) && op + 2 + LenCost(mcode) <= dst.Length
    modifies dst
    ensures op' == op + 2 + LenCost(mcode) && Has(dst, op', e + EncodeSeq(Sequence(lits, off, mcode + MINMATCH)))
    ensures forall k :: op' <= k < dst.Length ==> dst[k] == old(dst[k])
  {
    ghost var s := Sequence(lits, off, mcode + MINMATCH);
    HeadMore(e, s);
    if mcode >= ML_MASK {
      ExtraBytes(mcode);
    } else {
      NoExtra(mcode);
    }
    hide *;
    PutOffset(dst, op, off, e + Half(lits));
    op' := op + 2;
    AddToToken(dst, token, op', mcode, e, s);
    if mcode >= ML_MASK {
      op' := PutLength(dst, op', mcode - ML_MASK, e + Head(s));
    }
  }

  lemma ExtraBytes(mcode: nat)
    requires mcode >= ML_MASK
    ensures LenCost(mcode) == (mcode - ML_MASK) / 255 + 1 && LenBytes(mcode) == LenExt(mcode - ML_MASK)
  {
  }

  /** The last literals of a block: a plain memcpy. */
  method PutLast(text: seq<byte>, anchor: nat, dst: array<byte>, op: nat, ghost e: seq<byte>) returns (op': nat)
    requires anchor <= |text|
    requires Has(dst, op, e) && op + 1 + LenCost(|text| - anchor) + |text| - anchor <= dst.Length
    modifies dst
    ensures op' == op + 1 + LenCost(|text| - anchor) + |text| - anchor
    ensures Has(dst, op', e + EncodeLast(text[anchor..]))
    ensures forall k :: op' <= k < dst.Length ==> dst[k] == old(dst[k])
  {
    var lastRun := |text| - anchor;
    assert e + ([Token(lastRun, 0)] + LenBytes(lastRun)) + text[anchor..] == e + EncodeLast(text[anchor..]);
    var o := PutToken(dst, op, lastRun, e);
    ghost var x := e + ([Token(lastRun, 0)] + LenBytes(lastRun));
    hide LenBytes, LenCost, Token, EncodeLast;
    CopyLast(text, anchor, dst, o, x);
    op' := o + lastRun;
  }

  method CopyLast(text: seq<byte>, anchor: nat, dst: array<byte>, op: nat, ghost e: seq<byte>)
    requires anchor <= |text| && Has(dst, op, e) && op + |text| - anchor <= dst.Length
    modifies dst
    ensures Has(dst, op + |text| - anchor, e + text[anchor..])
    ensures forall k :: op + |text| - anchor <= k < dst.Length ==> dst[k] == old(dst[k])
  {
    forall i | 0 <= i < |text| - anchor {
      dst[op + i] := text[anchor + i];
    }
  }
}
