/** Round trip and size of blocks, for any list of sequences an encoder may choose. */
module Lz4RoundTrip {
  import opened Bytes
  import opened Lz4Format

  lemma AtConcat(e: seq<byte>, p: nat, x: seq<byte>, y: seq<byte>)
    requires At(e, p, x + y)
    ensures At(e, p, x) && At(e, p + |x|, y)
  {
    var z := x + y;
    forall i | 0 <= i < |x|
      ensures e[p + i] == x[i]
    {
      assert z[i] == x[i];
    }
    forall i | 0 <= i < |y|
      ensures e[p + |x| + i] == y[i]
    {
      assert z[|x| + i] == y[i];
    }
  }

  lemma AtSlice(e: seq<byte>, p: nat, x: seq<byte>)
    requires At(e, p, x)
    ensures p + |x| <= |e| && e[p..p + |x|] == x
  {
  }

  lemma {:induction false} ReadLenExt(e: seq<byte>, ip: nat, n: nat)
    requires At(e, ip, LenExt(n))
    ensures ReadExt(e, ip) == Some((n, ip + |LenExt(n)|))
    decreases n
  {
    assert e[ip] == LenExt(n)[0];
    if n >= 255 {
      AtConcat(e, ip, [255], LenExt(n - 255));
      ReadLenExt(e, ip + 1, n - 255);
    }
  }

  lemma ReadLenBytes(e: seq<byte>, ip: nat, n: nat)
    requires At(e, ip, LenBytes(n))
    ensures ReadLen(e, Nibble(n), ip) == Some((n, ip + LenCost(n)))
  {
    LenBytesSize(n);
    if n >= RUN_MASK {
      ReadLenExt(e, ip, n - RUN_MASK);
    }
  }

  function SeqCost(s: Sequence): nat {
    1 + LenCost(|s.lits|) + |s.lits| + 2 + LenCost(s.len - MINMATCH)
  }

  lemma EncodeSeqSize(s: Sequence)
    ensures |EncodeSeq(s)| == SeqCost(s)
  {
    LenBytesSize(|s.lits|);
    LenBytesSize(s.len - MINMATCH);
  }

  lemma EncodeLastSize(lits: seq<byte>)
    ensures |EncodeLast(lits)| == 1 + LenCost(|lits|) + |lits|
  {
    LenBytesSize(|lits|);
  }

  lemma ParseEncoded(e: seq<byte>, p: nat, s: Sequence)
    requires At(e, p, EncodeSeq(s))
    ensures ParseSeq(e, p)
         == Seq(p + 1 + LenCost(|s.lits|), |s.lits|, s.off, s.len, p + SeqCost(s))
    ensures At(e, p + 1 + LenCost(|s.lits|), s.lits)
  {
    hide LenBytes, ReadLen, LenCost;
    var ll, mcode := |s.lits|, s.len - MINMATCH;
    LenBytesSize(ll);
    LenBytesSize(mcode);
    var t, x, o, y := [Token(ll, mcode)], LenBytes(ll), [s.off % 256, s.off / 256], LenBytes(mcode);
    var lit := p + 1 + |x|;
    AtConcat(e, p, t + x + s.lits + o, y);
    AtConcat(e, p, t + x + s.lits, o);
    AtConcat(e, p, t + x, s.lits);
    AtConcat(e, p, t, x);
    assert e[p] == t[0];
    ReadLenBytes(e, p + 1, ll);
    assert e[lit + ll] == o[0] && e[lit + ll + 1] == o[1];
    ReadLenBytes(e, lit + ll + 2, mcode);
  }

  lemma ParseEncodedLast(e: seq<byte>, p: nat, lits: seq<byte>)
    requires At(e, p, EncodeLast(lits)) && |e| == p + |EncodeLast(lits)|
    ensures ParseSeq(e, p) == Last(p + 1 + LenCost(|lits|))
    ensures e[p + 1 + LenCost(|lits|)..] == lits
  {
    hide LenBytes, ReadLen, LenCost;
    LenBytesSize(|lits|);
    var t, x := [Token(|lits|, 0)], LenBytes(|lits|);
    AtConcat(e, p, t + x, lits);
    AtConcat(e, p, t, x);
    assert e[p] == t[0];
    ReadLenBytes(e, p + 1, |lits|);
  }

  lemma RepeatsSlice(text: seq<byte>, m: nat, len: nat, off: nat)
    requires off <= m && m + len <= |text| && Repeats(text, m, m + len, off)
    ensures Repeats(text[..m + len], m, m + len, off)
  {
  }

  /** One sequence of a conforming block is accepted by the safe decoder, and extends the text. */
  lemma StepDecode(e: seq<byte>, p: nat, s: Sequence, text: seq<byte>, a: nat, lo: nat, oend: nat)
    requires At(e, p, EncodeSeq(s)) && p + |EncodeSeq(s)| + LASTLITERALS < |e|
    requires Spells(text, a, s)
    requires var m := a + |s.lits|; m + MFLIMIT <= oend && m + s.len + LASTLITERALS <= oend
    ensures BlockDecode(e, p, text[..a], lo, oend)
         == BlockDecode(e, p + |EncodeSeq(s)|, text[..a + |s.lits| + s.len], lo, oend)
  {
    hide EncodeSeq, ParseSeq, CopyMatch, LenCost, Repeats, At;
    EncodeSeqSize(s);
    ParseEncoded(e, p, s);
    AtSlice(e, p + 1 + LenCost(|s.lits|), s.lits);
    AtSlice(text, a, s.lits);
    var m := a + |s.lits|;
    var q := ParseSeq(e, p);
    assert text[..a] + text[a..m] == text[..m];
    assert Strict(e, q, m, oend);
    RepeatsSlice(text, m, s.len, s.off);
    CopyMatchUnique(text[..m], s.off, s.len, text[..m + s.len]);
  }

  lemma {:induction false} BuildsRange(text: seq<byte>, start: nat, p: Parse, pos: int)
    requires Builds(text, start, p, pos)
    ensures start <= pos <= |text|
    ensures p.Then? ==> start < pos
  {
    if p.Then? {
      BuildsRange(text, start, p.front, pos - p.last.len - |p.last.lits|);
    }
  }

  lemma {:induction false} DecodeSeqs(e: seq<byte>, p: Parse, text: seq<byte>, start: nat, pos: nat, lo: nat, oend: nat)
    requires At(e, 0, EncodeSeqs(p)) && |EncodeSeqs(p)| + LASTLITERALS < |e|
    requires start <= pos <= |text| && Builds(text, start, p, pos) && Conforms(p, pos, oend)
    ensures BlockDecode(e, 0, text[..start], lo, oend) == BlockDecode(e, |EncodeSeqs(p)|, text[..pos], lo, oend)
  {
    hide *;
    match p
    case Start => StartParts(text, start, pos, oend);
    case Then(front, s) =>
      var a := ThenParts(text, start, front, s, pos, oend);
      AtConcat(e, 0, EncodeSeqs(front), EncodeSeq(s));
      DecodeSeqs(e, front, text, start, a, lo, oend);
      StepDecode(e, |EncodeSeqs(front)|, s, text, a, lo, oend);
  }

  lemma StartParts(text: seq<byte>, start: nat, pos: nat, oend: nat)
    requires Builds(text, start, Start, pos)
    ensures pos == start && EncodeSeqs(Start) == []
  {
  }

  lemma ThenParts(text: seq<byte>, start: nat, front: Parse, s: Sequence, pos: nat, oend: nat) returns (a: nat)
    requires Builds(text, start, Then(front, s), pos) && Conforms(Then(front, s), pos, oend)
    ensures a + |s.lits| + s.len == pos && start <= a <= pos
    ensures Builds(text, start, front, a) && Conforms(front, a, oend) && Spells(text, a, s)
    ensures a + |s.lits| + MFLIMIT <= oend && pos + LASTLITERALS <= oend
    ensures EncodeSeqs(Then(front, s)) == EncodeSeqs(front) + EncodeSeq(s)
  {
    hide Spells, EncodeSeq;
    a := pos - s.len - |s.lits|;
  }

  lemma {:induction false} ConformsMonotone(p: Parse, pos: int, end: int, end': int)
    requires Conforms(p, pos, end) && end <= end'
    ensures Conforms(p, pos, end')
  {
    match p
    case Start =>
    case Then(front, s) => ConformsMonotone(front, pos - s.len - |s.lits|, end, end');
  }

  lemma DecodeLast(e: seq<byte>, p: nat, text: seq<byte>, pos: nat, lo: nat, oend: nat)
    requires pos <= |text| <= oend
    requires At(e, p, EncodeLast(text[pos..])) && |e| == p + |EncodeLast(text[pos..])|
    ensures BlockDecode(e, p, text[..pos], lo, oend) == Some(text)
  {
    hide EncodeLast, ParseSeq;
    ParseEncodedLast(e, p, text[pos..]);
    assert text[..pos] + text[pos..] == text;
  }

  /** The block an encoder emits for `text[start..]` once its parse has reached `pos`. */
  function Block(p: Parse, text: seq<byte>, pos: nat): seq<byte>
    requires pos <= |text|
  {
    EncodeSeqs(p) + EncodeLast(text[pos..])
  }

  lemma DecodeBlock(p: Parse, text: seq<byte>, start: nat, pos: nat, lo: nat, oend: nat)
    requires start <= pos <= |text| <= oend && Builds(text, start, p, pos) && Conforms(p, pos, |text|)
    ensures BlockDecode(Block(p, text, pos), 0, text[..start], lo, oend) == Some(text)
  {
    var n := |EncodeSeqs(p)|;
    var e := Block(p, text, pos);
    assert At(e, 0, EncodeSeqs(p)) && At(e, n, EncodeLast(text[pos..]));
    EncodeLastSize(text[pos..]);
    ConformsMonotone(p, pos, |text|, oend);
    if p.Then? {
      hide *;
      DecodeSeqs(e, p, text, start, pos, lo, oend);
      DecodeLast(e, n, text, pos, lo, oend);
    } else {
      hide BlockDecode;
      DecodeLast(e, n, text, pos, lo, oend);
    }
  }

  /** Round trip, for any parse of the text: whatever the capacity, as long as the text fits. */
  lemma BlockRoundTrip(p: Parse, text: seq<byte>, start: nat, pos: nat, lo: nat, cap: nat)
    requires start <= pos <= |text| <= start + cap && Builds(text, start, p, pos) && Conforms(p, pos, |text|)
    ensures SafeDecode(Block(p, text, pos), text[..start], lo, cap) == Some(text)
  {
    hide BlockDecode;
    DecodeBlock(p, text, start, pos, lo, start + cap);
    if cap == 0 {
      BuildsRange(text, start, p, pos);
      assert text[pos..] == [] && text[..start] == text;
    }
  }

  /** The block decodes, after the history, to the whole text, whatever room the decoder is given beyond that. */
  ghost predicate DecodesTo(block: seq<byte>, history: seq<byte>, whole: seq<byte>) {
    forall lo: nat, cap: nat :: |whole| <= |history| + cap ==> SafeDecode(block, history, lo, cap) == Some(whole)
  }

  /** An encoded parse, closed by the last literals, decodes to the text. */
  lemma ParseDecodes(text: seq<byte>, start: nat, p: Parse, pos: nat)
    requires start <= pos <= |text| && Builds(text, start, p, pos) && Conforms(p, pos, |text|)
    ensures DecodesTo(Block(p, text, pos), text[..start], text)
  {
    hide SafeDecode, Builds, Conforms, Block;
    forall lo: nat, cap: nat | |text| <= |text[..start]| + cap
      ensures SafeDecode(Block(p, text, pos), text[..start], lo, cap) == Some(text)
    {
      BlockRoundTrip(p, text, start, pos, lo, cap);
    }
  }

  lemma BlockParts(p: Parse, text: seq<byte>, pos: nat)
    requires pos <= |text|
    ensures Block(p, text, pos) == EncodeSeqs(p) + EncodeLast(text[pos..])
  {
  }

  // ---------- known bytes ----------

  /** The token, the literal, the offset with its lower byte first, and the rest of the length in steps of 255. */
  lemma KnownSequence()
    ensures EncodeSeq(Sequence([97], 0x0201, 276)) == [0x1f, 97, 0x01, 0x02, 255, 2]
    ensures EncodeLast([98, 99, 100]) == [0x30, 98, 99, 100]
  {
    LenExtOnce(257);
    LenExtOnce(2);
  }

  lemma LenExtOnce(n: nat)
    ensures LenExt(n) == if n >= 255 then [255] + LenExt(n - 255) else [n]
  {
  }

  lemma KnownParts()
    ensures EncodeSeq(Sequence([97], 1, 20)) == [0x1f, 97, 0x01, 0x00, 1]
    ensures EncodeLast([98, 98, 98, 98, 98]) == [0x50, 98, 98, 98, 98, 98]
  {
    LenExtOnce(1);
  }

  /** The bytes of a block, and what they decode to: one byte, twenty more of it, five others. */
  lemma KnownBlock(text: seq<byte>)
    requires |text| == 26 && forall i :: 0 <= i < 26 ==> text[i] == if i < 21 then 97 else 98
    ensures DecodesTo([0x1f, 97, 0x01, 0x00, 1, 0x50, 98, 98, 98, 98, 98], [], text)
  {
    hide SafeDecode, LenExt, DecodesTo, Block, EncodeSeq, EncodeLast;
    var s := Sequence([97], 1, 20);
    var p := Then(Start, s);
    KnownParts();
    assert text[21..] == [98, 98, 98, 98, 98];
    assert Builds(text, 0, Start, 0) && Spells(text, 0, s);
    ParseDecodes(text, 0, p, 21);
    BlockParts(p, text, 21);
    assert text[..0] == [];
    assert EncodeSeqs(Start) == [];
    assert EncodeSeqs(p) + EncodeLast(text[21..]) == [0x1f, 97, 0x01, 0x00, 1, 0x50, 98, 98, 98, 98, 98];
  }

  // ---------- size of a block ----------

  /** What n bytes may become: one more byte for each 255. */
  function Grown(n: nat): nat { n + n / 255 }

  /** LZ4_compressBound. */
  function Bound(n: nat): nat { Grown(n) + 16 }

  lemma FloorSum(a: nat, b: nat)
    ensures a / 255 + b / 255 <= (a + b) / 255
  {
  }

  /** A sequence never costs more than one byte per 255 literals over what it stands for. */
  lemma SeqCostBound(s: Sequence)
    ensures SeqCost(s) <= |s.lits| + s.len + |s.lits| / 255
  {
  }

  lemma {:induction false} SeqsSizeBound(text: seq<byte>, start: nat, p: Parse, pos: nat)
    requires Builds(text, start, p, pos)
    ensures start <= pos <= |text|
    ensures |EncodeSeqs(p)| <= Grown(pos - start)
  {
    match p
    case Start =>
    case Then(front, s) =>
      hide SeqCost, EncodeSeq;
      var a := pos - s.len - |s.lits|;
      SeqsSizeBound(text, start, front, a);
      EncodeSeqSize(s);
      SeqCostBound(s);
      FloorSum(a - start, |s.lits|);
  }

  /** Worst case of any block of n bytes: n + n / 255 + 16. */
  lemma BlockSizeBound(p: Parse, text: seq<byte>, start: nat, pos: nat)
    requires pos <= |text| && Builds(text, start, p, pos)
    ensures start <= |text| && |Block(p, text, pos)| <= Bound(|text| - start)
  {
    SeqsSizeBound(text, start, p, pos);
    EncodeLastSize(text[pos..]);
    FloorSum(pos - start, |text| - pos);
  }

  // ---------- growing a parse ----------

  /** The text a parse was made for may be extended or cut beyond its end. */
  lemma {:induction false} BuildsExtend(text: seq<byte>, text': seq<byte>, start: nat, p: Parse, pos: nat)
    requires Builds(text, start, p, pos) && pos <= |text'|
    requires forall k :: 0 <= k < pos && k < |text| ==> text[k] == text'[k]
    ensures Builds(text', start, p, pos)
  {
    match p
    case Start =>
    case Then(front, s) => BuildsExtend(text, text', start, front, pos - s.len - |s.lits|);
  }
}
