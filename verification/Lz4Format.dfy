/**
 The LZ4 block format, as sequences of "literals, then a match", together with two reference decoders that work one
 byte at a time:
  - NaiveDecode gives the meaning of a block and knows nothing about buffers;
  - BlockDecode has the same meaning, but also says exactly which blocks LZ4_decompress_safe agrees to decode.
 Every encoder and every fast decoder of this project is related to these functions.
 */
module Lz4Format {
  import opened Bytes

  const MINMATCH := 4
  const LASTLITERALS := 5
  const MFLIMIT := 12
  const RUN_MASK := 15
  const ML_MASK := 15
  const MAX_DISTANCE := 65535
  const MAX_INPUT_SIZE := 0x7E00_0000

  type matchlen = x: int | MINMATCH <= x witness MINMATCH

  /** One sequence: literals, followed by a match of `len` bytes found `off` bytes back. */
  datatype Sequence = Sequence(lits: seq<byte>, off: u16, len: matchlen)

  /** The sequences of a block, in the order an encoder emits them. */
  datatype Parse = Start | Then(front: Parse, last: Sequence)

  // ---------- lengths ----------

  /** The 255-coded rest of a length that did not fit its nibble. */
  function LenExt(n: nat): seq<byte> {
    if n >= 255 then [255] + LenExt(n - 255) else [n]
  }

  function LenBytes(n: nat): seq<byte> {
    if n >= RUN_MASK then LenExt(n - RUN_MASK) else []
  }

  function Nibble(n: nat): (r: nat)
    ensures r <= 15
  {
    if n >= RUN_MASK then RUN_MASK else n
  }

  function Token(ll: nat, mcode: nat): byte {
    Nibble(ll) * 16 + Nibble(mcode)
  }

  /** Number of bytes LenBytes takes. */
  function LenCost(n: nat): nat {
    if n >= RUN_MASK then (n - RUN_MASK) / 255 + 1 else 0
  }

  lemma {:induction false} LenExtSize(n: nat)
    ensures |LenExt(n)| == n / 255 + 1
  {
    if n >= 255 {
      LenExtSize(n - 255);
    }
  }

  lemma LenBytesSize(n: nat)
    ensures |LenBytes(n)| == LenCost(n)
  {
    if n >= RUN_MASK {
      LenExtSize(n - RUN_MASK);
    }
  }

  /** The bytes `x` stand in `e` at position `p`. */
  predicate At(e: seq<byte>, p: nat, x: seq<byte>) {
    p + |x| <= |e| && forall i :: 0 <= i < |x| ==> e[p + i] == x[i]
  }

  // ---------- encoding ----------

  function EncodeSeq(s: Sequence): seq<byte> {
    [Token(|s.lits|, s.len - MINMATCH)] + LenBytes(|s.lits|) + s.lits
    + [s.off % 256, s.off / 256] + LenBytes(s.len - MINMATCH)
  }

  function EncodeSeqs(p: Parse): seq<byte> {
    match p
    case Start => []
    case Then(front, s) => EncodeSeqs(front) + EncodeSeq(s)
  }

  function EncodeLast(lits: seq<byte>): seq<byte> {
    [Token(|lits|, 0)] + LenBytes(|lits|) + lits
  }

  // ---------- decoding, one byte at a time ----------

  function ReadLE16(b0: nat, b1: nat): nat {
    b0 + 256 * b1
  }

  function ReadExt(src: seq<byte>, ip: nat): (r: Option<(nat, nat)>)
    ensures r.Some? ==> ip < r.value.1 <= |src|
    decreases |src| - ip
  {
    if ip >= |src| then None
    else if src[ip] != 255 then Some((src[ip], ip + 1))
    else match ReadExt(src, ip + 1)
      case None => None
      case Some(r) => Some((r.0 + 255, r.1))
  }

  /** The length announced by a nibble, and the position after its extra bytes. */
  function ReadLen(src: seq<byte>, nibble: nat, ip: nat): (r: Option<(nat, nat)>)
    requires ip <= |src|
    ensures r.Some? ==> ip <= r.value.1 <= |src|
  {
    if nibble < 15 then Some((nibble, ip))
    else match ReadExt(src, ip)
      case None => None
      case Some(r) => Some((15 + r.0, r.1))
  }

  /** What one parsing step finds at a token position. */
  datatype Parsed =
    | Malformed
    | Last(lit: nat)
    | Seq(lit: nat, ll: nat, off: nat, len: nat, next: nat)

  function ParseSeq(src: seq<byte>, ip: nat): (r: Parsed)
    ensures r.Last? ==> ip < r.lit <= |src|
    ensures r.Seq? ==> ip < r.lit && r.lit + r.ll + 2 <= r.next <= |src| && r.len >= MINMATCH && r.off < 0x1_0000
  {
    if ip >= |src| then Malformed
    else match ReadLen(src, src[ip] / 16, ip + 1)
      case None => Malformed
      case Some((ll, lit)) =>
        if lit + ll == |src| then Last(lit)
        else if lit + ll + 2 > |src| then Malformed
        else
          var off := ReadLE16(src[lit + ll], src[lit + ll + 1]);
          match ReadLen(src, src[ip] % 16, lit + ll + 2)
          case None => Malformed
          case Some((mcode, next)) => Seq(lit, ll, off, mcode + MINMATCH, next)
  }

  /** Copy `len` bytes from `off` bytes back, one at a time; offset 0 stands for zero bytes. */
  function CopyMatch(out: seq<byte>, off: nat, len: nat): (r: seq<byte>)
    requires off <= |out|
    ensures |r| == |out| + len
    decreases len
  {
    if len == 0 then out
    else CopyMatch(out + [if off == 0 then 0 else out[|out| - off]], off, len - 1)
  }

  /** Meaning of a block: everything it decodes to, after the history `out`. */
  function NaiveDecode(src: seq<byte>, ip: nat, out: seq<byte>): Option<seq<byte>>
    decreases |src| - ip
  {
    match ParseSeq(src, ip)
    case Malformed => None
    case Last(lit) => Some(out + src[lit..])
    case Seq(lit, ll, off, len, next) =>
      var lits := out + src[lit..lit + ll];
      if off > |lits| then None else NaiveDecode(src, next, CopyMatch(lits, off, len))
  }

  /** The parsing restrictions at the end of a block, for a sequence whose literals end at `olit`. */
  predicate Strict(src: seq<byte>, s: Parsed, olit: nat, oend: nat)
    requires s.Seq?
  {
    && s.lit + s.ll + 8 <= |src|
    && s.next + LASTLITERALS <= |src|
    && olit + MFLIMIT <= oend
    && olit + s.len + LASTLITERALS <= oend
  }

  /** When the decoder's shortcut for small sequences is taken; it does not look at the restrictions. */
  predicate Shortcut(src: seq<byte>, s: Parsed, ip: nat, op: nat, lo: nat, oend: nat)
    requires s.Seq?
  {
    && s.ll < 15 && s.len < 19
    && ip + 17 <= |src|
    && op + 32 <= oend
    && s.off >= 18 && lo + s.off <= op + s.ll
  }

  /** What the safe decoder computes: `out` is history plus what was decoded, `lo` where the addressable prefix
      starts in it, and `oend` the length `out` may reach. */
  function BlockDecode(src: seq<byte>, ip: nat, out: seq<byte>, lo: nat, oend: nat): (r: Option<seq<byte>>)
    ensures r.Some? ==> out <= r.value
    ensures r.Some? && |out| <= oend ==> |r.value| <= oend
    decreases |src| - ip
  {
    match ParseSeq(src, ip)
    case Malformed => None
    case Last(lit) => if |out| + |src| - lit <= oend then Some(out + src[lit..]) else None
    case Seq(lit, ll, off, len, next) =>
      var s := ParseSeq(src, ip);
      var lits := out + src[lit..lit + ll];
      if off <= |lits| && (Strict(src, s, |lits|, oend) || Shortcut(src, s, ip, |out|, lo, oend))
      then
        CopyMatchProps(lits, off, len);
        BlockDecode(src, next, CopyMatch(lits, off, len), lo, oend)
      else None
  }

  /** LZ4_decompress_safe: with no room at all, only the one-byte empty block is accepted. */
  function SafeDecode(src: seq<byte>, hist: seq<byte>, lo: nat, cap: nat): (r: Option<seq<byte>>)
    ensures r.Some? ==> hist <= r.value && |r.value| <= |hist| + cap
  {
    if cap == 0 then (if src == [0] then Some(hist) else None)
    else BlockDecode(src, 0, hist, lo, |hist| + cap)
  }

  // ---------- facts about match copies ----------

  /** Positions [from, to) of `t` repeat what stands `off` bytes before. */
  predicate Repeats(t: seq<byte>, from: nat, to: nat, off: nat)
    requires to <= |t|
    requires off <= from
  {
    forall k :: from <= k < to ==> t[k] == if off == 0 then 0 else t[k - off]
  }

  lemma {:induction false} CopyMatchProps(out: seq<byte>, off: nat, len: nat)
    requires off <= |out|
    ensures out <= CopyMatch(out, off, len)
    ensures Repeats(CopyMatch(out, off, len), |out|, |out| + len, off)
    decreases len
  {
    if len > 0 {
      var out' := out + [if off == 0 then 0 else out[|out| - off]];
      CopyMatchProps(out', off, len - 1);
      var r := CopyMatch(out', off, len - 1);
      assert r[|out|] == out'[|out|];
      assert forall k :: 0 <= k < |out| ==> r[k] == out'[k];
    }
  }

  lemma {:induction false} CopyMatchUnique(out: seq<byte>, off: nat, len: nat, t: seq<byte>)
    requires off <= |out|
    requires |t| == |out| + len && out <= t && Repeats(t, |out|, |t|, off)
    ensures t == CopyMatch(out, off, len)
    decreases len
  {
    if len > 0 {
      assert t[|out|] == if off == 0 then 0 else t[|out| - off];
      CopyMatchUnique(out + [t[|out|]], off, len - 1, t);
    }
  }

  // ---------- safe decoding refines naive decoding ----------

  lemma {:induction false} BlockRefinesNaive(src: seq<byte>, ip: nat, out: seq<byte>, lo: nat, oend: nat)
    requires BlockDecode(src, ip, out, lo, oend).Some?
    ensures BlockDecode(src, ip, out, lo, oend) == NaiveDecode(src, ip, out)
    decreases |src| - ip
  {
    var s := ParseSeq(src, ip);
    if s.Seq? {
      var lits := out + src[s.lit..s.lit + s.ll];
      BlockRefinesNaive(src, s.next, CopyMatch(lits, s.off, s.len), lo, oend);
    }
  }

  // ---------- what encoders build ----------

  /** Sequence `s` spells text[a..a + |s.lits| + s.len]: its literals are those of the text, its match is a real one. */
  predicate Spells(text: seq<byte>, a: nat, s: Sequence) {
    var m := a + |s.lits|;
    && m + s.len <= |text| && 0 < s.off <= m
    && At(text, a, s.lits)
    && Repeats(text, m, m + s.len, s.off)
  }

  /** Parse `p` spells text[start..pos]. */
  predicate Builds(text: seq<byte>, start: nat, p: Parse, pos: int) {
    match p
    case Start => pos == start <= |text|
    case Then(front, s) =>
      var a := pos - s.len - |s.lits|;
      start <= a && Spells(text, a, s) && Builds(text, start, front, a)
  }

  /** The format's restrictions: matches of `p`, which ends at `pos`, start 12 and end 5 bytes before `end`. */
  predicate Conforms(p: Parse, pos: int, end: int) {
    match p
    case Start => true
    case Then(front, s) =>
      && pos - s.len + MFLIMIT <= end
      && pos + LASTLITERALS <= end
      && Conforms(front, pos - s.len - |s.lits|, end)
  }
}
