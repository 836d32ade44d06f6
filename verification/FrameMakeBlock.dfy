/** LZ4F_makeBlock: a block is compressed in place behind its header, so that what the compressor writes beyond its
    capacity is written to the user's memory. */
module FrameMakeBlock {
  import opened Bytes
  import opened Sequences
  import opened Lz4Format
  import opened Lz4RoundTrip
  import opened Lz4Match
  import opened FrameFormat
  import opened FrameBlocks
  import opened FrameBound
  import Lz4 = Lz4Block
  import Lz4Emit
  import Lz4Fast
  import Lz4HcEmit
  import Lz4HcParser
  import Lz4Hc

  /** `x` is put into `dst` at position `at`. */
  method Put(dst: array<byte>, at: nat, x: seq<byte>)
    requires at + |x| <= dst.Length
    modifies dst
    ensures dst[..at] == old(dst[..at]) && dst[at..at + |x|] == x
    ensures forall k :: at + |x| <= k < dst.Length ==> dst[k] == old(dst[k])
  {
    forall i | 0 <= i < |x| {
      dst[at + i] := x[i];
    }
  }

  /** What follows is put after what is there. */
  method PutMore(dst: array<byte>, start: nat, at: nat, x: seq<byte>)
    requires start <= at && at + |x| <= dst.Length
    modifies dst
    ensures dst[..start] == old(dst[..start]) && dst[start..at + |x|] == old(dst[start..at]) + x
    ensures forall k :: at + |x| <= k < dst.Length ==> dst[k] == old(dst[k])
  {
    ghost var before := dst[..at];
    Put(dst, at, x);
    assert dst[start..at] == dst[..at][start..] && dst[..start] == dst[..at][..start];
    assert before[start..] == old(dst[start..at]) && before[..start] == old(dst[..start]);
    TwoParts(dst[..], start, at, at + |x|);
  }

  // ---------- compression in place ----------

  /** The hashes of the two compressors, about which nothing is assumed. */
  datatype Hash = Hash(fast: nat -> nat, hc: seq<byte> -> nat)

  const LZ4HC_CLEVEL_MIN := 3

  /** How far the memory behind a block header is written for a block of `n` bytes, with a capacity of one byte less. */
  function Reach(level: int, n: nat): nat
    requires 0 < n
  {
    if level < LZ4HC_CLEVEL_MIN then n - 1 else Lz4Hc.WriteEnd(n, n - 1)
  }

  /** The blocks of 1 MB and 4 MB that are written farthest. */
  ghost predicate WrittenFarthest(level: int, src: seq<byte>) {
    LZ4HC_CLEVEL_MIN <= level && (|src| == 0x10_0000 || |src| == 0x40_0000) && src == Lz4Hc.FarthestText(|src|)
  }

  /** The last byte that is written for it, when the block begins at `pos`. */
  ghost predicate WrittenTo(dst: array<byte>, pos: nat, n: nat)
    requires 0 < n
    reads dst
  {
    pos + 4 + Lz4Hc.FarthestEnd(n) <= dst.Length && dst[pos + 4 + Lz4Hc.FarthestEnd(n) - 1] == 0
  }

  function Acceleration(level: int): nat {
    if level < -1 then -level else 1
  }

  /** A block that repeats its first `d` bytes, such that a fast level makes it one match that saves space. */
  ghost predicate Shrinks(level: int, src: seq<byte>, hash: Hash, d: nat) {
    && level < LZ4HC_CLEVEL_MIN && d + MFLIMIT < |src| && Lz4Fast.RepeatedFits(|src|, d, |src| - 1)
    && Lz4.Slots(src) > 0
    && exists k: nat :: Lz4Fast.Repeating(Lz4.Input(src, hash.fast), Lz4.Slots(src), Acceleration(level), k)
                        && d == Lz4Fast.Probe(1, Acceleration(level), k)
  }

  /** Such a block at the other levels: there its repetition must fit, too. */
  ghost predicate ShrinksHC(level: int, src: seq<byte>, hash: Hash, d: nat) {
    && LZ4HC_CLEVEL_MIN <= level && 0 < |src| && d + MFLIMIT < |src|
    && Lz4Hc.RepeatsFirst(src, hash.hc, level, d)
    && Lz4HcParser.RepeatedFits(|src|, d, Lz4HcEmit.Limit(true, |src| - 1))
  }

  /** It is not the block that is written farthest, and some part of it repeats. */
  ghost predicate Saves(level: int, src: seq<byte>, hash: Hash) {
    !WrittenFarthest(level, src) && exists d: nat :: ShrinksHC(level, src, hash, d)
  }

  /** The compressor that LZ4F_selectCompression chooses for independent blocks. */
  method Compress(src: seq<byte>, level: int, hash: Hash, dst: array<byte>) returns (n: nat)
    requires 0 < |src| <= 64 * KB64 && -65536 <= level && Reach(level, |src|) <= dst.Length
    modifies dst
    ensures n < |src| && n <= dst.Length && (n > 0 ==> DecodesTo(dst[..n], [], src))
    ensures Matchless(src) ==> n == 0
    ensures forall d: nat :: Shrinks(level, src, hash, d) ==> n == Lz4Fast.RepeatedSize(|src|, d)
    ensures Saves(level, src, hash) ==> n > 0
    ensures WrittenFarthest(level, src) ==>
              n == 0 && Lz4Hc.FarthestEnd(|src|) <= dst.Length && dst[Lz4Hc.FarthestEnd(|src|) - 1] == 0
    ensures forall k :: Reach(level, |src|) <= k < dst.Length ==> dst[k] == old(dst[k])
  {
    hide DecodesTo, Bound, Matchless, Lz4Hc.FarthestText, Lz4Hc.WriteEnd, Lz4HcEmit.Stops, Lz4HcEmit.StoppedAt,
         Lz4Hc.Farthest, Lz4Hc.LastCopied, Lz4.CompressBound, Lz4Emit.WildEnd, Lz4HcEmit.AnchorBefore, Lz4.WriteEnd,
         Lz4Fast.Repeating, Lz4Fast.Probe, Lz4.Slots, Lz4Hc.RepeatsFirst, Lz4HcParser.RepeatedFits,
         Lz4Fast.RepeatedFits;
    if level < LZ4HC_CLEVEL_MIN {
      var acceleration := Acceleration(level);
      assert Lz4.Accelerated(acceleration) == acceleration;
      Lz4.WriteEndFacts(|src|, false, |src| - 1);
      n := Lz4.CompressFast(src, dst, |src| - 1, acceleration, hash.fast);
    } else {
      ghost var a, b := Lz4Hc.Farthest(|src|).0, Lz4Hc.Farthest(|src|).1;
      ghost var saves := Saves(level, src, hash);
      if saves {
        a :| ShrinksHC(level, src, hash, a);
      }
      Lz4Hc.BlockEnd(|src|);
      Lz4Hc.WriteEndFacts(|src|, |src| - 1);
      if WrittenFarthest(level, src) {
        Lz4Hc.FarthestStops(|src|);
      }
      n := Lz4Hc.CompressHC(src, hash.hc, dst, |src| - 1, level, a, b);
      if WrittenFarthest(level, src) {
        Lz4Hc.LastCopiedByte(src, dst[..], a, b);
      }
    }
  }

  /** The same with `dst + at` as destination: the memory from there on is handed over as an array of its own, and put
      back whole. */
  method CompressAt(src: seq<byte>, level: int, hash: Hash, dst: array<byte>, at: nat) returns (n: nat)
    requires 0 < |src| <= 64 * KB64 && -65536 <= level && at + Reach(level, |src|) <= dst.Length
    modifies dst
    ensures n < |src| && at + n <= dst.Length && (n > 0 ==> DecodesTo(dst[at..at + n], [], src))
    ensures Matchless(src) ==> n == 0
    ensures forall d: nat :: Shrinks(level, src, hash, d) ==> n == Lz4Fast.RepeatedSize(|src|, d)
    ensures Saves(level, src, hash) ==> n > 0
    ensures WrittenFarthest(level, src) ==>
              && n == 0 && at + Lz4Hc.FarthestEnd(|src|) <= dst.Length
              && dst[at + Lz4Hc.FarthestEnd(|src|) - 1] == 0
    ensures dst[..at] == old(dst[..at])
    ensures forall k :: at + Reach(level, |src|) <= k < dst.Length ==> dst[k] == old(dst[k])
  {
    hide DecodesTo, Matchless, Reach, WrittenFarthest, Shrinks, Lz4Fast.RepeatedSize, Saves;
    var memory := new byte[dst.Length - at];
    forall i | 0 <= i < memory.Length {
      memory[i] := dst[at + i];
    }
    n := Compress(src, level, hash, memory);
    ghost var whole := memory[..];
    assert memory[..n] == whole[..n];
    assert WrittenFarthest(level, src) ==> whole[Lz4Hc.FarthestEnd(|src|) - 1] == 0;
    forall i | 0 <= i < memory.Length {
      dst[at + i] := memory[i];
    }
    assert dst[at..] == whole;
    assert dst[at..at + n] == dst[at..][..n];
    assert WrittenFarthest(level, src) ==> dst[at..][Lz4Hc.FarthestEnd(|src|) - 1] == 0;
  }

  // ---------- the block ----------

  /** The bytes a block takes. */
  function BlockSpace(crc: bool, b: Block): nat {
    Overhead(crc) + |b.data|
  }

  /** Header and data; what was compressed is there already. */
  method PutData(dst: array<byte>, at: nat, src: seq<byte>, cSize: nat) returns (size: nat)
    requires 0 < |src| <= 64 * KB64 && at + 4 + |src| <= dst.Length && cSize < |src|
    modifies dst
    ensures size == if cSize == 0 then |src| else cSize
    ensures dst[at + 4..at + 4 + size] == if cSize == 0 then src else old(dst[at + 4..at + 4 + cSize])
    ensures dst[at..at + 4 + size]
         == LE32(if cSize == 0 then |src| + UNCOMPRESSED_FLAG else cSize) + dst[at + 4..at + 4 + size]
    ensures dst[..at] == old(dst[..at])
    ensures forall k :: at + 4 + |src| <= k < dst.Length ==> dst[k] == old(dst[k])
  {
    hide LE32;
    ghost var c := dst[at + 4..at + 4 + cSize];
    Put(dst, at, LE32(if cSize == 0 then |src| + UNCOMPRESSED_FLAG else cSize));
    assert dst[at + 4..at + 4 + cSize] == c;
    size := cSize;
    if cSize == 0 {
      PutMore(dst, at, at + 4, src);
      size := |src|;
      assert dst[at + 4..at + 4 + size] == dst[at..at + 4 + size][4..];
    }
    TwoParts(dst[..], at, at + 4, at + 4 + size);
  }

  /** After the call of any compressor: header, compressed or stored data, checksum. */
  method FinishBlock(dst: array<byte>, at: nat, src: seq<byte>, cSize: nat, crc: bool) returns (n: nat, ghost b: Block)
    requires 0 < |src| <= 64 * KB64 && at + Overhead(crc) + |src| <= dst.Length
    requires cSize < |src| && (cSize > 0 ==> DecodesTo(dst[at + 4..at + 4 + cSize], [], src))
    modifies dst
    ensures b.content == src && Good(b, |src|) && (b.stored <==> cSize == 0) && (cSize > 0 ==> |b.data| == cSize)
    ensures n == BlockSpace(crc, b) <= Overhead(crc) + |src|
    ensures dst[..at] == old(dst[..at]) && dst[at..at + n] == BlockBytes(crc, b)
    ensures forall k :: at + Overhead(crc) + |src| <= k < dst.Length ==> dst[k] == old(dst[k])
  {
    hide DecodesTo, LE32, Xxh;
    var size := PutData(dst, at, src, cSize);
    b := Block(src, dst[at + 4..at + 4 + size], cSize == 0);
    n := 4 + size;
    if crc {
      PutMore(dst, at, at + 4 + size, LE32(Xxh(dst[at + 4..at + 4 + size])));
      n := 8 + size;
    } else {
      assert LE32(BlockField(b)) + b.data + [] == LE32(BlockField(b)) + b.data;
    }
  }

  /** How far a block is written: to its end, or as far as its compressor went. */
  function MadeEnd(level: int, crc: bool, n: nat): nat
    requires 0 < n
  {
    if 4 + Reach(level, n) <= Overhead(crc) + n then Overhead(crc) + n else 4 + Reach(level, n)
  }

  /** LZ4F_makeBlock. */
  method MakeBlock(dst: array<byte>, at: nat, src: seq<byte>, level: int, crc: bool, hash: Hash)
    returns (n: nat, ghost b: Block)
    requires 0 < |src| <= 64 * KB64 && -65536 <= level && at + MadeEnd(level, crc, |src|) <= dst.Length
    modifies dst
    ensures b.content == src && Good(b, |src|) && (Matchless(src) ==> b.data == src)
    ensures forall d: nat :: Shrinks(level, src, hash, d) ==> !b.stored && |b.data| == Lz4Fast.RepeatedSize(|src|, d)
    ensures Saves(level, src, hash) ==> !b.stored
    ensures n == BlockSpace(crc, b) <= Overhead(crc) + |src|
    ensures dst[..at] == old(dst[..at]) && dst[at..at + n] == BlockBytes(crc, b)
    ensures WrittenFarthest(level, src) ==> WrittenTo(dst, at, |src|)
    ensures forall k :: at + MadeEnd(level, crc, |src|) <= k < dst.Length ==> dst[k] == old(dst[k])
  {
    hide DecodesTo, Matchless, Reach, BlockBytes, Lz4Hc.FarthestText, Shrinks, Saves;
    var cSize := CompressAt(src, level, hash, dst, at + 4);
    ghost var before := dst[..at + 4];
    n, b := FinishBlock(dst, at, src, cSize, crc);
    assert before[..at] == old(dst[..at]);
  }

  // ---------- how far beyond ----------

  lemma WrittenByte(dst: array<byte>, pos: nat, n: nat)
    requires 0 < n && WrittenTo(dst, pos, n)
    ensures pos + 4 + Lz4Hc.FarthestEnd(n) <= dst.Length && dst[pos + 4 + Lz4Hc.FarthestEnd(n) - 1] == 0
  {
  }

  /** How many bytes beyond its size a block can be written by its compressor. */
  function Overrun(p: Prefs): nat
    requires ValidID(p.blockSizeID)
  {
    if p.level < LZ4HC_CLEVEL_MIN then 0 else BlockSize(EffectiveID(p.blockSizeID)) / KB64 - 1
  }

  function Positive(n: int): nat {
    if n < 0 then 0 else n
  }

  /** Beyond a block with its checksum, if it has one. */
  function BlockSpill(p: Prefs): nat
    requires ValidID(p.blockSizeID)
  {
    Positive(Overrun(p) - 4 * Bit(p.blockChecksum))
  }

  /** Beyond the end mark and the checksum of the content, for which the bound of every call has room. */
  function Spill(p: Prefs): nat
    requires ValidID(p.blockSizeID)
  {
    Positive(BlockSpill(p) - EndRoom(p))
  }

  /** What the end mark and the checksum of the content take. */
  function EndRoom(p: Prefs): nat {
    4 + 4 * Bit(p.contentChecksum)
  }

  lemma MadeEndBound(p: Prefs, n: nat)
    requires ValidID(p.blockSizeID) && 0 < n <= BlockSize(EffectiveID(p.blockSizeID))
    ensures MadeEnd(p.level, p.blockChecksum, n) <= Overhead(p.blockChecksum) + n + BlockSpill(p)
  {
    hide Lz4Hc.WriteEnd;
    Lz4Hc.BlockEnd(n);
  }

  /** The fast levels keep the bound, and the others do for blocks of 64 KB and 256 KB. */
  predicate KeepsTheBound(p: Prefs) {
    p.level < LZ4HC_CLEVEL_MIN || EffectiveID(p.blockSizeID) <= 5
  }

  lemma SameSpill(p: Prefs)
    requires ValidID(p.blockSizeID)
    ensures Spill(p.(blockSizeID := EffectiveID(p.blockSizeID))) == Spill(p)
  {
  }

  /** The block that is written farthest. */
  lemma FarthestBlock(p: Prefs)
    requires ValidID(p.blockSizeID) && !KeepsTheBound(p)
    ensures var n := BlockSize(EffectiveID(p.blockSizeID));
            Lz4Hc.FullBlock(n) && WrittenFarthest(p.level, Lz4Hc.FarthestText(n))
  {
    hide Lz4Hc.FarthestText;
  }

  lemma KeepsExactly(p: Prefs)
    requires ValidID(p.blockSizeID)
    ensures Spill(p) == 0 <==> KeepsTheBound(p)
  {
  }
}
