/** The buffering frame encoder, for independent blocks: LZ4F_compressBegin, LZ4F_compressUpdate, LZ4F_flush,
    LZ4F_compressEnd, LZ4F_compressFrame. */
module FrameEncoder {
  import opened Bytes
  import opened Sequences
  import opened Lz4Format
  import opened Lz4RoundTrip
  import opened Lz4Match
  import opened Lz4NoMatch
  import opened FrameFormat
  import opened FrameBlocks
  import opened FrameBound
  import opened FrameMakeBlock
  import Lz4Hc

  datatype Result = Error | Written(n: nat)

  /** The header that the preferences ask for. */
  function InfoOf(p: Prefs): Info {
    Info(EffectiveID(p.blockSizeID), false, p.blockChecksum, p.contentChecksum, p.contentSize, p.dictID)
  }

  predicate ValidPrefs(p: Prefs) {
    ValidID(p.blockSizeID) && p.contentSize < WRAP64 && p.dictID < WRAP32 && -65536 <= p.level
  }

  lemma GoodMore(bs: seq<Block>, b: Block, maxSize: nat)
    requires AllGood(bs, maxSize) && Good(b, |b.content|) && |b.content| <= maxSize
    ensures AllGood(bs + [b], maxSize)
  {
    hide DecodesTo;
  }

  /** The header and the blocks. */
  ghost predicate Made(p: Prefs, maxSize: nat, out: seq<byte>, bs: seq<Block>) {
    && ValidPrefs(p) && p.blockSizeID != 0 && maxSize == BlockSize(p.blockSizeID)
    && out == EncodeHeader(InfoOf(p)) + BlocksBytes(p.blockChecksum, bs) && AllGood(bs, maxSize)
  }

  lemma MadeMore(p: Prefs, maxSize: nat, out: seq<byte>, bs: seq<Block>, b: Block)
    requires Made(p, maxSize, out, bs) && Good(b, |b.content|) && |b.content| <= maxSize
    ensures Made(p, maxSize, out + BlockBytes(p.blockChecksum, b), bs + [b])
  {
    hide Good, BlockBytes, BlocksBytes, AllGood, EncodeHeader;
    BlocksMore(p.blockChecksum, bs, b);
    GoodMore(bs, b, maxSize);
    Appended(EncodeHeader(InfoOf(p)), BlocksBytes(p.blockChecksum, bs), BlockBytes(p.blockChecksum, b));
  }

  lemma ContentMore(x: seq<byte>, s: seq<byte>, i: nat, j: nat, k: nat)
    requires i <= j <= k <= |s|
    ensures x + s[i..j] + s[j..k] == x + s[i..k]
  {
    TwoParts(s, i, j, k);
    Appended(x, s[i..j], s[j..k]);
  }

  // ---------- the room for a flush and for the end ----------

  /** The most a flush of `t` buffered bytes writes. */
  function FlushRoom(p: Prefs, t: nat): nat {
    if t == 0 then 0 else Overhead(p.blockChecksum) + t
  }

  /** How far a flush writes. */
  function FlushEnd(p: Prefs, t: nat): nat
    requires t == 0 || ValidID(p.blockSizeID)
  {
    if t == 0 then 0 else FlushRoom(p, t) + BlockSpill(p)
  }

  /** And the end of the frame after it. */
  function EndEnd(p: Prefs, t: nat): nat
    requires t == 0 || ValidID(p.blockSizeID)
  {
    if FlushEnd(p, t) <= FlushRoom(p, t) + EndRoom(p) then FlushRoom(p, t) + EndRoom(p) else FlushEnd(p, t)
  }

  /** What was buffered has become one more block, in `n` bytes. */
  ghost predicate Flushed(p: Prefs, before: seq<Block>, after: seq<Block>, buffered: seq<byte>, n: int) {
    if buffered == [] then after == before && n == 0
    else
      && |after| == |before| + 1 && after[..|before|] == before
      && after[|before|].content == buffered && Good(after[|before|], |buffered|)
      && n == BlockSpace(p.blockChecksum, after[|before|])
  }

  /** Whatever becomes of `t` buffered bytes takes no more than `cap`, with the end of the frame if it is written
      too. */
  ghost predicate AlwaysFits(p: Prefs, t: nat, end: bool, cap: nat) {
    forall before, after, buffered, n | |buffered| == t && Flushed(p, before, after, buffered, n) ::
      n + (if end then EndRoom(p) else 0) <= cap
  }

  /** The room that suffices for the bytes returned, for every content: not what LZ4F_flush tests, which is `t + 4 <=
      cap` and only when something is buffered. */
  lemma FitsExactly(p: Prefs, t: nat, end: bool, cap: nat)
    ensures AlwaysFits(p, t, end, cap) <==> FlushRoom(p, t) + (if end then EndRoom(p) else 0) <= cap
  {
    hide DecodesTo;
    if AlwaysFits(p, t, end, cap) {
      var buffered := seq(t, _ => 0 as byte);
      var after := if t == 0 then [] else [Block(buffered, buffered, true)];
      assert Flushed(p, [], after, buffered, FlushRoom(p, t));
    }
  }

  /** LZ4F_cctx_t. The streaming hash state is the bytes it was given. */
  class Cctx {
    var prefs: Prefs
    var cStage: nat
    var maxBlockSize: nat
    var maxBufferSize: nat
    var tmpBuff: array<byte>
    var tmpInSize: nat
    var totalInSize: nat
    var xxh: seq<byte>

    /** What was given and what was written since the frame began, and the blocks it is made of. */
    ghost var input: seq<byte>
    ghost var out: seq<byte>
    ghost var blocks: seq<Block>

    /** LZ4F_createCompressionContext: all fields zero. */
    constructor ()
      ensures Valid() && cStage == 0 && fresh(tmpBuff)
    {
      prefs, cStage, maxBlockSize, maxBufferSize := Prefs(0, false, false, 0, 0, 0, false), 0, 0, 0;
      tmpBuff := new byte[0];
      tmpInSize, totalInSize, xxh := 0, 0, [];
    }

    /** What was written is the header and the blocks. */
    ghost predicate Sent()
      reads `prefs, `maxBlockSize, `out, `blocks
    {
      Made(prefs, maxBlockSize, out, blocks)
    }

    /** In the middle of a frame: the input is the content of the blocks and what is buffered. */
    ghost predicate Valid()
      reads this, tmpBuff
    {
      maxBufferSize <= tmpBuff.Length && (cStage == 1 ==> InFrame())
    }

    ghost predicate InFrame()
      reads this, tmpBuff
    {
      && Sent() && tmpInSize < maxBlockSize && tmpInSize <= tmpBuff.Length
      && (if prefs.autoFlush then tmpInSize == 0 else maxBlockSize <= tmpBuff.Length)
      && input == Contents(blocks) + tmpBuff[..tmpInSize]
      && (prefs.contentChecksum ==> xxh == input)
      && (prefs.contentSize != 0 ==> totalInSize == |input| % WRAP64)
    }

    /** Buffer management: with autoFlush and independent blocks, no buffer is needed. */
    method Setup(p: Prefs)
      requires Valid() && ValidPrefs(p)
      modifies `prefs, `maxBlockSize, `maxBufferSize, `tmpBuff, `tmpInSize, `xxh
      ensures maxBufferSize <= tmpBuff.Length && (tmpBuff == old(tmpBuff) || fresh(tmpBuff))
      ensures prefs == p.(blockSizeID := EffectiveID(p.blockSizeID)) && maxBlockSize == BlockSize(prefs.blockSizeID)
      ensures tmpInSize == 0 && xxh == [] && (!prefs.autoFlush ==> maxBlockSize <= tmpBuff.Length)
    {
      prefs := p.(blockSizeID := EffectiveID(p.blockSizeID));
      maxBlockSize := BlockSize(prefs.blockSizeID);
      var requiredBuffSize := if prefs.autoFlush then 0 else maxBlockSize;
      if maxBufferSize < requiredBuffSize {
        tmpBuff := new byte[requiredBuffSize](_ => 0);
        maxBufferSize := requiredBuffSize;
      }
      tmpInSize, xxh := 0, [];
    }

    /** LZ4F_compressBegin. */
    method Begin(dst: array<byte>, at: nat, cap: nat, p: Prefs) returns (r: Result)
      requires Valid() && ValidPrefs(p) && at + cap <= dst.Length && dst != tmpBuff
      modifies this, dst
      ensures r == Error <==> cap < MAX_FH_SIZE
      ensures r == Error ==> Valid()
      ensures r != Error ==> Valid() && cStage == 1 && prefs == p.(blockSizeID := EffectiveID(p.blockSizeID))
      ensures r != Error ==> at + r.n <= dst.Length && r.n <= MAX_FH_SIZE && out == dst[at..at + r.n]
      ensures r != Error ==> r.n == |EncodeHeader(InfoOf(prefs))|
      ensures r != Error ==> input == [] && blocks == [] && tmpInSize == 0 && dst[..at] == old(dst[..at])
      ensures forall k :: at + MAX_FH_SIZE <= k < dst.Length ==> dst[k] == old(dst[k])
      ensures tmpBuff == old(tmpBuff) || fresh(tmpBuff)
    {
      hide EncodeHeader, LE32, LE64, AllGood, InFrame;
      if cap < MAX_FH_SIZE {
        return Error;
      }
      Setup(p);
      var n := PutHeader(dst, at);
      if prefs.contentSize != 0 {
        totalInSize := 0;
      }
      cStage := 1;
      input, blocks, out := [], [], dst[at..at + n];
      Started();
      r := Written(n);
    }

    lemma Started()
      requires ValidPrefs(prefs) && prefs.blockSizeID != 0 && maxBlockSize == BlockSize(prefs.blockSizeID)
      requires out == EncodeHeader(InfoOf(prefs)) && blocks == [] && input == [] && tmpInSize == 0 && xxh == []
      requires (!prefs.autoFlush ==> maxBlockSize <= tmpBuff.Length) && (prefs.contentSize != 0 ==> totalInSize == 0)
      ensures InFrame()
    {
      hide EncodeHeader;
      NoneGood(maxBlockSize);
      assert tmpBuff[..0] == [] && EncodeHeader(InfoOf(prefs)) + [] == EncodeHeader(InfoOf(prefs));
    }

    static lemma NoneGood(maxSize: nat)
      ensures AllGood([], maxSize)
    {
    }

    /** Magic number, flags, block size, optional fields and their checksum. */
    method PutHeader(dst: array<byte>, at: nat) returns (n: nat)
      requires ValidPrefs(prefs) && prefs.blockSizeID != 0 && at + MAX_FH_SIZE <= dst.Length
      modifies dst
      ensures n <= MAX_FH_SIZE && dst[at..at + n] == EncodeHeader(InfoOf(prefs)) && dst[..at] == old(dst[..at])
      ensures forall k :: at + MAX_FH_SIZE <= k < dst.Length ==> dst[k] == old(dst[k])
    {
      hide LE32, LE64, Xxh;
      var i := InfoOf(prefs);
      var flg := 64 + 32 * 1 + 16 * Bit(prefs.blockChecksum) + 8 * Bit(prefs.contentSize > 0)
                 + 4 * Bit(prefs.contentChecksum) + Bit(prefs.dictID > 0);
      Put(dst, at, LE32(MAGIC));
      PutMore(dst, at, at + 4, [flg as byte, (prefs.blockSizeID * 16) as byte]);
      var pos := at + 6;
      ghost var d := [flg as byte, (prefs.blockSizeID * 16) as byte];
      if prefs.contentSize != 0 {
        PutMore(dst, at, pos, LE64(prefs.contentSize));
        pos, d := pos + 8, d + LE64(prefs.contentSize);
      }
      if prefs.dictID != 0 {
        PutMore(dst, at, pos, LE32(prefs.dictID));
        pos, d := pos + 4, d + LE32(prefs.dictID);
      }
      assert d == Descriptor(i) && dst[at..pos] == LE32(MAGIC) + d;
      assert dst[at + 4..pos] == dst[at..pos][4..] == d;
      PutMore(dst, at, pos, [HeaderChecksum(dst[at + 4..pos])]);
      n := pos + 1 - at;
    }

    /** One more block, written at `pos`; the output of this call starts at `at`. */
    method Emit(dst: array<byte>, at: nat, pos: nat, src: seq<byte>, hash: Hash, ghost before: seq<byte>)
      returns (pos': nat, ghost b: Block)
      requires Sent() && at <= pos && pos + Overhead(prefs.blockChecksum) + |src| + BlockSpill(prefs) <= dst.Length
      requires 0 < |src| <= maxBlockSize && out == before + dst[at..pos]
      modifies dst, `out, `blocks
      ensures Sent() && pos <= pos' <= pos + Overhead(prefs.blockChecksum) + |src|
      ensures Contents(blocks) == old(Contents(blocks)) + src && out == before + dst[at..pos']
      ensures blocks == old(blocks) + [b] && b.content == src && Good(b, |src|)
      ensures pos' == pos + BlockSpace(prefs.blockChecksum, b) && (Matchless(src) ==> b.data == src)
      ensures WrittenFarthest(prefs.level, src) ==> WrittenTo(dst, pos, |src|)
      ensures dst[..at] == old(dst[..at])
      ensures forall k :: pos + Overhead(prefs.blockChecksum) + |src| + BlockSpill(prefs) <= k < dst.Length ==>
                dst[k] == old(dst[k])
    {
      hide BlockBytes, BlocksBytes, Contents, AllGood, EncodeHeader, Made, Matchless, DecodesTo, MadeEnd, BlockSpill,
           WrittenFarthest, Good, BlockSpace;
      SentFacts();
      MadeEndBound(prefs, |src|);
      ghost var old0 := dst[..pos];
      var n;
      n, b := MakeBlock(dst, pos, src, prefs.level, prefs.blockChecksum, hash);
      pos' := pos + n;
      assert dst[..at] == old0[..at] && dst[at..pos] == old0[at..];
      TwoParts(dst[..], at, pos, pos');
      MadeMore(prefs, maxBlockSize, out, blocks, b);
      BlocksMore(prefs.blockChecksum, blocks, b);
      Appended(before, dst[at..pos], dst[pos..pos']);
      out, blocks := out + dst[pos..pos'], blocks + [b];
    }

    /** The most that `n` more bytes of input can become. */
    ghost function RoomFor(n: nat, flush: bool): nat
      reads `prefs
    {
      Room(n, prefs.blockSizeID, prefs.blockChecksum, flush)
    }

    /** Full blocks straight from the input. */
    method FullBlocks(src: seq<byte>, srcPos: nat, dst: array<byte>, at: nat, pos: nat, hash: Hash,
                      ghost before: seq<byte>, ghost flush: bool) returns (srcPos': nat, pos': nat)
      requires Sent() && at <= pos && srcPos <= |src| && pos <= dst.Length && out == before + dst[at..pos]
      requires pos + RoomFor(|src| - srcPos, flush) + BlockSpill(prefs) <= dst.Length
      modifies dst, `out, `blocks
      ensures Sent() && srcPos <= srcPos' <= |src| && |src| - srcPos' < maxBlockSize
      ensures |src| - srcPos < maxBlockSize ==> srcPos' == srcPos && pos' == pos && blocks == old(blocks)
      ensures |src| - srcPos >= maxBlockSize ==> srcPos < srcPos'
      ensures pos <= pos' && pos' + RoomFor(|src| - srcPos', flush) <= pos + RoomFor(|src| - srcPos, flush)
      ensures Contents(blocks) == old(Contents(blocks)) + src[srcPos..srcPos'] && out == before + dst[at..pos']
      ensures |src| - srcPos == maxBlockSize && WrittenFarthest(prefs.level, src[srcPos..]) ==>
                WrittenTo(dst, pos, maxBlockSize)
      ensures |src| - srcPos == maxBlockSize ==> srcPos' == |src|
      ensures dst[..at] == old(dst[..at])
      ensures forall k :: pos + RoomFor(|src| - srcPos, flush) + BlockSpill(prefs) <= k < dst.Length ==>
                dst[k] == old(dst[k])
    {
      hide Made, Contents, BlockSize, Room, BlockSpace, Good, Matchless, WrittenFarthest, WrittenTo, BlockSpill;
      var blockSize := maxBlockSize;
      srcPos', pos' := srcPos, pos;
      ghost var had := Contents(blocks);
      assert src[srcPos..srcPos] == [] && Contents(blocks) + [] == Contents(blocks);
      SentFacts();
      ghost var b;
      while |src| - srcPos' >= blockSize
        invariant Sent() && srcPos <= srcPos' <= |src| && pos <= pos' <= dst.Length
        invariant pos' + RoomFor(|src| - srcPos', flush)
               <= pos + RoomFor(|src| - srcPos, flush)
        invariant Contents(blocks) == had + src[srcPos..srcPos'] && out == before + dst[at..pos']
        invariant dst[..at] == old(dst[..at])
        invariant forall k :: pos + RoomFor(|src| - srcPos, flush) + BlockSpill(prefs) <= k < dst.Length ==>
                    dst[k] == old(dst[k])
        invariant |src| - srcPos == blockSize && srcPos' != srcPos ==>
                    srcPos' == |src| && (WrittenFarthest(prefs.level, src[srcPos..]) ==> WrittenTo(dst, pos, blockSize))
        invariant srcPos' == srcPos ==> pos' == pos && blocks == old(blocks)
        invariant |src| - srcPos < blockSize ==> srcPos' == srcPos
        decreases |src| - srcPos'
      {
        RoomStep(|src| - srcPos', prefs.blockSizeID, prefs.blockChecksum, flush);
        assert |src| - srcPos' == blockSize ==> src[srcPos'..srcPos' + blockSize] == src[srcPos'..];
        pos', b := Emit(dst, at, pos', src[srcPos'..srcPos' + blockSize], hash, before);
        ContentMore(had, src, srcPos, srcPos', srcPos' + blockSize);
        srcPos' := srcPos' + blockSize;
      }
    }

    /** And with autoFlush what remains. */
    method FromSource(src: seq<byte>, srcPos: nat, dst: array<byte>, at: nat, pos: nat, hash: Hash,
                      ghost before: seq<byte>, ghost flush: bool) returns (srcPos': nat, pos': nat)
      requires Sent() && at <= pos && srcPos <= |src| && pos <= dst.Length && out == before + dst[at..pos]
      requires prefs.autoFlush ==> flush
      requires pos + RoomFor(|src| - srcPos, flush) + BlockSpill(prefs) <= dst.Length
      modifies dst, `out, `blocks
      ensures Sent() && srcPos <= srcPos' <= |src| && |src| - srcPos' < maxBlockSize
      ensures prefs.autoFlush ==> srcPos' == |src|
      ensures |src| - srcPos < maxBlockSize && !prefs.autoFlush ==> srcPos' == srcPos
      ensures srcPos' == srcPos ==> pos' == pos && blocks == old(blocks)
      ensures pos <= pos' <= pos + RoomFor(|src| - srcPos, flush)
      ensures Contents(blocks) == old(Contents(blocks)) + src[srcPos..srcPos'] && out == before + dst[at..pos']
      ensures |src| - srcPos == maxBlockSize && WrittenFarthest(prefs.level, src[srcPos..]) ==>
                WrittenTo(dst, pos, maxBlockSize)
      ensures dst[..at] == old(dst[..at])
      ensures forall k :: pos + RoomFor(|src| - srcPos, flush) + BlockSpill(prefs) <= k < dst.Length ==>
                dst[k] == old(dst[k])
    {
      hide Made, Contents, BlockSize, Room, BlockSpace, Good, Matchless, WrittenFarthest, WrittenTo, BlockSpill;
      ghost var had := Contents(blocks);
      SentFacts();
      srcPos', pos' := FullBlocks(src, srcPos, dst, at, pos, hash, before, flush);
      RoomStep(|src| - srcPos', prefs.blockSizeID, prefs.blockChecksum, flush);
      if prefs.autoFlush && srcPos' < |src| {
        ghost var b;
        pos', b := Emit(dst, at, pos', src[srcPos'..|src|], hash, before);
        ContentMore(had, src, srcPos, srcPos', |src|);
        srcPos' := |src|;
      }
    }

    lemma SentFacts()
      requires Sent()
      ensures 0 < maxBlockSize == BlockSize(prefs.blockSizeID) <= 64 * KB64 && ValidPrefs(prefs)
      ensures prefs.blockSizeID != 0
      ensures ValidInfo(InfoOf(prefs))
    {
      hide EncodeHeader, BlocksBytes, AllGood;
    }

    lemma InFrameFacts()
      requires Valid() && cStage == 1
      ensures maxBlockSize == BlockSize(prefs.blockSizeID) && prefs.blockSizeID != 0 && ValidPrefs(prefs)
    {
      hide Made;
      SentFacts();
    }

    /** What was given is in the blocks or in the buffer. */
    ghost predicate Holds(x: seq<byte>)
      reads `blocks, `tmpInSize, `tmpBuff, tmpBuff
    {
      tmpInSize <= tmpBuff.Length && Contents(blocks) + tmpBuff[..tmpInSize] == x
    }

    /** What is buffered is completed to a block, if the input suffices for that. */
    method CompleteBuffer(src: seq<byte>, dst: array<byte>, at: nat, hash: Hash, ghost x: seq<byte>,
                          ghost before: seq<byte>, ghost flush: bool) returns (srcPos: nat, pos: nat)
      requires Sent() && Holds(x) && 0 < tmpInSize < maxBlockSize <= tmpBuff.Length && dst != tmpBuff
      requires at + RoomFor(|src| + tmpInSize, flush) + BlockSpill(prefs) <= dst.Length && out == before
      modifies dst, tmpBuff, `tmpInSize, `out, `blocks
      ensures Sent() && srcPos <= |src| && Holds(x + src[..srcPos])
      ensures tmpInSize > 0 ==> srcPos == |src| && tmpInSize < maxBlockSize
      ensures old(tmpInSize) + |src| < maxBlockSize ==>
                tmpInSize == old(tmpInSize) + |src| && pos == at && blocks == old(blocks)
      ensures at <= pos <= dst.Length && out == before + dst[at..pos] && dst[..at] == old(dst[..at])
      ensures pos + RoomFor(|src| - srcPos, flush) <= at + RoomFor(|src| + old(tmpInSize), flush)
      ensures forall k :: at + RoomFor(|src| + old(tmpInSize), flush) + BlockSpill(prefs) <= k < dst.Length ==>
                dst[k] == old(dst[k])
    {
      hide Made, Contents, BlockSize, BlockSpill, WrittenFarthest, WrittenTo;
      SentFacts();
      var sizeToCopy := maxBlockSize - tmpInSize;
      srcPos, pos := if sizeToCopy > |src| then |src| else sizeToCopy, at;
      ghost var had := tmpBuff[..tmpInSize];
      Put(tmpBuff, tmpInSize, src[..srcPos]);
      BufferMore(tmpBuff[..], had, tmpInSize, src[..srcPos]);
      Appended(Contents(blocks), had, src[..srcPos]);
      assert before + dst[at..at] == before;
      if sizeToCopy > |src| {
        tmpInSize := tmpInSize + |src|;
      } else {
        ghost var b;
        pos, b := Emit(dst, at, at, tmpBuff[..maxBlockSize], hash, before);
        tmpInSize := 0;
      }
    }

    /** The rest, less than a block, is kept. */
    method KeepRest(src: seq<byte>, srcPos: nat, ghost x: seq<byte>)
      requires srcPos <= |src| && Holds(x)
      requires srcPos < |src| ==> tmpInSize == 0 && |src| - srcPos <= tmpBuff.Length
      modifies tmpBuff, `tmpInSize
      ensures Holds(x + src[srcPos..])
      ensures tmpInSize == if srcPos < |src| then |src| - srcPos else old(tmpInSize)
    {
      hide Contents;
      assert x + [] == x;
      if srcPos < |src| {
        assert Contents(blocks) + [] == Contents(blocks);
        Put(tmpBuff, 0, src[srcPos..]);
        tmpInSize := |src| - srcPos;
      }
    }

    /** LZ4F_compressUpdate after its checks: every byte goes to a block or to the buffer. */
    method Feed(src: seq<byte>, dst: array<byte>, at: nat, hash: Hash, ghost x: seq<byte>, ghost flush: bool)
      returns (pos: nat)
      requires Sent() && Holds(x) && tmpInSize < maxBlockSize && dst != tmpBuff && (prefs.autoFlush ==> flush)
      requires if prefs.autoFlush then tmpInSize == 0 else maxBlockSize <= tmpBuff.Length
      requires at + RoomFor(|src| + tmpInSize, flush) + BlockSpill(prefs) <= dst.Length
      modifies dst, tmpBuff, `tmpInSize, `out, `blocks
      ensures Sent() && Holds(x + src) && tmpInSize < maxBlockSize && (prefs.autoFlush ==> tmpInSize == 0)
      ensures !prefs.autoFlush && old(tmpInSize) + |src| < maxBlockSize ==>
                tmpInSize == old(tmpInSize) + |src| && blocks == old(blocks) && pos == at
      ensures at <= pos <= at + RoomFor(|src| + old(tmpInSize), flush) && pos <= dst.Length
      ensures out == old(out) + dst[at..pos] && dst[..at] == old(dst[..at])
      ensures old(tmpInSize) == 0 && |src| == maxBlockSize && WrittenFarthest(prefs.level, src) ==>
                WrittenTo(dst, at, maxBlockSize)
      ensures forall k :: at + RoomFor(|src| + old(tmpInSize), flush) + BlockSpill(prefs) <= k < dst.Length ==>
                dst[k] == old(dst[k])
    {
      hide Made, Contents, Room, BlockSize, BlockSpill, WrittenFarthest, WrittenTo;
      assert src[0..] == src;
      ghost var before := out;
      var srcPos: nat := 0;
      pos := at;
      assert x + src[..0] == x && before + dst[at..at] == before;
      if tmpInSize > 0 {
        srcPos, pos := CompleteBuffer(src, dst, at, hash, x, before, flush);
      }
      ghost var held := Contents(blocks);
      ghost var srcPos0 := srcPos;
      srcPos, pos := FromSource(src, srcPos, dst, at, pos, hash, before, flush);
      assert Holds(x + src[..srcPos]) by { Moved(x, src, srcPos0, srcPos, held); }
      KeepRest(src, srcPos, x + src[..srcPos]);
      assert x + src[..srcPos] + src[srcPos..] == x + src;
    }

    lemma Moved(x: seq<byte>, src: seq<byte>, i: nat, j: nat, held: seq<byte>)
      requires i <= j <= |src| && tmpInSize <= tmpBuff.Length
      requires held + tmpBuff[..tmpInSize] == x + src[..i] && (tmpInSize > 0 ==> i == |src|)
      requires Contents(blocks) == held + src[i..j]
      ensures Holds(x + src[..j])
    {
      hide Contents;
      if tmpInSize > 0 {
        assert held + src[i..j] == held;
      } else {
        assert held + tmpBuff[..0] == held;
        ContentMore(x, src, 0, i, j);
        assert src[..i] == src[0..i] && src[..j] == src[0..j];
      }
    }

    /** LZ4F_compressUpdate. */
    method Update(src: seq<byte>, dst: array<byte>, at: nat, cap: nat, hash: Hash) returns (r: Result)
      requires Valid() && at + cap <= dst.Length && dst != tmpBuff
      requires cStage == 1 && CompressBound(|src|, prefs, tmpInSize) <= cap ==>
                 at + CompressBound(|src|, prefs, tmpInSize) + Spill(prefs) <= dst.Length
      modifies this, dst, tmpBuff
      ensures Valid() && tmpBuff == old(tmpBuff) && cStage == old(cStage) && prefs == old(prefs)
      ensures maxBlockSize == old(maxBlockSize)
      ensures r == Error <==> cStage != 1 || cap < CompressBound(|src|, prefs, old(tmpInSize))
      ensures r == Error ==> input == old(input) && out == old(out) && tmpInSize == old(tmpInSize)
      ensures r != Error ==> r.n + 4 + 4 * Bit(prefs.contentChecksum) <= CompressBound(|src|, prefs, old(tmpInSize))
      ensures r != Error ==> input == old(input) + src && at + r.n <= dst.Length && out == old(out) + dst[at..at + r.n]
      ensures r != Error && prefs.autoFlush ==> tmpInSize == 0
      ensures r != Error && !prefs.autoFlush && old(tmpInSize) + |src| < maxBlockSize ==>
                tmpInSize == old(tmpInSize) + |src| && blocks == old(blocks) && r.n == 0
      ensures dst[..at] == old(dst[..at])
      ensures r == Error ==> dst[..] == old(dst[..])
      ensures r != Error ==>
                forall k :: at + CompressBound(|src|, prefs, old(tmpInSize)) + Spill(prefs) <= k < dst.Length ==>
                  dst[k] == old(dst[k])
      ensures r != Error && old(tmpInSize) == 0 && |src| == maxBlockSize && WrittenFarthest(prefs.level, src) ==>
                WrittenTo(dst, at, maxBlockSize)
    {
      hide Made, Contents, CompressBound, BlocksBound, Room, BlockSpill, WrittenFarthest, WrittenTo;
      if cStage != 1 {
        return Error;
      }
      SentFacts();
      if cap < CompressBound(|src|, prefs, tmpInSize) {
        return Error;
      }
      ghost var flush := prefs.autoFlush || |src| == 0;
      BoundIsRoom(|src|, prefs, tmpInSize);
      var pos := Feed(src, dst, at, hash, input, flush);
      Account(src);
      r := Written(pos - at);
    }

    /** Hash and size of what was given. */
    method Account(src: seq<byte>)
      requires maxBufferSize <= tmpBuff.Length && cStage == 1 && Sent() && Holds(input + src)
      requires tmpInSize < maxBlockSize
      requires if prefs.autoFlush then tmpInSize == 0 else maxBlockSize <= tmpBuff.Length
      requires prefs.contentChecksum ==> xxh == input
      requires prefs.contentSize != 0 ==> totalInSize == |input| % WRAP64
      modifies `xxh, `input, `totalInSize
      ensures Valid() && input == old(input) + src
    {
      hide Made, Contents;
      if prefs.contentChecksum {
        xxh := xxh + src;
      }
      input := input + src;
      if prefs.contentSize != 0 {
        TotalSize(totalInSize, |old(input)|, |src|);
      }
      totalInSize := (totalInSize + |src|) % WRAP64;
    }

    lemma TotalSize(total: nat, n: nat, m: nat)
      requires total == n % WRAP64
      ensures (total + m) % WRAP64 == (n + m) % WRAP64
    {
      var k := n / WRAP64;
      assert n == WRAP64 * k + total;
      ModShift(total + m, k);
    }

    /** LZ4F_flush. It asks for 4 bytes more than are buffered; what it writes is the block, with its checksum. */
    method Flush(dst: array<byte>, at: nat, cap: nat, hash: Hash) returns (r: Result)
      requires Valid() && at + cap <= dst.Length && dst != tmpBuff
      requires tmpInSize != 0 && cStage == 1 ==> at + FlushEnd(prefs, tmpInSize) <= dst.Length
      modifies this, dst, tmpBuff
      ensures Valid() && tmpBuff == old(tmpBuff) && cStage == old(cStage) && prefs == old(prefs) && input == old(input)
      ensures r == Error <==> old(tmpInSize) != 0 && (cStage != 1 || cap < old(tmpInSize) + 4)
      ensures r == Error ==> out == old(out) && tmpInSize == old(tmpInSize) && blocks == old(blocks)
      ensures r != Error ==> tmpInSize == 0 && at + r.n <= dst.Length && r.n <= FlushRoom(prefs, old(tmpInSize))
      ensures r != Error && cStage == 1 ==> Flushed(prefs, old(blocks), blocks, old(tmpBuff[..tmpInSize]), r.n)
      ensures r != Error && cStage == 1 && Matchless(old(tmpBuff[..tmpInSize])) ==>
                r.n == FlushRoom(prefs, old(tmpInSize))
      ensures r != Error && cStage == 1 ==> out == old(out) + dst[at..at + r.n]
      ensures dst[..at] == old(dst[..at])
      ensures r == Error || old(tmpInSize) == 0 ==> dst[..] == old(dst[..])
      ensures r != Error && old(tmpInSize) != 0 ==>
                && cStage == 1
                && forall k :: at + FlushEnd(prefs, old(tmpInSize)) <= k < dst.Length ==> dst[k] == old(dst[k])
    {
      hide Made, Contents, DecodesTo, Matchless, WrittenFarthest, WrittenTo, BlockSpill;
      if tmpInSize == 0 {
        assert out + dst[at..at] == out && tmpBuff[..0] == [];
        return Written(0);
      }
      if cStage != 1 || cap < tmpInSize + 4 {
        return Error;
      }
      SentFacts();
      assert out + dst[at..at] == out;
      var pos, b := Emit(dst, at, at, tmpBuff[..tmpInSize], hash, out);
      tmpInSize := 0;
      assert Contents(blocks) + tmpBuff[..0] == Contents(blocks);
      r := Written(pos - at);
    }

    /** What is asked of a caller of LZ4F_flush and LZ4F_compressEnd is enough for both. */
    lemma BoundFits()
      requires Valid() && cStage == 1
      ensures FlushRoom(prefs, tmpInSize) + EndRoom(prefs) == CompressBound(0, prefs, tmpInSize)
      ensures FlushEnd(prefs, tmpInSize) <= EndEnd(prefs, tmpInSize)
      ensures EndEnd(prefs, tmpInSize) <= CompressBound(0, prefs, tmpInSize) + Spill(prefs)
      ensures tmpInSize != 0 ==> tmpInSize + 4 <= FlushRoom(prefs, tmpInSize)
    {
      hide Made, CompressBound, Contents;
      SentFacts();
      SmallestBound(prefs);
      if tmpInSize != 0 {
        FlushBound(prefs, tmpInSize);
      }
    }

    /** A whole frame was written, and what it contains is what was given. */
    ghost predicate Ended()
      reads `prefs, `maxBlockSize, `input, `out, `blocks
    {
      && ValidPrefs(prefs) && prefs.blockSizeID != 0 && maxBlockSize == BlockSize(prefs.blockSizeID)
      && out == FrameBytes(InfoOf(prefs), blocks) && AllGood(blocks, maxBlockSize) && input == Contents(blocks)
      && (prefs.contentSize != 0 ==> prefs.contentSize == |input| % WRAP64)
    }

    lemma EndFacts()
      requires Ended()
      ensures ValidPrefs(prefs) && ValidInfo(InfoOf(prefs)) && out == FrameBytes(InfoOf(prefs), blocks)
      ensures AllGood(blocks, BlockSize(prefs.blockSizeID)) && input == Contents(blocks) && prefs.blockSizeID != 0
    {
      hide FrameBytes, AllGood, Contents;
    }

    /** End mark and checksum of the content. */
    method PutEnd(dst: array<byte>, at: nat, pos: nat) returns (pos': nat)
      requires at <= pos && pos + 4 + 4 * Bit(prefs.contentChecksum) <= dst.Length
      modifies dst
      ensures pos' == pos + 4 + 4 * Bit(prefs.contentChecksum) && dst[..at] == old(dst[..at])
      ensures dst[at..pos'] == old(dst[at..pos]) + (LE32(0) + Checksum(prefs.contentChecksum, xxh))
      ensures forall k :: pos' <= k < dst.Length ==> dst[k] == old(dst[k])
    {
      hide LE32, Xxh;
      ghost var have := dst[at..pos];
      PutMore(dst, at, pos, LE32(0));
      pos' := pos + 4;
      if prefs.contentChecksum {
        PutMore(dst, at, pos', LE32(Xxh(xxh)));
        pos' := pos' + 4;
        Appended(have, LE32(0), LE32(Xxh(xxh)));
      } else {
        assert LE32(0) + [] == LE32(0);
      }
    }

    lemma Whole(before: seq<byte>)
      requires Made(prefs, maxBlockSize, before, blocks) && Contents(blocks) == input
      requires prefs.contentChecksum ==> xxh == input
      requires out == before + LE32(0) + Checksum(prefs.contentChecksum, xxh)
      ensures ValidPrefs(prefs) && prefs.blockSizeID != 0 && maxBlockSize == BlockSize(prefs.blockSizeID)
      ensures out == FrameBytes(InfoOf(prefs), blocks) && AllGood(blocks, maxBlockSize)
    {
      hide LE32, Xxh, Contents, AllGood, EncodeHeader, BlocksBytes;
      Appended(before, LE32(0), Checksum(prefs.contentChecksum, xxh));
    }

    lemma NothingBuffered()
      requires InFrame() && tmpInSize == 0
      ensures Contents(blocks) == input
    {
      hide Made, Contents;
      assert Contents(blocks) + tmpBuff[..0] == Contents(blocks);
    }

    /** LZ4F_compressEnd: what is buffered, and the end of the frame, for which no room is asked. */
    method End(dst: array<byte>, at: nat, cap: nat, hash: Hash) returns (r: Result)
      requires Valid() && at + cap <= dst.Length && dst != tmpBuff
      requires tmpInSize == 0 || cStage == 1 ==> at + EndEnd(prefs, tmpInSize) <= dst.Length
      modifies this, dst, tmpBuff
      ensures Valid() && tmpBuff == old(tmpBuff) && prefs == old(prefs) && input == old(input)
      ensures dst[..at] == old(dst[..at])
      ensures old(cStage) == 1 ==>
                (r == Error <==> || (old(tmpInSize) != 0 && cap < old(tmpInSize) + 4)
                                 || (prefs.contentSize != 0 && prefs.contentSize != |input| % WRAP64))
      ensures r != Error ==> cStage == 0 && at + r.n <= dst.Length
      ensures r != Error ==> EndRoom(prefs) <= r.n <= FlushRoom(prefs, old(tmpInSize)) + EndRoom(prefs)
      ensures r != Error && old(cStage) == 1 ==> Ended() && out == old(out) + dst[at..at + r.n]
      ensures r != Error && old(cStage) == 1 ==>
                Flushed(prefs, old(blocks), blocks, old(tmpBuff[..tmpInSize]), r.n - EndRoom(prefs))
      ensures r != Error && old(cStage) == 1 && Matchless(old(tmpBuff[..tmpInSize])) ==>
                r.n == FlushRoom(prefs, old(tmpInSize)) + EndRoom(prefs)
      ensures old(tmpInSize) == 0 || old(cStage) == 1 ==>
                forall k :: at + old(EndEnd(prefs, tmpInSize)) <= k < dst.Length ==> dst[k] == old(dst[k])
    {
      hide LE32, Xxh, Made, Contents, AllGood, EncodeHeader, BlocksBytes, Flushed, Matchless, BlockSpill, Ended,
           InFrame;
      r := Flush(dst, at, cap, hash);
      if r == Error {
        return;
      }
      ghost var flushed := dst[at..at + r.n];
      var pos := PutEnd(dst, at, at + r.n);
      Close(flushed, dst[at..pos]);
      if prefs.contentSize != 0 && prefs.contentSize != totalInSize {
        return Error;
      }
      r := Written(pos - at);
    }

    /** The frame is complete. */
    method Close(ghost flushed: seq<byte>, ghost all: seq<byte>)
      requires Valid() && tmpInSize == 0 && all == flushed + (LE32(0) + Checksum(prefs.contentChecksum, xxh))
      modifies `cStage, `maxBufferSize, `out
      ensures Valid() && cStage == 0
      ensures old(cStage) == 1 && (prefs.contentSize == 0 || prefs.contentSize == totalInSize) ==> Ended()
      ensures old(cStage) == 1 ==> out == old(out) + (LE32(0) + Checksum(prefs.contentChecksum, xxh))
      ensures old(cStage) == 1 && prefs.contentSize != 0 ==> totalInSize == |input| % WRAP64
    {
      hide LE32, Xxh, Made, Contents, AllGood, EncodeHeader, BlocksBytes;
      if cStage == 1 {
        ghost var before := out;
        NothingBuffered();
        Appended(before, LE32(0), Checksum(prefs.contentChecksum, xxh));
        out := out + LE32(0) + Checksum(prefs.contentChecksum, xxh);
        Whole(before);
      }
      cStage, maxBufferSize := 0, 0;
    }
  }

  lemma BufferMore(b: seq<byte>, had: seq<byte>, n: nat, x: seq<byte>)
    requires n + |x| <= |b| && b[..n] == had && b[n..n + |x|] == x
    ensures b[..n + |x|] == had + x
  {
  }

  /** Some bytes are given to a new encoder, and stay in its buffer. */
  method Buffered(p: Prefs, src: seq<byte>, hash: Hash) returns (c: Cctx)
    requires ValidPrefs(p) && |src| < BlockSize(EffectiveID(p.blockSizeID)) && (p.autoFlush ==> src == [])
    ensures fresh(c) && fresh(c.tmpBuff) && c.Valid() && c.cStage == 1 && c.tmpInSize == |src| <= c.tmpBuff.Length
    ensures c.prefs == p.(blockSizeID := EffectiveID(p.blockSizeID)) && c.tmpBuff[..c.tmpInSize] == src
    ensures c.input == src
  {
    hide Made, CompressBound;
    c := new Cctx();
    var dst := new byte[MAX_FH_SIZE](_ => 0);
    var r := c.Begin(dst, 0, MAX_FH_SIZE, p);
    c.SentFacts();
    dst := new byte[CompressBound(|src|, c.prefs, 0) + Spill(c.prefs)](_ => 0);
    r := c.Update(src, dst, 0, CompressBound(|src|, c.prefs, 0), hash);
    assert [] + src == src;
    assert Contents([]) + c.tmpBuff[..c.tmpInSize] == c.tmpBuff[..c.tmpInSize];
  }

  /** For every number of buffered bytes there are contents for which LZ4F_flush, given as little as it asks for, writes
      more than that: with block checksums, four bytes more than a caller with `t + 4` has. */
  method FlushWritesMore(t: nat, cap: nat, p: Prefs, hash: Hash) returns (r: Result)
    requires ValidPrefs(p) && !p.autoFlush && 0 < t < BlockSize(EffectiveID(p.blockSizeID))
    requires t + 4 <= cap < FlushRoom(p, t)
    ensures r == Written(FlushRoom(p, t)) && r.n > cap
  {
    hide Cctx.Valid, Matchless, TextWithoutMatch, Flushed;
    NoMatch(t);
    var c := Buffered(p, TextWithoutMatch(t), hash);
    var dst := new byte[FlushEnd(c.prefs, t)](_ => 0);
    r := c.Flush(dst, 0, cap, hash);
  }

  /** The same for LZ4F_compressEnd, which asks for nothing when nothing is buffered. */
  method EndWritesMore(t: nat, cap: nat, p: Prefs, hash: Hash) returns (r: Result)
    requires ValidPrefs(p) && (p.contentSize == 0 || p.contentSize == t)
    requires t < BlockSize(EffectiveID(p.blockSizeID)) && (p.autoFlush ==> t == 0)
    requires (t > 0 ==> t + 4 <= cap) && cap < FlushRoom(p, t) + EndRoom(p)
    ensures r == Written(FlushRoom(p, t) + EndRoom(p)) && r.n > cap
  {
    hide Cctx.Valid, Cctx.Ended, Matchless, TextWithoutMatch, Flushed;
    NoMatch(t);
    var c := Buffered(p, TextWithoutMatch(t), hash);
    var dst := new byte[EndEnd(c.prefs, t)](_ => 0);
    r := c.End(dst, 0, cap, hash);
  }

  /** One buffered byte and room for five: nine are written. Nothing buffered and no room: four, or eight. */
  method SmallestOverflows(p: Prefs, hash: Hash) returns (flushed: Result, ended: Result)
    requires ValidPrefs(p) && !p.autoFlush && p.blockChecksum && p.contentSize == 0
    ensures flushed == Written(9)
    ensures ended == Written(if p.contentChecksum then 8 else 4)
  {
    flushed := FlushWritesMore(1, 5, p, hash);
    ended := EndWritesMore(0, 0, p, hash);
  }

  /** LZ4F_compressFrame: the announced size is corrected, the block size chosen, everything flushed. */
  function OneShotPrefs(p: Prefs, srcSize: nat): Prefs {
    p.(contentSize := if p.contentSize != 0 then srcSize else 0, blockSizeID := OptimalID(p.blockSizeID, srcSize),
       autoFlush := true)
  }

  function HeaderSpace(p: Prefs): nat {
    7 + 8 * Bit(p.contentSize > 0) + 4 * Bit(p.dictID > 0)
  }

  lemma HeaderSpaceIs(p: Prefs)
    requires ValidPrefs(p)
    ensures |EncodeHeader(InfoOf(p))| == HeaderSpace(p) <= MAX_FH_SIZE
  {
    hide LE32, LE64, Xxh;
  }

  /** How far beyond the bound for a frame: less, if its header is shorter than the bound allows for. */
  function FrameSpill(srcSize: nat, p: Prefs): nat
    requires ValidID(p.blockSizeID)
  {
    OptimalChoice(p.blockSizeID, srcSize);
    var prefs := OneShotPrefs(p, srcSize);
    Positive(Spill(prefs) + HeaderSpace(prefs) - MAX_FH_SIZE)
  }

  /** With blocks of 1 MB it depends on the header and the checksums, and with those of 4 MB the bound is never kept. */
  predicate FrameKeepsTheBound(p: Prefs) {
    || KeepsTheBound(p)
    || (p.blockSizeID == 6 && 15 + HeaderSpace(p) <= MAX_FH_SIZE + 4 * Bit(p.blockChecksum) + EndRoom(p))
  }

  lemma FrameKeepsExactly(p: Prefs)
    requires ValidPrefs(p)
    ensures (forall srcSize: nat :: FrameSpill(srcSize, p) == 0) <==> FrameKeepsTheBound(p)
  {
    hide OptimalID;
    if FrameKeepsTheBound(p) {
      forall srcSize: nat
        ensures FrameSpill(srcSize, p) == 0
      {
        OptimalChoice(p.blockSizeID, srcSize);
      }
    } else {
      FullBlockID(p.blockSizeID);
      assert FrameSpill(BlockSize(p.blockSizeID), p) > 0;
    }
  }

  lemma FullBlockID(id: nat)
    requires 6 <= id <= 7
    ensures OptimalID(id, BlockSize(id)) == id
  {
    hide BlockSize;
    OptimalChoice(id, BlockSize(id));
    Sizes();
  }

  lemma Sizes()
    ensures BlockSize(4) < BlockSize(5) < BlockSize(6) < BlockSize(7)
  {
  }

  method CompressFrame(src: seq<byte>, dst: array<byte>, cap: nat, p: Prefs, hash: Hash)
    returns (r: Result, ghost i: Info, ghost bs: seq<Block>)
    requires ValidPrefs(p) && cap + FrameSpill(|src|, p) <= dst.Length && |src| < WRAP64
    modifies dst
    ensures cap >= CompressFrameBound(|src|, p) ==> r != Error
    ensures r == Error <==> cap < CompressFrameBound(|src|, OneShotPrefs(p, |src|))
    ensures r != Error ==>
              && r.n <= cap && r.n <= CompressFrameBound(|src|, p)
              && ValidInfo(i) && i == InfoOf(OneShotPrefs(p, |src|)) && AllGood(bs, BlockSize(i.blockSizeID))
              && dst[..r.n] == FrameBytes(i, bs) && Contents(bs) == src
    ensures forall k :: CompressFrameBound(|src|, p) + FrameSpill(|src|, p) <= k < dst.Length ==> dst[k] == old(dst[k])
    ensures r != Error && |src| == BlockSize(i.blockSizeID) && WrittenFarthest(p.level, src) ==>
              WrittenTo(dst, HeaderSpace(OneShotPrefs(p, |src|)), |src|)
  {
    hide AllGood, FrameBytes, Contents, BlocksBound, CompressBound, OptimalID, EncodeHeader, Cctx.Valid, Cctx.Ended,
         BlockSpill, WrittenFarthest, WrittenTo;
    var prefs := p.(contentSize := if p.contentSize != 0 then |src| else 0, autoFlush := true);
    var id := OptimalBSID(p.blockSizeID, |src|);
    prefs := prefs.(blockSizeID := id);
    OptimalChoice(p.blockSizeID, |src|);
    OptimalFits(|src|, p, prefs.contentSize);
    if cap < CompressFrameBound(|src|, prefs) {
      return Error, NO_INFO, [];
    }
    var cctx := new Cctx();
    r := cctx.Begin(dst, 0, cap, prefs);
    var n := r.n;
    SameBound(|src|, prefs);
    HeaderSpaceIs(cctx.prefs);
    SameSpill(prefs);
    var m := UpdateAndEnd(cctx, src, dst, n, cap, hash);
    i, bs := InfoOf(cctx.prefs), cctx.blocks;
    cctx.EndFacts();
    r := Written(m);
  }

  /** LZ4F_compressUpdate with the whole input. */
  method UpdateAll(cctx: Cctx, src: seq<byte>, dst: array<byte>, at: nat, hash: Hash) returns (m: nat)
    requires cctx.Valid() && cctx.cStage == 1 && dst != cctx.tmpBuff && cctx.prefs.autoFlush && cctx.tmpInSize == 0
    requires ValidPrefs(cctx.prefs) && at + CompressBound(|src|, cctx.prefs, 0) + Spill(cctx.prefs) <= dst.Length
    requires cctx.out == dst[..at] && cctx.input == []
    modifies cctx, dst, cctx.tmpBuff
    ensures cctx.Valid() && cctx.cStage == 1 && cctx.prefs == old(cctx.prefs) && cctx.tmpBuff == old(cctx.tmpBuff)
    ensures cctx.input == src && cctx.tmpInSize == 0
    ensures at <= m && m + EndRoom(cctx.prefs) <= at + CompressBound(|src|, cctx.prefs, 0) && dst[..m] == cctx.out
    ensures forall k :: at + CompressBound(|src|, cctx.prefs, 0) + Spill(cctx.prefs) <= k < dst.Length ==>
              dst[k] == old(dst[k])
    ensures |src| == BlockSize(cctx.prefs.blockSizeID) && WrittenFarthest(cctx.prefs.level, src) ==>
              WrittenTo(dst, at, |src|)
  {
    hide CompressBound, Cctx.Valid, BlockSpill, WrittenFarthest, WrittenTo;
    ghost var head := dst[..at];
    assert [] + src == src;
    cctx.InFrameFacts();
    var r := cctx.Update(src, dst, at, CompressBound(|src|, cctx.prefs, 0), hash);
    m := at + r.n;
    ghost var both := dst[..m];
    assert both[..at] == head && both[at..] == dst[at..m];
  }

  /** LZ4F_compressUpdate and LZ4F_compressEnd, with room for both. */
  method UpdateAndEnd(cctx: Cctx, src: seq<byte>, dst: array<byte>, at: nat, cap: nat, hash: Hash)
    returns (m: nat)
    requires cctx.Valid() && cctx.cStage == 1 && dst != cctx.tmpBuff && cctx.prefs.autoFlush && cctx.tmpInSize == 0
    requires ValidPrefs(cctx.prefs) && at + CompressBound(|src|, cctx.prefs, 0) + Spill(cctx.prefs) <= dst.Length
    requires at + CompressBound(|src|, cctx.prefs, 0) <= cap <= dst.Length && cctx.out == dst[..at] && cctx.input == []
    requires cctx.prefs.contentSize != 0 ==> cctx.prefs.contentSize == |src| % WRAP64
    modifies cctx, dst, cctx.tmpBuff
    ensures cctx.Ended() && cctx.prefs == old(cctx.prefs) && cctx.input == src
    ensures m <= cap && m <= at + CompressBound(|src|, cctx.prefs, 0) && dst[..m] == cctx.out
    ensures forall k :: at + CompressBound(|src|, cctx.prefs, 0) + Spill(cctx.prefs) <= k < dst.Length ==>
              dst[k] == old(dst[k])
    ensures |src| == BlockSize(cctx.prefs.blockSizeID) && WrittenFarthest(cctx.prefs.level, src) ==>
              WrittenTo(dst, at, |src|)
  {
    hide AllGood, FrameBytes, Contents, CompressBound, Cctx.Valid, Cctx.Ended, BlockSpill, WrittenFarthest;
    ghost var full := |src| == BlockSize(cctx.prefs.blockSizeID) && WrittenFarthest(cctx.prefs.level, src);
    m := UpdateAll(cctx, src, dst, at, hash);
    ghost var both := dst[..m];
    cctx.InFrameFacts();
    cctx.BoundFits();
    SmallestBound(cctx.prefs);
    if full {
      FullBlockEnd(cctx.prefs, src);
    }
    var r := cctx.End(dst, m, cap - m, hash);
    Pieces(dst[..], both, m, m + r.n);
    m := m + r.n;
  }

  /** What comes after a full block does not reach the last byte that was written for it. */
  lemma FullBlockEnd(p: Prefs, src: seq<byte>)
    requires ValidPrefs(p) && p.blockSizeID != 0 && |src| == BlockSize(p.blockSizeID) && WrittenFarthest(p.level, src)
    ensures CompressBound(|src|, p, 0) == Overhead(p.blockChecksum) + |src| + EndRoom(p)
    ensures CompressBound(|src|, p, 0) < 4 + Lz4Hc.FarthestEnd(|src|)
  {
    hide BlocksBound, Room, Lz4Hc.FarthestText;
    BoundIsRoom(|src|, p, 0);
    RoomStep(|src|, p.blockSizeID, p.blockChecksum, p.autoFlush);
    NoRoom(p.blockSizeID, p.blockChecksum, p.autoFlush);
  }

  lemma SameBound(n: nat, p: Prefs)
    ensures CompressBound(n, p.(blockSizeID := EffectiveID(p.blockSizeID)), 0) == CompressBound(n, p, 0)
  {
    hide BlocksBound;
  }

  lemma Pieces(s: seq<byte>, both: seq<byte>, m: nat, k: nat)
    requires m <= k <= |s| && s[..m] == both
    ensures s[..k] == both + s[m..k]
  {
  }

  // ---------- beyond the bound ----------

  /** The high levels with blocks of 1 MB or 4 MB: given exactly what LZ4F_compressBound asks for, LZ4F_compressUpdate
      writes beyond it, whatever the checksums and the hash. */
  method UpdateBeyondTheBound(p: Prefs, hash: Hash) returns (r: Result, dst: array<byte>, bound: nat, last: nat)
    requires ValidPrefs(p) && !KeepsTheBound(p)
    ensures fresh(dst) && r != Error && bound == CompressBound(BlockSize(EffectiveID(p.blockSizeID)), p, 0)
    ensures bound <= last < dst.Length && dst[last] != 1
  {
    hide Cctx.Valid, CompressBound, Lz4Hc.FarthestText, Lz4Hc.FarthestEnd, Lz4Hc.FullBlock, Spill, WrittenFarthest,
         WrittenTo, BlockSize;
    var n := BlockSize(EffectiveID(p.blockSizeID));
    FarthestBlock(p);
    SomeSize(EffectiveID(p.blockSizeID));
    SameBound(n, p);
    SameSpill(p);
    var c := Buffered(p, [], hash);
    c.InFrameFacts();
    FullBlockEnd(c.prefs, Lz4Hc.FarthestText(n));
    bound := CompressBound(n, p, 0);
    dst := new byte[bound + Spill(p)](_ => 1);
    r := c.Update(Lz4Hc.FarthestText(n), dst, 0, bound, hash);
    WrittenByte(dst, 0, n);
    last := 4 + Lz4Hc.FarthestEnd(n) - 1;
  }

  /** The same for LZ4F_compressFrame, and LZ4F_compressFrameBound of a full block. */
  method FrameBeyondTheBound(p: Prefs, hash: Hash) returns (r: Result, dst: array<byte>, bound: nat, last: nat)
    requires ValidPrefs(p) && !FrameKeepsTheBound(p)
    ensures fresh(dst) && r != Error && bound == CompressFrameBound(BlockSize(p.blockSizeID), p)
    ensures bound <= last < dst.Length && dst[last] != 1
  {
    hide CompressBound, Lz4Hc.FarthestText, Lz4Hc.FarthestEnd, Lz4Hc.FullBlock, OptimalID, AllGood, FrameBytes,
         Contents, Spill, WrittenFarthest, WrittenTo, BlockSize;
    var n := BlockSize(p.blockSizeID);
    NotKept(p);
    FarthestBlock(p);
    SomeSize(p.blockSizeID);
    FullBlockID(p.blockSizeID);
    FarthestFrame(p);
    bound := CompressFrameBound(n, p);
    dst := new byte[bound + FrameSpill(n, p)](_ => 1);
    ghost var i, bs;
    r, i, bs := CompressFrame(Lz4Hc.FarthestText(n), dst, bound, p, hash);
    WrittenByte(dst, HeaderSpace(OneShotPrefs(p, n)), n);
    last := HeaderSpace(OneShotPrefs(p, n)) + 4 + Lz4Hc.FarthestEnd(n) - 1;
  }

  lemma NotKept(p: Prefs)
    requires ValidPrefs(p) && !FrameKeepsTheBound(p)
    ensures 6 <= p.blockSizeID <= 7 && !KeepsTheBound(p) && LZ4HC_CLEVEL_MIN <= p.level
  {
  }

  lemma FarthestFrame(p: Prefs)
    requires ValidPrefs(p) && !FrameKeepsTheBound(p)
    requires OptimalID(p.blockSizeID, BlockSize(p.blockSizeID)) == p.blockSizeID
    ensures var n := BlockSize(p.blockSizeID);
            && n < WRAP64 && 0 < n
            && CompressFrameBound(n, p) < HeaderSpace(OneShotPrefs(p, n)) + 4 + Lz4Hc.FarthestEnd(n)
  {
    hide OptimalID, CompressBound, Lz4Hc.FarthestText;
    var q := p.(autoFlush := true);
    FarthestBlock(q);
    FullBlockEnd(q, Lz4Hc.FarthestText(BlockSize(p.blockSizeID)));
  }
}
