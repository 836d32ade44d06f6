/** What a frame encoder emits: a header, blocks that are compressed or stored, an end mark. And that the machine of the
    frame format decodes it, even in its strict form. */
module FrameBlocks {
  import opened Bytes
  import opened Lz4Format
  import opened Lz4RoundTrip
  import opened FrameFormat
  import opened FrameDecoder

  /** A block: what it contains, and what stands for it. */
  datatype Block = Block(content: seq<byte>, data: seq<byte>, stored: bool)

  /** A stored block is its content; a compressed one is shorter, and decodes to it. */
  ghost predicate Good(b: Block, maxSize: nat) {
    && 0 < |b.content| <= maxSize
    && if b.stored then b.data == b.content
       else 0 < |b.data| < |b.content| && DecodesTo(b.data, [], b.content)
  }

  function BlockField(b: Block): nat {
    |b.data| + if b.stored then UNCOMPRESSED_FLAG else 0
  }

  function Checksum(on: bool, x: seq<byte>): seq<byte> {
    if on then LE32(Xxh(x)) else []
  }

  function BlockBytes(crc: bool, b: Block): seq<byte> {
    LE32(BlockField(b)) + b.data + Checksum(crc, b.data)
  }

  function BlocksBytes(crc: bool, bs: seq<Block>): seq<byte> {
    if bs == [] then [] else BlocksBytes(crc, bs[..|bs| - 1]) + BlockBytes(crc, bs[|bs| - 1])
  }

  function Contents(bs: seq<Block>): seq<byte> {
    if bs == [] then [] else Contents(bs[..|bs| - 1]) + bs[|bs| - 1].content
  }

  ghost predicate AllGood(bs: seq<Block>, maxSize: nat) {
    forall i :: 0 <= i < |bs| ==> Good(bs[i], maxSize)
  }

  function EndBytes(i: Info, content: seq<byte>): seq<byte> {
    LE32(0) + Checksum(i.contentChecksum, content)
  }

  /** A whole frame. */
  function FrameBytes(i: Info, bs: seq<Block>): seq<byte>
    requires ValidInfo(i)
  {
    EncodeHeader(i) + BlocksBytes(i.blockChecksum, bs) + EndBytes(i, Contents(bs))
  }

  lemma BlocksMore(crc: bool, bs: seq<Block>, b: Block)
    ensures BlocksBytes(crc, bs + [b]) == BlocksBytes(crc, bs) + BlockBytes(crc, b)
    ensures Contents(bs + [b]) == Contents(bs) + b.content
  {
    assert (bs + [b])[..|bs|] == bs;
  }

  // ---------- the machine takes what was written ----------

  /** A block a decoder without history decodes, wherever it is, is accepted in the strict sense. */
  lemma GoodIsRobust(data: seq<byte>, content: seq<byte>, cap: nat)
    requires DecodesTo(data, [], content) && |content| <= cap && 0 < cap
    ensures Robust(data, [], cap) && Decoded(data, []) == Some(content)
  {
    hide SafeDecode, Decoded;
    forall w, lo: nat | Recent(w, [])
      ensures SafeDecode(data, w, lo, cap).Some?
    {
      assert w == [] && SafeDecode(data, [], lo, cap) == Some(content);
    }
    assert SafeDecode(data, [], 0, cap) == Some(content);
    assert [] + content == content;
    NothingBefore(data, content, cap);
  }

  lemma NothingBefore(data: seq<byte>, content: seq<byte>, cap: nat)
    requires 0 < cap && SafeDecode(data, [], 0, cap) == Some(content)
    ensures Decoded(data, []) == Some(content)
  {
    hide BlockDecode, NaiveDecode;
    BlockRefinesNaive(data, 0, [], 0, cap);
    assert content[0..] == content;
  }

  /** The header of a block. */
  lemma BlockHeaderRun(strict: bool, f: Frame, b: Block)
    requires f.phase == NEXT_BLOCK && 4 <= f.info.blockSizeID <= 7
    requires 0 < |b.data| <= BlockSize(f.info.blockSizeID)
    ensures WellFormed(f)
    ensures Run(strict, f, LE32(BlockField(b)))
         == Some(f.(phase := if b.stored then Raw(|b.data|, []) else Collect(Compressed(|b.data|), [])))
  {
    hide Run, Complete, LE32, ReadLE32;
    var x := LE32(BlockField(b));
    Dctx.Waits(f, BlockHeader, []);
    FieldSizes(f, [], []);
    CollectAll(strict, f, x);
    assert [] + x == x;
    Dctx.BlockHeaderDone(strict, f, x);
    ReadWritten32(BlockField(b));
  }

  /** The data of a compressed block and its checksum. */
  lemma CompressedRun(strict: bool, f: Frame, b: Block)
    requires f.phase == Collect(Compressed(|b.data|), []) && !f.info.linked
    requires !b.stored && Good(b, BlockSize(f.info.blockSizeID))
    ensures WellFormed(f)
    ensures Run(strict, f, b.data + Checksum(f.info.blockChecksum, b.data))
         == Some(Add(f, b.content).(phase := NEXT_BLOCK))
  {
    hide Run, Complete, LE32, ReadLE32, Xxh, Robust, Decoded, DecodesTo;
    var crc := Checksum(f.info.blockChecksum, b.data);
    var x := b.data + crc;
    CollectAll(strict, f, x);
    assert [] + x == x;
    BlockDone(strict, f, |b.data|, x);
    assert x[..|b.data|] == b.data;
    if f.info.blockChecksum {
      assert x[|b.data|..|b.data| + 4] == crc;
      ReadWritten32(Xxh(b.data));
    }
    GoodIsRobust(b.data, b.content, BlockSize(f.info.blockSizeID));
  }

  /** The data of a stored block and its checksum. */
  lemma StoredRun(strict: bool, f: Frame, b: Block)
    requires f.phase == Raw(|b.data|, []) && b.stored && Good(b, BlockSize(f.info.blockSizeID)) && f.remaining < WRAP64
    ensures WellFormed(f)
    ensures Run(strict, f, b.data + Checksum(f.info.blockChecksum, b.data))
         == Some(Add(f, b.content).(phase := NEXT_BLOCK))
  {
    hide Run, Complete, LE32, ReadLE32, Xxh, Minus64;
    var crc := Checksum(f.info.blockChecksum, b.data);
    RawRun(strict, f, b.data);
    assert [] + b.data == b.data;
    if f.info.blockChecksum {
      var g := Add(f, b.data).(phase := Collect(RawChecksum(b.data), []));
      RunConcat(strict, f, b.data, crc);
      CollectAll(strict, g, crc);
      assert [] + crc == crc;
      RawChecksumDone(strict, g, b.data, crc);
      ReadWritten32(Xxh(b.data));
    } else {
      assert b.data + crc == b.data;
    }
  }

  lemma BlockRun(strict: bool, f: Frame, b: Block)
    requires f.phase == NEXT_BLOCK && 4 <= f.info.blockSizeID <= 7 && !f.info.linked && f.remaining < WRAP64
    requires Good(b, BlockSize(f.info.blockSizeID))
    ensures WellFormed(f) && Run(strict, f, BlockBytes(f.info.blockChecksum, b)) == Some(Add(f, b.content))
  {
    hide Run, LE32, Checksum, DecodesTo, Minus64, BlockField;
    var head, rest := LE32(BlockField(b)), b.data + Checksum(f.info.blockChecksum, b.data);
    assert BlockBytes(f.info.blockChecksum, b) == head + rest;
    BlockHeaderRun(strict, f, b);
    RunConcat(strict, f, head, rest);
    var g := f.(phase := if b.stored then Raw(|b.data|, []) else Collect(Compressed(|b.data|), []));
    if b.stored {
      StoredRun(strict, g, b);
    } else {
      CompressedRun(strict, g, b);
    }
    assert Add(g, b.content).(phase := NEXT_BLOCK) == Add(f, b.content);
  }

  /** All blocks: the content is that of the blocks, and the announced size is counted down. */
  lemma {:induction false} BlocksRun(strict: bool, f: Frame, bs: seq<Block>)
    requires f.phase == NEXT_BLOCK && 4 <= f.info.blockSizeID <= 7 && !f.info.linked && f.remaining < WRAP64
    requires AllGood(bs, BlockSize(f.info.blockSizeID))
    ensures WellFormed(f) && Run(strict, f, BlocksBytes(f.info.blockChecksum, bs)) == Some(Add(f, Contents(bs)))
    decreases |bs|
  {
    hide Run, BlockBytes, Minus64, Good;
    Dctx.Waits(f, BlockHeader, []);
    if bs == [] {
      RunNothing();
      MinusNothing(f.remaining);
      assert f.content + [] == f.content;
    } else {
      var most, last := bs[..|bs| - 1], bs[|bs| - 1];
      BlocksRun(strict, f, most);
      var g := Add(f, Contents(most));
      MinusBelow(f.remaining, |Contents(most)|);
      BlockRun(strict, g, last);
      RunConcat(strict, f, BlocksBytes(f.info.blockChecksum, most), BlockBytes(f.info.blockChecksum, last));
      MinusTwice(f.remaining, |Contents(most)|, |last.content|);
      assert f.content + Contents(most) + last.content == f.content + (Contents(most) + last.content);
    }
  }

  /** The end mark, accepted when the announced size was right, and the checksum of the content. */
  lemma EndRun(strict: bool, f: Frame)
    requires f.phase == NEXT_BLOCK && 4 <= f.info.blockSizeID <= 7
    ensures WellFormed(f)
    ensures Run(strict, f, EndBytes(f.info, f.content)) == if f.remaining == 0 then Some(f.(phase := Done)) else None
  {
    hide Run, Complete, LE32, ReadLE32, Xxh;
    var mark, crc := LE32(0), Checksum(f.info.contentChecksum, f.content);
    Dctx.Waits(f, BlockHeader, []);
    FieldSizes(f, [], []);
    CollectAll(strict, f, mark);
    assert [] + mark == mark;
    Dctx.BlockHeaderDone(strict, f, mark);
    ReadWritten32(0);
    RunConcat(strict, f, mark, crc);
    if f.info.contentChecksum && f.remaining == 0 {
      var g := f.(phase := Collect(Suffix, []));
      Dctx.SuffixDone(strict, g, []);
      Dctx.SuffixDone(strict, g, crc);
      CollectAll(strict, g, crc);
      assert [] + crc == crc;
      ReadWritten32(Xxh(f.content));
    } else {
      assert f.info.contentChecksum || mark + crc == mark;
    }
  }

  /** The header. */
  lemma HeaderRun(strict: bool, i: Info, r: nat)
    requires ValidInfo(i)
    ensures WellFormed(Begin(r))
    ensures Run(strict, Begin(r), EncodeHeader(i))
         == Some(Frame(NEXT_BLOCK, i, [], if i.contentSize > 0 then i.contentSize else r))
  {
    hide Run, Step, FlagByte, Flag, LE32, LE64, ReadLE32, ReadLE64, HeaderChecksum, ParseHeader, HeaderSize, FlagsOk,
         Skippable;
    var f, h := Begin(r), EncodeHeader(i);
    HeaderParsed(i);
    HeaderLength(i);
    FlagsOfByte(i);
    assert h[4] == FlagByte(i) by { HeaderFlags(i); }
    var seven := h[..MIN_FH_SIZE];
    SameStart(h);
    assert [] + seven == seven;
    CollectRun(strict, f, seven);
    CollectedHeader(strict, f, seven);
    if |h| > MIN_FH_SIZE {
      var g := f.(phase := Collect(Header, seven));
      var rest := h[MIN_FH_SIZE..];
      assert seven + rest == h;
      CollectRun(strict, g, rest);
      CollectedHeader(strict, g, h);
      RunConcat(strict, f, seven, rest);
    } else {
      assert seven == h;
    }
  }

  lemma HeaderFlags(i: Info)
    requires ValidInfo(i)
    ensures |EncodeHeader(i)| > 4 && EncodeHeader(i)[4] == FlagByte(i)
  {
  }

  lemma SameStart(h: seq<byte>)
    requires |h| >= MIN_FH_SIZE
    ensures var s := h[..MIN_FH_SIZE];
            Skippable(s) == Skippable(h) && FlagsOk(s) == FlagsOk(h) && HeaderSize(s) == HeaderSize(h)
  {
    assert h[..MIN_FH_SIZE][..4] == h[..4];
  }

  /** The size that was announced is the right one, modulo 2^64; without one, none must be left from an earlier
      frame. */
  predicate SizeRight(i: Info, n: nat, r: nat) {
    if i.contentSize > 0 then i.contentSize == n % WRAP64 else r == 0
  }

  lemma MinusAll(size: nat, n: nat)
    requires size < WRAP64
    ensures Minus64(size, n) == 0 <==> size == n % WRAP64
  {
    assert n == WRAP64 * (n / WRAP64) + n % WRAP64;
    ModShift(size - n % WRAP64, -(n / WRAP64));
  }

  /** A frame is decoded completely, to the contents of its blocks, if and only if its size is right: what an earlier
      frame left counted does not matter if this one announces its size, and must be nothing if it does not. */
  lemma FrameRun(strict: bool, i: Info, bs: seq<Block>, r: nat)
    requires ValidInfo(i) && !i.linked && AllGood(bs, BlockSize(i.blockSizeID)) && r < WRAP64
    ensures WellFormed(Begin(r))
    ensures var g := Run(strict, Begin(r), FrameBytes(i, bs));
            && (g.Some? <==> SizeRight(i, |Contents(bs)|, r))
            && (g.Some? ==> g.value.phase == Done && g.value.content == Contents(bs) && g.value.remaining == 0)
  {
    hide Run, EncodeHeader, BlocksBytes, EndBytes, Contents, AllGood, ValidInfo, Minus64;
    InfoID(i);
    var head, body, end := EncodeHeader(i), BlocksBytes(i.blockChecksum, bs), EndBytes(i, Contents(bs));
    HeaderRun(strict, i, r);
    var f := Frame(NEXT_BLOCK, i, [], if i.contentSize > 0 then i.contentSize else r);
    BlocksRun(strict, f, bs);
    var g := Add(f, Contents(bs));
    assert [] + Contents(bs) == Contents(bs);
    MinusAll(i.contentSize, |Contents(bs)|);
    EndRun(strict, g);
    RunConcat(strict, f, body, end);
    RunConcat(strict, Begin(r), head, body + end);
    assert head + body + end == head + (body + end);
  }

  /** LZ4F_resetDecompressionContext is meant to give a clean context, but what was left of the announced size of an
      interrupted frame stays: after nothing but a header that announces a size, any frame that announces none, and
      that a new context decodes, is refused. */
  lemma ResetIsNotClean(strict: bool, announcing: Info, plain: Info, bs: seq<Block>)
    requires ValidInfo(announcing) && announcing.contentSize > 0
    requires ValidInfo(plain) && !plain.linked && plain.contentSize == 0 && AllGood(bs, BlockSize(plain.blockSizeID))
    ensures WellFormed(Begin(0)) && WellFormed(Begin(announcing.contentSize))
    ensures Run(strict, Begin(0), EncodeHeader(announcing))
         == Some(Frame(NEXT_BLOCK, announcing, [], announcing.contentSize))
    ensures Run(strict, Begin(0), FrameBytes(plain, bs)).Some?
    ensures Run(strict, Begin(announcing.contentSize), FrameBytes(plain, bs)).None?
  {
    hide Run, FrameBytes, EncodeHeader, AllGood;
    HeaderRun(strict, announcing, 0);
    FrameRun(strict, plain, bs, 0);
    FrameRun(strict, plain, bs, announcing.contentSize);
  }

  // ---------- damage ----------

  /** Whatever the block is, it is refused with a checksum that is not its own. */
  lemma WrongBlockChecksum(strict: bool, f: Frame, b: Block, crc: seq<byte>)
    requires f.phase == NEXT_BLOCK && 4 <= f.info.blockSizeID <= 7 && f.info.blockChecksum && f.remaining < WRAP64
    requires 0 < |b.data| <= BlockSize(f.info.blockSizeID) && |crc| == 4
    ensures WellFormed(f)
    ensures crc != LE32(Xxh(b.data)) ==> Run(strict, f, LE32(BlockField(b)) + (b.data + crc)) == None
  {
    hide Run, Complete, LE32, ReadLE32, Xxh, BlockField, BlockContent, Minus64;
    WrittenRead32(crc);
    BlockHeaderRun(strict, f, b);
    RunConcat(strict, f, LE32(BlockField(b)), b.data + crc);
    if crc == LE32(Xxh(b.data)) {
    } else if b.stored {
      StoredDamaged(strict, f.(phase := Raw(|b.data|, [])), b.data, crc);
    } else {
      var x := b.data + crc;
      CollectAll(strict, f.(phase := Collect(Compressed(|b.data|), [])), x);
      assert [] + x == x && x[..|b.data|] == b.data && x[|b.data|..|b.data| + 4] == crc;
      BlockDone(strict, f.(phase := Collect(Compressed(|b.data|), [])), |b.data|, x);
    }
  }

  lemma StoredDamaged(strict: bool, f: Frame, data: seq<byte>, crc: seq<byte>)
    requires f.phase == Raw(|data|, []) && 0 < |data| && f.info.blockChecksum && f.remaining < WRAP64
    requires |crc| == 4 && ReadLE32(crc) != Xxh(data)
    ensures WellFormed(f) && Run(strict, f, data + crc) == None
  {
    hide Run, Complete, ReadLE32, Xxh, Minus64;
    RawRun(strict, f, data);
    var g := Add(f, data).(phase := Collect(RawChecksum(data), []));
    assert [] + data == data && [] + crc == crc;
    RunConcat(strict, f, data, crc);
    CollectAll(strict, g, crc);
    RawChecksumDone(strict, g, data, crc);
  }

  /** So is a block whose size is above the size of the blocks. */
  lemma BlockTooLong(strict: bool, f: Frame, size: nat, stored: bool)
    requires f.phase == NEXT_BLOCK && 4 <= f.info.blockSizeID <= 7
    requires BlockSize(f.info.blockSizeID) < size < UNCOMPRESSED_FLAG
    ensures WellFormed(f) && Run(strict, f, LE32(size + if stored then UNCOMPRESSED_FLAG else 0)) == None
  {
    hide Run, Complete, LE32, ReadLE32;
    var x := LE32(size + if stored then UNCOMPRESSED_FLAG else 0);
    Dctx.Waits(f, BlockHeader, []);
    FieldSizes(f, [], []);
    CollectAll(strict, f, x);
    assert [] + x == x;
    Dctx.BlockHeaderDone(strict, f, x);
    ReadWritten32(size + if stored then UNCOMPRESSED_FLAG else 0);
  }

  /** And so is the end of a frame with a checksum that is not that of the content. */
  lemma WrongContentChecksum(strict: bool, f: Frame, crc: seq<byte>)
    requires f.phase == NEXT_BLOCK && 4 <= f.info.blockSizeID <= 7 && f.info.contentChecksum
    requires |crc| == 4
    ensures WellFormed(f) && (crc != LE32(Xxh(f.content)) ==> Run(strict, f, LE32(0) + crc) == None)
  {
    hide Run, Complete, LE32, ReadLE32, Xxh;
    WrittenRead32(crc);
    var mark := LE32(0);
    Dctx.Waits(f, BlockHeader, []);
    FieldSizes(f, [], []);
    CollectAll(strict, f, mark);
    assert [] + mark == mark && [] + crc == crc;
    Dctx.BlockHeaderDone(strict, f, mark);
    ReadWritten32(0);
    RunConcat(strict, f, mark, crc);
    var g := f.(phase := Collect(Suffix, []));
    Dctx.SuffixDone(strict, g, crc);
    if f.remaining == 0 {
      CollectAll(strict, g, crc);
    }
  }

  lemma InfoID(i: Info)
    requires ValidInfo(i)
    ensures 4 <= i.blockSizeID <= 7 && i.contentSize < WRAP64
  {
  }

  /** A frame is not complete before its last byte. */
  lemma NotBeforeTheEnd(f: Frame, x: seq<byte>, n: nat)
    requires WellFormed(f) && n < |x| && Run(true, f, x).Some?
    ensures Run(true, f, x[..n]).Some? && Run(true, f, x[..n]).value.phase != Done
  {
    hide Run, Step;
    assert x == x[..n] + x[n..];
    RunConcat(true, f, x[..n], x[n..]);
    RunFirst(true, Run(true, f, x[..n]).value, x[n..]);
    DoneStops(Run(true, f, x[..n]).value, x[n]);
  }

  lemma DoneStops(f: Frame, b: byte)
    requires WellFormed(f)
    ensures f.phase == Done ==> Step(true, f, b) == None
  {
  }
}
