/** LZ4F_decompress: a state machine of fifteen stages that can stop after any input byte and any output byte. It is
    related to the byte-at-a-time machine of the frame format. */
module FrameDecoder {
  import opened Bytes
  import opened Lz4Format
  import opened FrameFormat
  import opened FrameHistory
  import opened FrameWindow

  datatype Stage =
    | GetFrameHeader | StoreFrameHeader | Init | GetBlockHeader | StoreBlockHeader | CopyDirect | GetBlockChecksum
    | GetCBlock | StoreCBlock | FlushOut | GetSuffix | StoreSuffix | GetSFrameSize | StoreSFrameSize | SkipSkippable

  /** How a stage ends: with another stage, waiting for the caller, with a complete frame, or with an error. */
  datatype Status = Go | Stop | Finished | Fail

  datatype Result = Error | Hint(size: nat)

  /** In the stage that checks the end of the blocks, the machine has already taken the end mark. */
  function Settle(stage: Stage, f: Frame): Option<Frame> {
    if stage == GetSuffix then Finish(f) else Some(f)
  }

  ghost function RunFrom(strict: bool, f: Option<Frame>, x: seq<byte>): Option<Frame>
    requires f.Some? ==> WellFormed(f.value)
  {
    if f.None? then None else Run(strict, f.value, x)
  }

  ghost predicate FailsFrom(f: Option<Frame>, x: seq<byte>)
    requires f.Some? ==> WellFormed(f.value)
  {
    f.None? || Fails(f.value, x)
  }

  // ---------- facts about the machine, as the stages need them ----------

  /** Fewer bytes than needed. */
  lemma CollectSome(strict: bool, f: Frame, x: seq<byte>)
    requires WellFormed(f) && f.phase.Collect?
    requires |f.phase.got| + |x| < Need(f, f.phase.kind, f.phase.got)
    ensures Run(strict, f, x) == Some(f.(phase := Collect(f.phase.kind, f.phase.got + x)))
  {
    hide Complete, Step, Run, Need;
    if x == [] {
      RunNothing();
      assert f.phase.got + x == f.phase.got;
    } else {
      CollectRun(strict, f, x);
      NeedKept(f, f.phase.kind, f.phase.got, x);
    }
  }

  lemma NeedKept(f: Frame, kind: Kind, got: seq<byte>, x: seq<byte>)
    requires |got| + |x| < Need(f, kind, got)
    ensures Need(f, kind, got + x) == Need(f, kind, got)
  {
    if kind.Header? && |got| >= MIN_FH_SIZE {
      assert (got + x)[..4] == got[..4];
    }
  }

  /** All of the bytes needed, for the fields whose size is known beforehand. */
  lemma CollectAll(strict: bool, f: Frame, x: seq<byte>)
    requires WellFormed(f) && f.phase.Collect? && !f.phase.kind.Header?
    requires |f.phase.got| + |x| == Need(f, f.phase.kind, f.phase.got)
    ensures |f.phase.got + x| == Need(f, f.phase.kind, f.phase.got + x)
    ensures Run(strict, f, x) == Complete(strict, f, f.phase.kind, f.phase.got + x)
    ensures strict && Run(strict, f, x).None? ==> Fails(f, x)
  {
    hide Complete, Step, Run, Fails;
    CollectRun(strict, f, x);
    if strict && Run(strict, f, x).None? {
      CollectFails(f, x);
    }
  }

  /** A header of which all bytes are there at once. */
  lemma HeaderAtOnce(strict: bool, f: Frame, h: seq<byte>)
    requires f.phase == Collect(Header, []) && |h| >= MAX_FH_SIZE
    ensures WellFormed(f)
    ensures Skippable(h) ==> Run(strict, f, h[..4]) == Some(f.(phase := Collect(Header, h[..4])))
    ensures !Skippable(h) && !FlagsOk(h) ==>
              Run(strict, f, h[..MIN_FH_SIZE]) == None && (strict ==> Fails(f, h[..MIN_FH_SIZE]))
    ensures !Skippable(h) && FlagsOk(h) ==>
              var g := h[..HeaderSize(h)];
              && HeaderSize(g) == HeaderSize(h) && FlagsOk(g) && !Skippable(g)
              && Run(strict, f, g) == HeaderDone(f, g) && (strict && HeaderDone(f, g).None? ==> Fails(f, g))
  {
    hide Run, Step, Fails;
    var seven := h[..MIN_FH_SIZE];
    assert [] + h[..4] == h[..4] && [] + seven == seven;
    assert h[..4] == seven[..4];
    if Skippable(h) {
      CollectSome(strict, f, h[..4]);
    } else {
      CollectRun(strict, f, seven);
      if strict && Run(strict, f, seven).None? {
        CollectFails(f, seven);
      }
      if FlagsOk(h) && HeaderSize(h) > MIN_FH_SIZE {
        var g := f.(phase := Collect(Header, seven));
        var rest := h[MIN_FH_SIZE..HeaderSize(h)];
        assert seven + rest == h[..HeaderSize(h)];
        assert h[..HeaderSize(h)][..4] == seven[..4];
        CollectRun(strict, g, rest);
        RunConcat(strict, f, seven, rest);
        if strict && Run(strict, g, rest).None? {
          CollectFails(g, rest);
          RunFails(f, seven, rest);
        }
      }
    }
  }

  /** What comes of a header, once its flags are known. */
  lemma CollectedHeader(strict: bool, f: Frame, h: seq<byte>)
    requires MIN_FH_SIZE <= |h| <= Need(f, Header, h)
    ensures Skippable(h) && |h| == MIN_FH_SIZE ==>
              Collected(strict, f, Header, h) == Some(f.(phase := Collect(Header, h)))
    ensures !Skippable(h) && !FlagsOk(h) ==> Collected(strict, f, Header, h) == None
    ensures !Skippable(h) && FlagsOk(h) && |h| < HeaderSize(h) ==>
              Collected(strict, f, Header, h) == Some(f.(phase := Collect(Header, h)))
    ensures !Skippable(h) && FlagsOk(h) && |h| == HeaderSize(h) ==> Collected(strict, f, Header, h) == HeaderDone(f, h)
  {
  }

  lemma SkippableKept(f: Frame, got: seq<byte>, x: seq<byte>)
    requires |got| >= 4 && Skippable(got)
    ensures Skippable(got + x) && Need(f, Header, got) == if |got| < MIN_FH_SIZE then MIN_FH_SIZE else 8
  {
    assert (got + x)[..4] == got[..4];
  }

  function SkippableDone(f: Frame, h: seq<byte>): Frame
    requires |h| == 8
  {
    var size := ReadLE32(h[4..8]);
    f.(phase := if size == 0 then Done else Skip(size))
  }

  lemma SkippableCollected(strict: bool, f: Frame, h: seq<byte>)
    requires 4 <= |h| <= 8 && Skippable(h)
    ensures |h| <= Need(f, Header, h)
    ensures |h| < 8 ==> Collected(strict, f, Header, h) == Some(f.(phase := Collect(Header, h)))
    ensures |h| == 8 ==> Collected(strict, f, Header, h) == Some(SkippableDone(f, h))
  {
    hide ReadLE32;
  }

  /** The rest of the header of a skippable frame, or part of it. */
  lemma SkippableRun(strict: bool, f: Frame, x: seq<byte>)
    requires WellFormed(f) && f.phase.Collect? && f.phase.kind == Header
    requires |f.phase.got| >= 4 && Skippable(f.phase.got) && |f.phase.got| + |x| <= 8
    ensures var h := f.phase.got + x;
            Run(strict, f, x) == Some(if |h| < 8 then f.(phase := Collect(Header, h)) else SkippableDone(f, h))
  {
    hide Run, Skippable, Need, Collected, Step;
    var got := f.phase.got;
    SkippableKept(f, got, x);
    SkippableCollected(strict, f, got + x);
    if x == [] {
      RunNothing();
      assert got + x == got;
      SkippableNotDone(f);
    } else if |got| < MIN_FH_SIZE < |got| + |x| {
      var y, z := x[..MIN_FH_SIZE - |got|], x[MIN_FH_SIZE - |got|..];
      SkippableKept(f, got, y);
      CollectRun(strict, f, y);
      SkippableCollected(strict, f, got + y);
      var g := f.(phase := Collect(Header, got + y));
      SkippableKept(g, got + y, z);
      CollectRun(strict, g, z);
      assert x == y + z && got + y + z == got + x;
      SkippableCollected(strict, g, got + x);
      RunConcat(strict, f, y, z);
    } else {
      CollectRun(strict, f, x);
    }
  }

  lemma SkippableNotDone(f: Frame)
    requires WellFormed(f) && f.phase.Collect? && f.phase.kind == Header
    requires |f.phase.got| >= 4 && Skippable(f.phase.got)
    ensures |f.phase.got| < 8
  {
  }

  function HeaderDone(f: Frame, h: seq<byte>): Option<Frame>
    requires MIN_FH_SIZE <= |h| == HeaderSize(h)
  {
    var i := ParseHeader(h);
    if i.None? then None
    else Some(Frame(NEXT_BLOCK, i.value, [], if Flag(h[4], 8) then i.value.contentSize else f.remaining))
  }

  lemma RawChecksumDone(strict: bool, f: Frame, data: seq<byte>, got: seq<byte>)
    requires |got| == 4
    ensures Need(f, RawChecksum(data), got) == 4 && WellFormed(f.(phase := NEXT_BLOCK))
    ensures Complete(strict, f, RawChecksum(data), got)
         == if ReadLE32(got) != Xxh(data) then None else Some(f.(phase := NEXT_BLOCK))
  {
    hide Xxh, ReadLE32;
  }

  lemma BlockDone(strict: bool, f: Frame, size: nat, got: seq<byte>)
    requires |got| == size + 4 * Bit(f.info.blockChecksum)
    ensures Need(f, Compressed(size), got) == |got|
    ensures Complete(strict, f, Compressed(size), got)
         == if f.info.blockChecksum && ReadLE32(got[size..size + 4]) != Xxh(got[..size]) then None
            else ContentAdded(strict, f, got[..size])
  {
    hide Xxh, ReadLE32, BlockContent;
  }

  ghost function ContentAdded(strict: bool, f: Frame, block: seq<byte>): Option<Frame> {
    var x := BlockContent(strict, f, block);
    if x.None? then None else Some(Add(f, x.value).(phase := NEXT_BLOCK))
  }

  lemma FieldSizes(f: Frame, got: seq<byte>, data: seq<byte>)
    ensures Need(f, BlockHeader, got) == BH_SIZE && Need(f, RawChecksum(data), got) == 4 && Need(f, Suffix, got) == 4
  {
  }

  lemma RunPrefix(strict: bool, f: Option<Frame>, x: seq<byte>, i: nat, j: nat)
    requires f.Some? ==> WellFormed(f.value)
    requires i <= j <= |x|
    ensures var g := RunFrom(strict, f, x[..i]);
            (g.Some? ==> WellFormed(g.value)) && RunFrom(strict, f, x[..j]) == RunFrom(strict, g, x[i..j])
  {
    hide Run;
    assert x[..j] == x[..i] + x[i..j];
    if f.Some? {
      RunConcat(strict, f.value, x[..i], x[i..j]);
    }
  }

  lemma PrefixSlice(h: seq<byte>, n: nat, i: nat, j: nat)
    requires i <= j <= n <= |h|
    ensures h[..n][i..j] == h[i..j]
  {
  }

  /** memcpy of input into a field that is being collected. */
  method Take(buf: array<byte>, size: nat, target: nat, src: seq<byte>, ip: nat) returns (n: nat)
    requires size <= target <= buf.Length && ip <= |src|
    modifies buf
    ensures n == Min(target - size, |src| - ip) && buf[..size + n] == old(buf[..size]) + src[ip..ip + n]
  {
    n := Min(target - size, |src| - ip);
    forall i | 0 <= i < n {
      buf[size + i] := src[ip + i];
    }
  }

  /** Order of the stages that follow one another without taking input or giving output. */
  function Rank(s: Stage): nat {
    match s
    case Init => 3
    case FlushOut => 3
    case GetFrameHeader => 2
    case GetBlockHeader => 2
    case GetCBlock => 2
    case GetSuffix => 2
    case GetSFrameSize => 2
    case _ => 1
  }

  /** LZ4F_dctx. The streaming hash states are the bytes they were given. */
  class Dctx {
    const win: Window
    const header: array<byte>
    var tmpIn: array<byte>
    var stage: Stage
    var info: Info
    var remaining: nat
    var maxBlockSize: nat
    var maxBufferSize: nat
    var tmpInSize: nat
    var tmpInTarget: nat
    var xxh: seq<byte>
    var blockXxh: seq<byte>

    /** The machine after the same bytes, apart from its phase, and its phase; what the user was given; what is decoded
        but not given yet. */
    ghost var base: Frame
    ghost var phase: Phase
    ghost var given: seq<byte>
    ghost var pending: seq<byte>
    /** Block size ID for which the buffers were allocated. */
    ghost var allocID: nat

    ghost function M(): Frame
      reads `base, `phase
    {
      base.(phase := phase)
    }

    /** No two buffers are the same. */
    ghost predicate Separate(dst: array<byte>)
      reads `tmpIn, win`buf
    {
      && header.Length == MAX_FH_SIZE && header != tmpIn && win.buf != header && win.buf != tmpIn
      && dst != header && dst != tmpIn && dst != win.buf
    }

    /** Both buffers were allocated together, for the same block size. */
    ghost predicate Allocated()
      reads `tmpIn, `maxBufferSize, `allocID, win`buf
    {
      && win.buf.Length == maxBufferSize
      && (maxBufferSize == 0 ||
          (4 <= allocID <= 7 && tmpIn.Length == BlockSize(allocID) + 4 &&
           (maxBufferSize == BlockSize(allocID) || maxBufferSize == BlockSize(allocID) + 2 * KB64)))
    }

    /** Before the header is complete. */
    ghost predicate NoHeader()
      reads `base, `given, `remaining, win`dict, win`dictSize
    {
      && given == [] && base.content == [] && base.remaining == remaining < WRAP64
      && win.dict == Nowhere && win.dictSize == 0
    }

    /** What the header said, and the sizes that follow from it. */
    ghost predicate Announced()
      reads `base, `info, `remaining, `maxBlockSize, `xxh
    {
      SizesKnown() && (info.contentChecksum ==> xxh == base.content)
    }

    /** The buffers are large enough for this frame. */
    ghost predicate Roomy()
      reads `info, `maxBlockSize, `tmpIn, win`buf, win`tmpOut
    {
      && maxBlockSize + 4 <= tmpIn.Length
      && if info.linked then maxBlockSize + 2 * KB64 <= win.buf.Length else win.tmpOut + maxBlockSize <= win.buf.Length
    }

    /** Between blocks and while the input of a block is collected: everything decoded was given to the user. */
    ghost predicate InBlocks(dst: array<byte>, pos: nat)
      reads `base, `info, `remaining, `maxBlockSize, `xxh, `given, `tmpIn, win, win.buf, dst
    {
      Announced() && Roomy() && base.content == given && win.Ready(info.linked, dst, pos, given)
    }

    /** What the stages before the blocks hold, in terms of the machine; and those of skippable frames. */
    ghost predicate RepHeader()
      reads `stage, `tmpInSize, `tmpInTarget, `base, `phase, `given, `info, `remaining, `maxBlockSize, win`dict,
            win`dictSize, header
    {
      NoHeader() &&
      match stage
      case GetFrameHeader => phase == Collect(Header, [])
      case StoreFrameHeader =>
        && tmpInSize < tmpInTarget <= header.Length && phase == Collect(Header, header[..tmpInSize])
        && tmpInTarget == Need(M(), Header, header[..tmpInSize])
        && (tmpInSize >= MIN_FH_SIZE ==> !Skippable(header[..tmpInSize]))
      case GetSFrameSize =>
        phase.Collect? && phase.kind == Header && |phase.got| == 4 && Skippable(phase.got)
      case StoreSFrameSize =>
        && 4 <= tmpInSize < 8 == tmpInTarget <= header.Length
        && phase.Collect? && phase.kind == Header && |phase.got| == tmpInSize && Skippable(phase.got)
        && phase.got[4..] == header[4..tmpInSize]
      case SkipSkippable => phase == if tmpInTarget == 0 then Done else Skip(tmpInTarget)
      case Init => phase == NEXT_BLOCK && SizesKnown()
      case _ => false
    }

    /** What the stages of blocks hold; `ready` and `busy` say what holds of the history between blocks and while a
        block is flushed. */
    ghost predicate BlockStages(ready: bool, busy: bool)
      reads `stage, `phase, `info, `tmpInSize, `tmpInTarget, `maxBlockSize, `blockXxh, `tmpIn, tmpIn, header
    {
      match stage
      case GetBlockHeader => phase == NEXT_BLOCK && ready
      case StoreBlockHeader =>
        tmpInSize < BH_SIZE <= tmpIn.Length && phase == Collect(BlockHeader, tmpIn[..tmpInSize]) && ready
      case CopyDirect =>
        phase.Raw? && phase.left == tmpInTarget > 0 && (info.blockChecksum ==> blockXxh == phase.got) && ready
      case GetBlockChecksum =>
        tmpInSize < 4 <= header.Length && phase == Collect(RawChecksum(blockXxh), header[..tmpInSize]) && ready
      case GetCBlock => BlockPart() && phase.got == [] && ready
      case StoreCBlock =>
        BlockPart() && tmpInSize < tmpInTarget <= tmpIn.Length && phase.got == tmpIn[..tmpInSize] && ready
      case FlushOut => phase == NEXT_BLOCK && busy
      case _ => false
    }

    /** While a decoded block is flushed. */
    ghost predicate InFlush(dst: array<byte>, pos: nat)
      reads `base, `info, `remaining, `maxBlockSize, `xxh, `given, `pending, `tmpIn, win, win.buf, dst
    {
      && Announced() && Roomy() && base.content == given + pending
      && win.Busy(info.linked, dst, pos, given, pending, win.tmpOutStart)
    }

    ghost predicate RepBlocks(dst: array<byte>, pos: nat)
      reads this, win, win.buf, tmpIn, header, dst
    {
      BlockStages(InBlocks(dst, pos), InFlush(dst, pos))
    }

    /** What the stages after the blocks hold. */
    ghost predicate RepEnd()
      reads `stage, `tmpInSize, `tmpIn, `base, `phase, `given, `info, `remaining, `maxBlockSize, `xxh, tmpIn
    {
      && 4 <= tmpIn.Length && Announced() && base.content == given
      && match stage {
           case GetSuffix => phase == Ended
           case StoreSuffix => tmpInSize < 4 && phase == Collect(Suffix, tmpIn[..tmpInSize]) && info.contentChecksum
           case _ => false
         }
    }

    ghost predicate Rep(dst: array<byte>, pos: nat)
      reads this, win, win.buf, tmpIn, header, dst
    {
      (RepHeader() && pos == 0) || RepBlocks(dst, pos) || RepEnd()
    }

    /** The size of a compressed block and its checksum. */
    ghost predicate BlockPart()
      reads `phase, `info, `tmpInTarget, `maxBlockSize
    {
      && phase.Collect? && phase.kind.Compressed?
      && 0 < phase.kind.size <= maxBlockSize && tmpInTarget == phase.kind.size + 4 * Bit(info.blockChecksum)
    }

    ghost predicate SizesKnown()
      reads `base, `info, `remaining, `maxBlockSize
    {
      && info == base.info && 4 <= info.blockSizeID <= 7 && maxBlockSize == BlockSize(info.blockSizeID)
      && base.remaining == remaining < WRAP64
    }

    ghost predicate Inv(dst: array<byte>, pos: nat)
      reads this, win, win.buf, tmpIn, header, dst
    {
      Separate(dst) && Allocated() && pos <= dst.Length && WellFormed(M()) && Rep(dst, pos)
    }

    /** LZ4F_createDecompressionContext: all fields zero. */
    constructor ()
      ensures fresh(win) && fresh(win.buf) && fresh(header) && fresh(tmpIn)
      ensures M() == Begin(0) && given == [] && win.buf != header && win.buf != tmpIn
      ensures Valid()
    {
      win := new Window();
      header := new byte[MAX_FH_SIZE](_ => 0);
      tmpIn := new byte[0];
      stage, info, remaining, maxBlockSize, maxBufferSize := GetFrameHeader, NO_INFO, 0, 0, 0;
      tmpInSize, tmpInTarget, xxh, blockXxh := 0, 0, [], [];
      base, phase, given, pending, allocID := Begin(0), Collect(Header, []), [], [], 4;
    }

    // ---------- the header ----------

    /** LZ4F_decodeHeader, on the bytes in the header buffer or straight on the input, which then has at least the
        largest size a header can have. */
    method DecodeHeader(h: seq<byte>, inHeader: bool) returns (ok: bool, used: nat)
      requires |h| >= MIN_FH_SIZE && (inHeader || |h| >= MAX_FH_SIZE)
      modifies `stage, `info, `remaining, `maxBlockSize, `tmpInSize, `tmpInTarget
      ensures Skippable(h) ==> ok && remaining == old(remaining)
      ensures Skippable(h) && inHeader ==> used == |h| == tmpInSize && tmpInTarget == 8 && stage == StoreSFrameSize
      ensures Skippable(h) && !inHeader ==> used == 4 && stage == GetSFrameSize
      ensures !Skippable(h) && !FlagsOk(h) ==> !ok
      ensures !Skippable(h) && FlagsOk(h) && |h| < HeaderSize(h) ==>
                && ok && used == |h| == tmpInSize && tmpInTarget == HeaderSize(h) && stage == StoreFrameHeader
                && remaining == old(remaining)
      ensures !Skippable(h) && FlagsOk(h) && |h| >= HeaderSize(h) ==>
                var g := h[..HeaderSize(h)];
                && HeaderSize(g) == |g| && (ok <==> ParseHeader(g).Some?)
                && (ok ==> && used == |g| && stage == Init && Some(info) == ParseHeader(g)
                           && 4 <= info.blockSizeID <= 7 && maxBlockSize == BlockSize(info.blockSizeID)
                           && remaining == if Flag(g[4], 8) then info.contentSize else old(remaining))
      ensures old(remaining) < WRAP64 ==> remaining < WRAP64
      ensures !ok ==> remaining == old(remaining)
    {
      hide ReadLE32, ReadLE64, HeaderChecksum;
      ok, used := true, |h|;
      if Skippable(h) {
        if inHeader {
          tmpInSize, tmpInTarget, stage := |h|, 8, StoreSFrameSize;
        } else {
          stage, used := GetSFrameSize, 4;
        }
        return;
      }
      if !FlagsOk(h) {
        return false, 0;
      }
      var flg := h[4];
      var size := MIN_FH_SIZE + 8 * Bit(Flag(flg, 8)) + 4 * Bit(Flag(flg, 1));
      if |h| < size {
        tmpInSize, tmpInTarget, stage := |h|, size, StoreFrameHeader;
        return;
      }
      ghost var g := h[..size];
      var blockSizeID := h[5] / 16 % 8;
      if h[5] / 128 == 1 || blockSizeID < 4 || h[5] % 16 != 0 {
        return false, 0;
      }
      PrefixSlice(h, size, 4, size - 1);
      if HeaderChecksum(h[4..size - 1]) != h[size - 1] {
        return false, 0;
      }
      var contentSize, dictID := 0, 0;
      if Flag(flg, 8) {
        contentSize := ReadLE64(h[6..14]);
        remaining := contentSize;
        PrefixSlice(h, size, 6, 14);
      }
      if Flag(flg, 1) {
        dictID := ReadLE32(h[size - 5..size - 1]);
        PrefixSlice(h, size, size - 5, size - 1);
      }
      info := Info(blockSizeID, !Flag(flg, 32), Flag(flg, 16), Flag(flg, 4), contentSize, dictID);
      maxBlockSize, stage, used := BlockSize(blockSizeID), Init, size;
    }

    /** A header that is wholly in the input is decoded there. */
    method HeaderInInput(h: seq<byte>, dst: array<byte>) returns (ok: bool, used: nat)
      requires Separate(dst) && Allocated() && NoHeader() && phase == Collect(Header, []) && |h| >= MAX_FH_SIZE
      modifies `stage, `info, `remaining, `maxBlockSize, `tmpInSize, `tmpInTarget, `base, `phase
      ensures 0 < used <= |h|
      ensures !ok ==> Fails(old(M()), h[..used])
      ensures ok ==>
                WellFormed(M()) && RepHeader() && Run(false, old(M()), h[..used]) == Some(M()) && stage != GetSuffix
      ensures !ok ==> remaining == old(remaining)
    {
      hide Run, Fails, Skippable, FlagsOk, ParseHeader, HeaderSize, Flag;
      HeaderAtOnce(true, M(), h);
      HeaderAtOnce(false, M(), h);
      ok, used := DecodeHeader(h, false);
      if !ok {
        used := if FlagsOk(h) then HeaderSize(h) else MIN_FH_SIZE;
      } else if Skippable(h) {
        phase := Collect(Header, h[..4]);
        SkippableStart(h);
      } else {
        base := HeaderDone(M(), h[..used]).value;
        phase := base.phase;
      }
    }

    /** Stage getFrameHeader. */
    method AtGetFrameHeader(src: seq<byte>, ip: nat, dst: array<byte>) returns (st: Status, ip': nat, hint: nat)
      requires Inv(dst, 0) && stage == GetFrameHeader && ip <= |src|
      modifies `stage, `info, `remaining, `maxBlockSize, `tmpInSize, `tmpInTarget, `base, `phase
      ensures ip <= ip' <= |src| && (st == Fail || st == Go || (st == Stop && ip' == |src| && hint > 0))
      ensures st == Fail ==> FailsFrom(Some(old(M())), src[ip..ip'])
      ensures st != Fail ==> Inv(dst, 0) && RunFrom(false, Some(old(M())), src[ip..ip']) == Settle(stage, M())
      ensures st == Go ==> ip < ip' || Rank(stage) < Rank(GetFrameHeader)
      ensures st != Fail ==> stage != GetSuffix
      ensures st == Stop ==> phase != Done
      ensures st == Fail ==> remaining == old(remaining)
    {
      hide Run, Fails, Skippable, RepBlocks, RepEnd;
      OnlyHeader(dst);
      if |src| - ip >= MAX_FH_SIZE {
        var ok, used := HeaderInInput(src[ip..], dst);
        ip' := ip + used;
        assert src[ip..ip'] == src[ip..][..used];
        return if ok then Go else Fail, ip', 0;
      }
      tmpInSize := 0;
      RunNothing();
      assert src[ip..ip] == [];
      if |src| == ip {
        return Stop, ip, MIN_FH_SIZE;
      }
      tmpInTarget, stage := MIN_FH_SIZE, StoreFrameHeader;
      assert header[..0] == [];
      return Go, ip, 0;
    }

    lemma SkippableStart(h: seq<byte>)
      requires |h| >= 4
      ensures Skippable(h[..4]) == Skippable(h) && Need(M(), Header, h[..4]) == MIN_FH_SIZE
    {
      assert h[..4][..4] == h[..4];
    }

    lemma OnlyHeader(dst: array<byte>)
      requires Rep(dst, 0)
      requires stage in {GetFrameHeader, StoreFrameHeader, Init, GetSFrameSize, StoreSFrameSize, SkipSkippable}
      ensures RepHeader()
    {
    }

    /** The header is as long as its flags ask for, or they are not known yet. */
    method HeaderComplete(ghost got: seq<byte>, ghost x: seq<byte>, dst: array<byte>) returns (ok: bool)
      requires WellFormed(M()) && NoHeader() && Separate(dst) && Allocated() && phase == Collect(Header, got)
      requires |got| + |x| == tmpInTarget == Need(M(), Header, got) && tmpInTarget <= MAX_FH_SIZE
      requires header[..tmpInTarget] == got + x && (|got| >= MIN_FH_SIZE ==> !Skippable(got)) && x != []
      modifies `stage, `info, `remaining, `maxBlockSize, `tmpInSize, `tmpInTarget, `base, `phase
      ensures !ok ==> Fails(old(M()), x)
      ensures ok ==> WellFormed(M()) && RepHeader() && Run(false, old(M()), x) == Some(M()) && stage != GetSuffix
      ensures !ok ==> remaining == old(remaining)
    {
      hide Run, Fails, Skippable, FlagsOk, ParseHeader, HeaderSize, Flag, Collected;
      var h := header[..tmpInTarget];
      CollectRun(true, M(), x);
      CollectRun(false, M(), x);
      CollectedHeader(true, M(), h);
      CollectedHeader(false, M(), h);
      if Run(true, M(), x).None? {
        CollectFails(M(), x);
      }
      KeptFlags(got, x);
      HeaderAtLeast(M(), got);
      var used;
      ok, used := DecodeHeader(h, true);
      assert h[..|h|] == h;
      if ok {
        base := Collected(false, M(), Header, h).value;
        phase := base.phase;
      }
    }

    lemma HeaderAtLeast(f: Frame, got: seq<byte>)
      ensures Need(f, Header, got) >= MIN_FH_SIZE && (|got| < MIN_FH_SIZE ==> Need(f, Header, got) == MIN_FH_SIZE)
    {
    }

    /** Stage storeFrameHeader: first the smallest header, then as much as its flags ask for. */
    method AtStoreFrameHeader(src: seq<byte>, ip: nat, dst: array<byte>) returns (st: Status, ip': nat, hint: nat)
      requires Inv(dst, 0) && stage == StoreFrameHeader && ip <= |src|
      modifies `stage, `info, `remaining, `maxBlockSize, `tmpInSize, `tmpInTarget, `base, `phase, header
      ensures ip <= ip' <= |src| && (st == Fail || st == Go || (st == Stop && ip' == |src| && hint > 0))
      ensures st == Fail ==> FailsFrom(Some(old(M())), src[ip..ip'])
      ensures st != Fail ==> Inv(dst, 0) && RunFrom(false, Some(old(M())), src[ip..ip']) == Settle(stage, M())
      ensures st == Go ==> ip < ip'
      ensures st != Fail ==> stage != GetSuffix
      ensures st == Stop ==> phase != Done
      ensures st == Fail ==> remaining == old(remaining)
    {
      hide Run, Fails, Skippable, Need, RepBlocks, RepEnd;
      OnlyHeader(dst);
      ghost var got := header[..tmpInSize];
      var n := Take(header, tmpInSize, tmpInTarget, src, ip);
      ip' := ip + n;
      ghost var x := src[ip..ip'];
      if tmpInSize + n < tmpInTarget {
        CollectSome(false, M(), x);
        NeedKept(M(), Header, got, x);
        KeptFlags(got, x);
        HeaderAtLeast(M(), got);
        NeedSame(M(), Collect(Header, got + x), Header, got + x);
        tmpInSize := tmpInSize + n;
        phase := Collect(Header, got + x);
        return Stop, ip', tmpInTarget - tmpInSize + BH_SIZE;
      }
      var ok := HeaderComplete(got, x, dst);
      st, hint := if ok then Go else Fail, 0;
    }

    lemma KeptFlags(got: seq<byte>, x: seq<byte>)
      ensures |got| >= MIN_FH_SIZE && !Skippable(got) ==> !Skippable(got + x)
    {
      if |got| >= MIN_FH_SIZE {
        assert (got + x)[..4] == got[..4];
      }
    }

    // ---------- skippable frames ----------

    /** The frame is complete, and the context ready for another one. */
    ghost predicate AtEnd(dst: array<byte>)
      reads `stage, `base, `phase, `given, `remaining, `tmpIn, `maxBufferSize, `allocID, win`buf, win`dict, win`dictSize
    {
      && Separate(dst) && Allocated() && phase == Done && given == base.content && stage == GetFrameHeader
      && win.dict == Nowhere && win.dictSize == 0 && base.remaining == remaining < WRAP64
    }

    /** LZ4F_resetDecompressionContext. */
    method ResetContext()
      modifies `stage, win`dict, win`dictSize
      ensures stage == GetFrameHeader && win.dict == Nowhere && win.dictSize == 0
    {
      stage := GetFrameHeader;
      win.dict, win.dictSize := Nowhere, 0;
    }

    /** The eight bytes of a skippable frame's header are there. */
    method DecodeSFrameSize(field: seq<byte>, ghost x: seq<byte>, dst: array<byte>)
      requires WellFormed(M()) && NoHeader() && Separate(dst) && Allocated()
      requires phase.Collect? && phase.kind == Header && |phase.got| >= 4 && Skippable(phase.got)
      requires x != [] && |phase.got + x| == 8 && |field| == 4 && (phase.got + x)[4..8] == field
      modifies `info, `tmpInTarget, `stage, `phase
      ensures Inv(dst, 0) && stage == SkipSkippable && Run(false, old(M()), x) == Some(M())
    {
      hide Run, Fails, Skippable, ReadLE32, RepBlocks, RepEnd;
      SkippableRun(false, M(), x);
      var size := ReadLE32(field);
      info := info.(contentSize := size);
      tmpInTarget, stage := size, SkipSkippable;
      phase := if size == 0 then Done else Skip(size);
    }

    /** Stage getSFrameSize. */
    method AtGetSFrameSize(src: seq<byte>, ip: nat, dst: array<byte>) returns (st: Status, ip': nat, hint: nat)
      requires Inv(dst, 0) && stage == GetSFrameSize && ip <= |src|
      modifies `info, `stage, `tmpInSize, `tmpInTarget, `base, `phase
      ensures ip <= ip' <= |src| && st == Go
      ensures Inv(dst, 0) && stage != GetSuffix && RunFrom(false, Some(old(M())), src[ip..ip']) == Settle(stage, M())
      ensures ip < ip' || Rank(stage) < Rank(GetSFrameSize)
    {
      hide Run, Fails, Skippable, RepBlocks, RepEnd;
      OnlyHeader(dst);
      st, ip', hint := Go, ip, 0;
      if |src| - ip >= 4 {
        ip' := ip + 4;
        DecodeSFrameSize(src[ip..ip'], src[ip..ip'], dst);
      } else {
        tmpInSize, tmpInTarget, stage := 4, 8, StoreSFrameSize;
        RunNothing();
        assert src[ip..ip] == [];
      }
    }

    /** Stage storeSFrameSize: only the last four bytes of the header buffer are used. */
    method AtStoreSFrameSize(src: seq<byte>, ip: nat, dst: array<byte>) returns (st: Status, ip': nat, hint: nat)
      requires Inv(dst, 0) && stage == StoreSFrameSize && ip <= |src|
      modifies `info, `stage, `tmpInSize, `tmpInTarget, `base, `phase, header
      ensures ip <= ip' <= |src| && (st == Go || (st == Stop && ip' == |src| && hint > 0))
      ensures Inv(dst, 0) && stage != GetSuffix && RunFrom(false, Some(old(M())), src[ip..ip']) == Settle(stage, M())
      ensures st == Go ==> ip < ip'
      ensures st == Stop ==> phase != Done
    {
      hide Run, Fails, Skippable, ReadLE32, RepBlocks, RepEnd;
      OnlyHeader(dst);
      ghost var got := phase.got;
      ghost var stored := header[..tmpInSize];
      assert stored[4..] == header[4..tmpInSize];
      var n := Take(header, tmpInSize, tmpInTarget, src, ip);
      ip' := ip + n;
      ghost var x := src[ip..ip'];
      TakenField(got, x, stored);
      assert header[4..tmpInSize + n] == header[..tmpInSize + n][4..];
      if tmpInSize + n < tmpInTarget {
        SkippableRun(false, M(), x);
        SkippableKept(M(), got, x);
        tmpInSize := tmpInSize + n;
        phase := Collect(Header, got + x);
        return Stop, ip', tmpInTarget - tmpInSize;
      }
      DecodeSFrameSize(header[4..8], x, dst);
      st, hint := Go, 0;
    }

    lemma TakenField(got: seq<byte>, x: seq<byte>, stored: seq<byte>)
      requires |got| == |stored| >= 4 && stored[4..] == got[4..]
      ensures (got + x)[4..] == (stored + x)[4..]
    {
      assert (got + x)[4..] == got[4..] + x;
      assert (stored + x)[4..] == stored[4..] + x;
    }

    /** Stage skipSkippable. */
    method AtSkipSkippable(src: seq<byte>, ip: nat, dst: array<byte>) returns (st: Status, ip': nat, hint: nat)
      requires Inv(dst, 0) && stage == SkipSkippable && ip <= |src|
      modifies `stage, `tmpInTarget, `base, `phase, win`dict, win`dictSize
      ensures ip <= ip' <= |src| && RunFrom(false, Some(old(M())), src[ip..ip']) == Settle(stage, M())
      ensures (st == Stop && ip' == |src| && hint > 0 && stage != GetSuffix && phase != Done && Inv(dst, 0))
           || (st == Finished && hint == 0 && AtEnd(dst))
      ensures stage != GetSuffix
    {
      hide Run, Fails, Skippable, RepBlocks, RepEnd;
      OnlyHeader(dst);
      var skipSize := Min(tmpInTarget, |src| - ip);
      ip' := ip + skipSize;
      if tmpInTarget > 0 {
        SkipRun(false, M(), src[ip..ip']);
      } else {
        RunNothing();
        assert src[ip..ip'] == [];
      }
      phase := if tmpInTarget == skipSize then Done else Skip(tmpInTarget - skipSize);
      tmpInTarget := tmpInTarget - skipSize;
      hint := tmpInTarget;
      if hint > 0 {
        return Stop, ip', hint;
      }
      ResetContext();
      st := Finished;
    }

    // ---------- blocks ----------

    /** The buffers are allocated again only if the internal output buffer is too small. */
    method Allocate(bufferNeeded: nat, dst: array<byte>)
      requires Separate(dst) && Allocated() && SizesKnown()
      requires bufferNeeded == maxBlockSize + if info.linked then 2 * KB64 else 0
      modifies `tmpIn, `maxBufferSize, `allocID, win`buf
      ensures Separate(dst) && Allocated() && maxBlockSize + 4 <= tmpIn.Length && bufferNeeded <= win.buf.Length
      ensures (tmpIn == old(tmpIn) && win.buf == old(win.buf)) || (fresh(tmpIn) && fresh(win.buf))
    {
      LargestFits(allocID, info.blockSizeID, maxBufferSize);
      if bufferNeeded > maxBufferSize {
        tmpIn := new byte[maxBlockSize + 4](_ => 0);
        win.buf := new byte[bufferNeeded](_ => 0);
        maxBufferSize := bufferNeeded;
        allocID := info.blockSizeID;
      }
    }

    /** Stage init. */
    method AtInit(dst: array<byte>)
      requires Inv(dst, 0) && stage == Init
      modifies `stage, `xxh, `tmpIn, `maxBufferSize, `tmpInSize, `tmpInTarget, `allocID
      modifies win`buf, win`tmpOut, win`tmpOutStart, win`tmpOutSize
      ensures Inv(dst, 0) && stage == GetBlockHeader && M() == old(M()) && given == old(given)
      ensures (tmpIn == old(tmpIn) && win.buf == old(win.buf)) || (fresh(tmpIn) && fresh(win.buf))
      ensures stage != GetSuffix
    {
      hide RepHeader, RepEnd, RepBlocks, Allocated, InBlocks, NoHeader, SizesKnown;
      InitFacts(dst);
      if info.contentChecksum {
        xxh := [];
      }
      Allocate(maxBlockSize + if info.linked then 2 * KB64 else 0, dst);
      StartBlocks(dst);
    }

    /** The rest of stage init. */
    method StartBlocks(dst: array<byte>)
      requires phase == NEXT_BLOCK && SizesKnown() && NoHeader() && Separate(dst)
      requires (info.contentChecksum ==> xxh == []) && maxBlockSize + 4 <= tmpIn.Length
      requires maxBlockSize + (if info.linked then 2 * KB64 else 0) <= win.buf.Length
      modifies `stage, `tmpInSize, `tmpInTarget, win`tmpOut, win`tmpOutStart, win`tmpOutSize
      ensures stage == GetBlockHeader && RepBlocks(dst, 0)
    {
      hide RepBlocks, NoHeader, SizesKnown;
      tmpInSize, tmpInTarget := 0, 0;
      win.tmpOut, win.tmpOutStart, win.tmpOutSize := 0, 0, 0;
      stage := GetBlockHeader;
      BlocksStart(dst);
    }

    lemma InitFacts(dst: array<byte>)
      requires Rep(dst, 0) && stage == Init
      ensures phase == NEXT_BLOCK && SizesKnown() && NoHeader()
    {
    }

    lemma BlocksStart(dst: array<byte>)
      requires stage == GetBlockHeader && phase == NEXT_BLOCK && SizesKnown() && NoHeader() && Separate(dst)
      requires (info.contentChecksum ==> xxh == []) && maxBlockSize + 4 <= tmpIn.Length && win.tmpOut == 0
      requires maxBlockSize + (if info.linked then 2 * KB64 else 0) <= win.buf.Length
      ensures RepBlocks(dst, 0)
    {
      LargestFits(info.blockSizeID, info.blockSizeID, 0);
      EmptyIsReady(dst);
    }

    lemma BlocksFacts(dst: array<byte>, pos: nat)
      requires InBlocks(dst, pos)
      ensures SizesKnown() && maxBlockSize + 4 <= tmpIn.Length && base.content == given
      ensures info == base.info && 4 <= info.blockSizeID <= 7 && maxBlockSize == BlockSize(info.blockSizeID)
      ensures base.remaining == remaining < WRAP64
    {
    }

    lemma SuffixStart(dst: array<byte>, pos: nat)
      requires InBlocks(dst, pos) && stage == GetSuffix && phase == Ended
      ensures Rep(dst, pos) && WellFormed(M())
    {
    }

    /** What comes of the header of a block. */
    static lemma BlockHeaderDone(strict: bool, f: Frame, got: seq<byte>)
      requires |got| == BH_SIZE && 4 <= f.info.blockSizeID <= 7
      ensures var size := ReadLE32(got) % UNCOMPRESSED_FLAG;
              Complete(strict, f, BlockHeader, got)
              == if size == 0 then Finish(f.(phase := Ended))
                 else if size > BlockSize(f.info.blockSizeID) then None
                 else Some(f.(phase := if ReadLE32(got) >= UNCOMPRESSED_FLAG then Raw(size, [])
                                       else Collect(Compressed(size), [])))
      ensures |got| == Need(f, BlockHeader, got)
    {
    }

    /** If the output buffer is large enough, so is the input buffer, though its size is not looked at. */
    lemma LargestFits(a: nat, b: nat, size: nat)
      ensures 4 <= a <= 7 && 4 <= b <= 7 && size <= BlockSize(a) + 2 * KB64 && BlockSize(b) <= size ==>
                BlockSize(b) <= BlockSize(a)
      ensures BlockSize(b) >= KB64
    {
    }

    lemma EmptyIsReady(dst: array<byte>)
      requires dst != win.buf && win.dict == Nowhere && win.dictSize == 0
      requires info.linked ==> 3 * KB64 <= win.buf.Length
      ensures win.Ready(info.linked, dst, 0, [])
    {
      EndsWithNothing([]);
      assert dst[..0] == [];
      RecentNothing();
    }

    lemma RepGetBlockHeader(dst: array<byte>, pos: nat)
      ensures stage == GetBlockHeader ==> (Rep(dst, pos) <==> phase == NEXT_BLOCK && InBlocks(dst, pos))
    {
    }

    lemma RepStoreBlockHeader(dst: array<byte>, pos: nat)
      ensures stage == StoreBlockHeader ==>
                (Rep(dst, pos) <==>
                   && tmpInSize < BH_SIZE <= tmpIn.Length && phase == Collect(BlockHeader, tmpIn[..tmpInSize])
                   && InBlocks(dst, pos))
    {
    }

    lemma RepCopyDirect(dst: array<byte>, pos: nat)
      ensures stage == CopyDirect ==>
                (Rep(dst, pos) <==>
                   && phase.Raw? && phase.left == tmpInTarget > 0 && (info.blockChecksum ==> blockXxh == phase.got)
                   && InBlocks(dst, pos))
    {
    }

    lemma RepGetBlockChecksum(dst: array<byte>, pos: nat)
      ensures stage == GetBlockChecksum ==>
                (Rep(dst, pos) <==>
                   && tmpInSize < 4 <= header.Length && phase == Collect(RawChecksum(blockXxh), header[..tmpInSize])
                   && InBlocks(dst, pos))
    {
    }

    lemma RepGetCBlock(dst: array<byte>, pos: nat)
      ensures stage == GetCBlock ==> (Rep(dst, pos) <==> BlockPart() && phase.got == [] && InBlocks(dst, pos))
    {
    }

    lemma RepStoreCBlock(dst: array<byte>, pos: nat)
      ensures stage == StoreCBlock ==>
                (Rep(dst, pos) <==>
                   && BlockPart() && tmpInSize < tmpInTarget <= tmpIn.Length && phase.got == tmpIn[..tmpInSize]
                   && InBlocks(dst, pos))
    {
    }

    lemma RepFlushOut(dst: array<byte>, pos: nat)
      ensures stage == FlushOut ==> (Rep(dst, pos) <==> phase == NEXT_BLOCK && InFlush(dst, pos))
    {
    }

    lemma InFlushParts(dst: array<byte>, pos: nat)
      ensures InFlush(dst, pos) <==>
                && Announced() && Roomy() && base.content == given + pending
                && win.Busy(info.linked, dst, pos, given, pending, win.tmpOutStart)
    {
    }

    /** A field of which bytes are still missing, an uncompressed block of which bytes are still missing, and the
        start of a block header are states in which the machine waits. */
    static lemma Waits(f: Frame, kind: Kind, got: seq<byte>)
      ensures |got| < Need(f, kind, got) ==> WellFormed(f.(phase := Collect(kind, got)))
      ensures WellFormed(f.(phase := NEXT_BLOCK))
    {
      NeedSame(f, Collect(kind, got), kind, got);
    }

    /** The four bytes of a block header are there. */
    method DecodeBlockHeader(got: seq<byte>, ghost x: seq<byte>, dst: array<byte>, pos: nat)
      returns (st: Status, hint: nat)
      requires Separate(dst) && Allocated() && pos <= dst.Length && WellFormed(M()) && InBlocks(dst, pos)
      requires phase.Collect? && phase.kind == BlockHeader && got == phase.got + x && |got| == BH_SIZE
      modifies `stage, `tmpInTarget, `blockXxh, `phase
      ensures st == Fail || Settle(stage, M()).None? ==> Fails(old(M()), x)
      ensures st != Fail ==> Inv(dst, pos) && Run(false, old(M()), x) == Settle(stage, M())
      ensures || st == Fail || st == Go
              || (st == Stop && pos == dst.Length && hint > 0 && stage != GetSuffix && phase != Done)
    {
      hide Run, Fails, ReadLE32, Rep, InBlocks, Complete, WellFormed, Need, SizesKnown;
      BlocksFacts(dst, pos);
      BlockHeaderDone(true, M(), got);
      BlockHeaderDone(false, M(), got);
      FieldSizes(M(), phase.got, []);
      CollectAll(true, M(), x);
      CollectAll(false, M(), x);
      var nextCBlockSize := ReadLE32(got) % UNCOMPRESSED_FLAG;
      var crcSize := 4 * Bit(info.blockChecksum);
      hint := 0;
      if nextCBlockSize == 0 {
        phase, stage := Ended, GetSuffix;
        SuffixStart(dst, pos);
        return Go, 0;
      }
      if nextCBlockSize > maxBlockSize {
        return Fail, 0;
      }
      if ReadLE32(got) >= UNCOMPRESSED_FLAG {
        tmpInTarget := nextCBlockSize;
        if info.blockChecksum {
          blockXxh := [];
        }
        phase, stage := Raw(nextCBlockSize, []), CopyDirect;
        RepCopyDirect(dst, pos);
        return Go, 0;
      }
      tmpInTarget := nextCBlockSize + crcSize;
      phase, stage := Collect(Compressed(nextCBlockSize), []), GetCBlock;
      RepGetCBlock(dst, pos);
      st := Go;
      if pos == dst.Length {
        st, hint := Stop, nextCBlockSize + crcSize + BH_SIZE;
      }
    }

    /** Stage getBlockHeader. */
    method AtGetBlockHeader(src: seq<byte>, ip: nat, dst: array<byte>, pos: nat)
      returns (st: Status, ip': nat, hint: nat)
      requires Inv(dst, pos) && stage == GetBlockHeader && ip <= |src|
      modifies `stage, `tmpInSize, `tmpInTarget, `blockXxh, `phase
      ensures ip <= ip' <= |src|
      ensures st == Fail || Settle(stage, M()).None? ==> FailsFrom(Some(old(M())), src[ip..ip'])
      ensures st != Fail ==> Inv(dst, pos) && RunFrom(false, Some(old(M())), src[ip..ip']) == Settle(stage, M())
      ensures || st == Fail || st == Go
              || (st == Stop && pos == dst.Length && hint > 0 && stage != GetSuffix && phase != Done)
      ensures st == Go ==> ip < ip' || Rank(stage) < Rank(GetBlockHeader)
    {
      hide Run, Fails, ReadLE32, Rep, InBlocks, WellFormed, Need;
      RepGetBlockHeader(dst, pos);
      BlocksFacts(dst, pos);
      if |src| - ip >= BH_SIZE {
        ip' := ip + BH_SIZE;
        assert [] + src[ip..ip'] == src[ip..ip'];
        st, hint := DecodeBlockHeader(src[ip..ip'], src[ip..ip'], dst, pos);
      } else {
        tmpInSize, stage := 0, StoreBlockHeader;
        st, ip', hint := Go, ip, 0;
        RunNothing();
        assert src[ip..ip] == [] && tmpIn[..0] == [];
        RepStoreBlockHeader(dst, pos);
      }
    }

    /** Stage storeBlockHeader. */
    method AtStoreBlockHeader(src: seq<byte>, ip: nat, dst: array<byte>, pos: nat)
      returns (st: Status, ip': nat, hint: nat)
      requires Inv(dst, pos) && stage == StoreBlockHeader && ip <= |src|
      modifies `stage, `tmpInSize, `tmpInTarget, `blockXxh, `phase, tmpIn
      ensures ip <= ip' <= |src|
      ensures st == Fail || Settle(stage, M()).None? ==> FailsFrom(Some(old(M())), src[ip..ip'])
      ensures st != Fail ==> Inv(dst, pos) && RunFrom(false, Some(old(M())), src[ip..ip']) == Settle(stage, M())
      ensures || st == Fail || st == Go
              || (st == Stop && (ip' == |src| || pos == dst.Length) && hint > 0 && stage != GetSuffix && phase != Done)
      ensures st == Go ==> ip < ip'
    {
      hide Run, Fails, ReadLE32, Rep, InBlocks, WellFormed, Need;
      RepStoreBlockHeader(dst, pos);
      FieldSizes(M(), phase.got, []);
      ghost var got := tmpIn[..tmpInSize];
      var n := Take(tmpIn, tmpInSize, BH_SIZE, src, ip);
      ip' := ip + n;
      tmpInSize := tmpInSize + n;
      if tmpInSize < BH_SIZE {
        CollectSome(false, M(), src[ip..ip']);
        phase := Collect(BlockHeader, got + src[ip..ip']);
        RepStoreBlockHeader(dst, pos);
        return Stop, ip', BH_SIZE - tmpInSize;
      }
      st, hint := DecodeBlockHeader(tmpIn[..BH_SIZE], src[ip..ip'], dst, pos);
    }

    /** `x` was decoded and given to the user: what follows from it for the fields. */
    method Account(x: seq<byte>, ghost give: seq<byte>)
      requires Announced()
      modifies `xxh, `remaining, `base, `given
      ensures Announced() && base == old(Add(base, x)) && given == old(given) + give
    {
      hide Minus64;
      MinusBelow(remaining, |x|);
      if info.contentChecksum {
        xxh := xxh + x;
      }
      if info.contentSize != 0 {
        remaining := Minus64(remaining, |x|);
      }
      base := Add(base, x);
      given := given + give;
    }

    lemma InBlocksParts(dst: array<byte>, pos: nat)
      ensures InBlocks(dst, pos) <==>
                Announced() && Roomy() && base.content == given && win.Ready(info.linked, dst, pos, given)
    {
    }

    /** `n` bytes of an uncompressed block: the copy, the hashes and the history. */
    method CopyPart(src: seq<byte>, ip: nat, n: nat, dst: array<byte>, pos: nat)
      requires Separate(dst) && InBlocks(dst, pos) && phase.Raw? && n <= phase.left == tmpInTarget && WellFormed(M())
      requires ip + n <= |src| && pos + n <= dst.Length && (info.blockChecksum ==> blockXxh == phase.got)
      modifies `blockXxh, `xxh, `remaining, `base, `phase, `given, win`dict, win`dictSize, win.buf, dst
      ensures InBlocks(dst, pos + n) && Run(false, old(M()), src[ip..ip + n]) == Some(M())
      ensures phase == AfterRaw(M(), tmpInTarget - n, old(phase.got) + src[ip..ip + n])
      ensures info.blockChecksum ==> blockXxh == old(phase.got) + src[ip..ip + n]
      ensures dst[..pos] == old(dst[..pos]) && given == old(given) + dst[pos..pos + n]
    {
      hide Run, Fails, InBlocks, Announced, Roomy, Window.Ready, WellFormed, Minus64;
      InBlocksParts(dst, pos);
      BlocksFacts(dst, pos);
      var x := src[ip..ip + n];
      RawRun(false, M(), x);
      win.CopyDirect(src, ip, n, dst, pos, info.linked, given);
      if info.blockChecksum {
        blockXxh := blockXxh + x;
      }
      ghost var f, got := M(), phase.got;
      Account(x, x);
      phase := AfterRaw(f, tmpInTarget - n, got + x);
      InBlocksParts(dst, pos + n);
    }

    /** After `n` bytes of an uncompressed block: its checksum, the next block, or more of the same. */
    method AfterPart(n: nat, ghost got: seq<byte>, dst: array<byte>, pos: nat) returns (st: Status, hint: nat)
      requires InBlocks(dst, pos) && stage == CopyDirect && n <= tmpInTarget && header.Length == MAX_FH_SIZE
      requires phase == AfterRaw(M(), tmpInTarget - n, got) && (info.blockChecksum ==> blockXxh == got)
      modifies `stage, `tmpInSize, `tmpInTarget
      ensures Rep(dst, pos) && stage != GetSuffix
      ensures st == if n == old(tmpInTarget) then Go else Stop
      ensures st == Stop ==> hint > 0
    {
      hide Rep, InBlocks;
      BlocksFacts(dst, pos);
      if n == tmpInTarget {
        if info.blockChecksum {
          tmpInSize, stage := 0, GetBlockChecksum;
          assert header[..0] == [];
          RepGetBlockChecksum(dst, pos);
        } else {
          stage := GetBlockHeader;
          RepGetBlockHeader(dst, pos);
        }
        return Go, 0;
      }
      tmpInTarget := tmpInTarget - n;
      RepCopyDirect(dst, pos);
      st, hint := Stop, tmpInTarget + 4 * Bit(info.contentChecksum) + BH_SIZE;
    }

    /** Stage copyDirect: an uncompressed block, or what there is of it and what there is room for. */
    method AtCopyDirect(src: seq<byte>, ip: nat, dst: array<byte>, pos: nat)
      returns (st: Status, ip': nat, pos': nat, hint: nat)
      requires Inv(dst, pos) && stage == CopyDirect && ip <= |src|
      modifies `stage, `tmpInSize, `tmpInTarget, `blockXxh, `xxh, `remaining, `base, `phase, `given
      modifies win`dict, win`dictSize, win.buf, dst
      ensures ip <= ip' <= |src| && pos <= pos' <= dst.Length
      ensures Inv(dst, pos') && RunFrom(false, Some(old(M())), src[ip..ip']) == Settle(stage, M())
      ensures dst[..pos] == old(dst[..pos]) && given == old(given) + dst[pos..pos']
      ensures || st == Go
              || (st == Stop && (ip' == |src| || pos' == dst.Length) && hint > 0 && stage != GetSuffix && phase != Done)
      ensures stage != GetSuffix && (st == Go ==> ip < ip')
    {
      hide Run, Fails, Rep, InBlocks, Need, Allocated, WellFormed;
      RepCopyDirect(dst, pos);
      var n := Min(tmpInTarget, Min(|src| - ip, dst.Length - pos));
      ip', pos' := ip + n, pos + n;
      ghost var got := phase.got;
      CopyPart(src, ip, n, dst, pos);
      st, hint := AfterPart(n, got + src[ip..ip'], dst, pos');
    }

    /** The four bytes of the checksum of an uncompressed block are there. */
    method CheckBlockChecksum(crc: seq<byte>, ghost x: seq<byte>, dst: array<byte>, pos: nat) returns (ok: bool)
      requires Separate(dst) && Allocated() && pos <= dst.Length && WellFormed(M()) && InBlocks(dst, pos)
      requires phase.Collect? && phase.kind == RawChecksum(blockXxh) && crc == phase.got + x && |crc| == 4
      modifies `stage, `phase
      ensures !ok ==> Fails(old(M()), x)
      ensures ok ==> Inv(dst, pos) && Run(false, old(M()), x) == Some(M()) && stage == GetBlockHeader
    {
      hide Run, Fails, ReadLE32, Xxh, Rep, InBlocks, Complete, Need, WellFormed;
      RawChecksumDone(true, M(), blockXxh, crc);
      RawChecksumDone(false, M(), blockXxh, crc);
      FieldSizes(M(), phase.got, blockXxh);
      CollectAll(true, M(), x);
      CollectAll(false, M(), x);
      if ReadLE32(crc) != Xxh(blockXxh) {
        return false;
      }
      phase, stage := NEXT_BLOCK, GetBlockHeader;
      RepGetBlockHeader(dst, pos);
      ok := true;
    }

    /** Stage getBlockChecksum: of an uncompressed block. */
    method AtGetBlockChecksum(src: seq<byte>, ip: nat, dst: array<byte>, pos: nat)
      returns (st: Status, ip': nat, hint: nat)
      requires Inv(dst, pos) && stage == GetBlockChecksum && ip <= |src|
      modifies `stage, `tmpInSize, `phase, header
      ensures ip <= ip' <= |src|
      ensures st == Fail ==> FailsFrom(Some(old(M())), src[ip..ip'])
      ensures st != Fail ==> Inv(dst, pos) && RunFrom(false, Some(old(M())), src[ip..ip']) == Settle(stage, M())
      ensures st == Fail || st == Go || (st == Stop && ip' == |src| && hint > 0 && stage != GetSuffix && phase != Done)
      ensures st == Go ==> ip < ip'
      ensures st != Fail ==> stage != GetSuffix
    {
      hide Run, Fails, Rep, InBlocks, Need, WellFormed;
      RepGetBlockChecksum(dst, pos);
      FieldSizes(M(), phase.got, blockXxh);
      var crc;
      hint := 1;
      if |src| - ip >= 4 && tmpInSize == 0 {
        ip' := ip + 4;
        crc := src[ip..ip'];
        assert header[..0] + crc == crc;
      } else {
        ghost var got := header[..tmpInSize];
        var n := Take(header, tmpInSize, 4, src, ip);
        ip' := ip + n;
        tmpInSize := tmpInSize + n;
        if tmpInSize < 4 {
          CollectSome(false, M(), src[ip..ip']);
          phase := Collect(RawChecksum(blockXxh), got + src[ip..ip']);
          RepGetBlockChecksum(dst, pos);
          return Stop, ip', hint;
        }
        crc := header[..4];
      }
      var ok := CheckBlockChecksum(crc, src[ip..ip'], dst, pos);
      st := if ok then Go else Fail;
    }

    /** What the decoded bytes mean for the machine. */
    lemma ContentIs(f: Frame, block: seq<byte>, x: seq<byte>)
      ensures Decoded(block, FrameFormat.History(f.info.linked, f.content)) == Some(x) ==>
                ContentAdded(false, f, block) == Some(Add(f, x).(phase := NEXT_BLOCK))
      ensures !Robust(block, FrameFormat.History(f.info.linked, f.content), BlockSize(f.info.blockSizeID)) ==>
                ContentAdded(true, f, block) == None
    {
      hide Decoded, Robust;
    }

    /** A block decoded straight into the user's buffer. */
    method ContentToDst(block: seq<byte>, beyond: nat -> byte, dst: array<byte>, pos: nat) returns (ok: bool, pos': nat)
      requires Separate(dst) && InBlocks(dst, pos) && pos + maxBlockSize <= dst.Length
      modifies `stage, `xxh, `remaining, `base, `phase, `given, win`dict, win`dictSize, win.buf, dst
      ensures pos <= pos' <= dst.Length
      ensures !ok ==> ContentAdded(true, old(M()), block) == None
      ensures ok ==> InBlocks(dst, pos') && ContentAdded(false, old(M()), block) == Some(M())
      ensures ok ==> stage == GetBlockHeader && phase == NEXT_BLOCK
      ensures ok ==> dst[..pos] == old(dst[..pos]) && given == old(given) + dst[pos..pos']
      ensures !ok ==> remaining == old(remaining)
    {
      hide InBlocks, Announced, Roomy, Window.Ready, Robust, Decoded, ContentAdded, Minus64;
      InBlocksParts(dst, pos);
      BlocksFacts(dst, pos);
      pos' := pos;
      var n := win.DecodeToDst(block, beyond, dst, pos, maxBlockSize, info.linked, given);
      if n < 0 {
        ContentIs(M(), block, []);
        return false, pos;
      }
      pos' := pos + n;
      ContentIs(M(), block, dst[pos..pos']);
      Account(dst[pos..pos'], dst[pos..pos']);
      phase, stage := NEXT_BLOCK, GetBlockHeader;
      InBlocksParts(dst, pos');
      ok := true;
    }

    /** A block decoded into the internal buffer. */
    method ContentToTmp(block: seq<byte>, beyond: nat -> byte, dst: array<byte>, pos: nat) returns (ok: bool)
      requires Separate(dst) && InBlocks(dst, pos)
      modifies `stage, `xxh, `remaining, `base, `phase, `given, `pending
      modifies win`dictSize, win`tmpOut, win`tmpOutSize, win`tmpOutStart, win.buf
      ensures !ok ==> ContentAdded(true, old(M()), block) == None
      ensures ok ==> stage == FlushOut && InFlush(dst, pos) && ContentAdded(false, old(M()), block) == Some(M())
      ensures ok ==> phase == NEXT_BLOCK && given == old(given)
      ensures !ok ==> remaining == old(remaining)
    {
      hide InBlocks, InFlush, Announced, Roomy, Window.Ready, Window.Busy, Robust, Decoded, ContentAdded, Minus64;
      InBlocksParts(dst, pos);
      BlocksFacts(dst, pos);
      RoomyFacts();
      var n, p := win.DecodeToTmp(block, beyond, dst, pos, maxBlockSize, info.linked, given);
      if n < 0 {
        ContentIs(M(), block, []);
        return false;
      }
      ContentIs(M(), block, p);
      Account(win.buf[win.tmpOut..win.tmpOut + n], []);
      pending := p;
      phase, stage := NEXT_BLOCK, FlushOut;
      RoomyFacts();
      assert given == old(given);
      InFlushParts(dst, pos);
      ok := true;
    }

    /** The data of a compressed block. */
    method DecodeContent(block: seq<byte>, beyond: nat -> byte, dst: array<byte>, pos: nat)
      returns (ok: bool, pos': nat)
      requires Separate(dst) && Allocated() && pos <= dst.Length && InBlocks(dst, pos)
      modifies `stage, `xxh, `remaining, `base, `phase, `given, `pending, win, win.buf, dst
      ensures pos <= pos' <= dst.Length && win.buf == old(win.buf)
      ensures !ok ==> ContentAdded(true, old(M()), block) == None
      ensures ok ==> Inv(dst, pos') && ContentAdded(false, old(M()), block) == Some(M())
      ensures ok ==> stage in {GetBlockHeader, FlushOut}
      ensures ok ==> dst[..pos] == old(dst[..pos]) && given == old(given) + dst[pos..pos']
      ensures !ok ==> remaining == old(remaining)
    {
      hide Rep, InBlocks, InFlush, ContentAdded, WellFormed;
      BlocksFacts(dst, pos);
      Waits(M(), BlockHeader, []);
      if dst.Length - pos >= maxBlockSize {
        ok, pos' := ContentToDst(block, beyond, dst, pos);
        RepGetBlockHeader(dst, pos');
        Waits(M(), BlockHeader, []);
      } else {
        pos' := pos;
        ok := ContentToTmp(block, beyond, dst, pos);
        RepFlushOut(dst, pos);
        Waits(M(), BlockHeader, []);
        assert given + dst[pos..pos] == given;
      }
    }

    lemma RoomyFacts()
      ensures Roomy() <==>
                && maxBlockSize + 4 <= tmpIn.Length
                && if info.linked then maxBlockSize + 2 * KB64 <= win.buf.Length
                   else win.tmpOut + maxBlockSize <= win.buf.Length
    {
    }

    /** A whole compressed block, after its checksum if it has one: into the user's buffer if that has room for the
        largest block, else into the internal one. */
    method DecodeBlock(selected: seq<byte>, ghost x: seq<byte>, beyond: nat -> byte, dst: array<byte>, pos: nat)
      returns (ok: bool, pos': nat)
      requires Separate(dst) && Allocated() && pos <= dst.Length && WellFormed(M()) && InBlocks(dst, pos)
      requires BlockPart() && selected == phase.got + x && |selected| == tmpInTarget
      modifies `stage, `tmpInTarget, `xxh, `remaining, `base, `phase, `given, `pending, win, win.buf, dst
      ensures pos <= pos' <= dst.Length && win.buf == old(win.buf)
      ensures !ok ==> Fails(old(M()), x)
      ensures ok ==> Inv(dst, pos') && Run(false, old(M()), x) == Some(M()) && stage in {GetBlockHeader, FlushOut}
      ensures ok ==> dst[..pos] == old(dst[..pos]) && given == old(given) + dst[pos..pos']
      ensures !ok ==> remaining == old(remaining)
    {
      hide Run, Fails, ReadLE32, Xxh, Rep, InBlocks, Complete, WellFormed, BlockContent;
      pos' := pos;
      BlocksFacts(dst, pos);
      BlockDone(true, M(), phase.kind.size, selected);
      BlockDone(false, M(), phase.kind.size, selected);
      CollectAll(true, M(), x);
      CollectAll(false, M(), x);
      if info.blockChecksum {
        tmpInTarget := tmpInTarget - 4;
        if ReadLE32(selected[tmpInTarget..tmpInTarget + 4]) != Xxh(selected[..tmpInTarget]) {
          return false, pos;
        }
      }
      ok, pos' := DecodeContent(selected[..tmpInTarget], beyond, dst, pos);
    }

    /** Stage getCBlock: a block that is wholly in the input is decoded there. */
    method AtGetCBlock(src: seq<byte>, ip: nat, beyond: nat -> byte, dst: array<byte>, pos: nat)
      returns (st: Status, ip': nat, pos': nat)
      requires Inv(dst, pos) && stage == GetCBlock && ip <= |src|
      modifies `stage, `tmpInSize, `tmpInTarget, `xxh, `remaining, `base, `phase, `given, `pending, win, win.buf, dst
      ensures ip <= ip' <= |src| && pos <= pos' <= dst.Length && win.buf == old(win.buf)
      ensures st == Fail ==> FailsFrom(Some(old(M())), src[ip..ip'])
      ensures st != Fail ==> Inv(dst, pos') && RunFrom(false, Some(old(M())), src[ip..ip']) == Settle(stage, M())
      ensures st != Fail ==> dst[..pos] == old(dst[..pos]) && given == old(given) + dst[pos..pos']
      ensures st == Fail || (st == Go && (ip < ip' || Rank(stage) < Rank(GetCBlock)))
      ensures st != Fail ==> stage != GetSuffix
      ensures st == Fail ==> remaining == old(remaining)
    {
      hide Run, Fails, Rep, InBlocks, WellFormed;
      RepGetCBlock(dst, pos);
      if |src| - ip < tmpInTarget {
        BlocksFacts(dst, pos);
        tmpInSize, stage := 0, StoreCBlock;
        st, ip', pos' := Go, ip, pos;
        RunNothing();
        assert src[ip..ip] == [] && tmpIn[..0] == [] && dst[pos..pos] == [];
        RepStoreCBlock(dst, pos);
        return;
      }
      ip' := ip + tmpInTarget;
      assert [] + src[ip..ip'] == src[ip..ip'];
      var ok;
      ok, pos' := DecodeBlock(src[ip..ip'], src[ip..ip'], beyond, dst, pos);
      st := if ok then Go else Fail;
    }

    /** Stage storeCBlock: the block is collected in the internal input buffer. */
    method AtStoreCBlock(src: seq<byte>, ip: nat, beyond: nat -> byte, dst: array<byte>, pos: nat)
      returns (st: Status, ip': nat, pos': nat, hint: nat)
      requires Inv(dst, pos) && stage == StoreCBlock && ip <= |src|
      modifies `stage, `tmpInSize, `tmpInTarget, `xxh, `remaining, `base, `phase, `given, `pending
      modifies tmpIn, win, win.buf, dst
      ensures ip <= ip' <= |src| && pos <= pos' <= dst.Length && win.buf == old(win.buf)
      ensures st == Fail ==> FailsFrom(Some(old(M())), src[ip..ip'])
      ensures st != Fail ==> Inv(dst, pos') && RunFrom(false, Some(old(M())), src[ip..ip']) == Settle(stage, M())
      ensures st != Fail ==> dst[..pos] == old(dst[..pos]) && given == old(given) + dst[pos..pos']
      ensures || st == Fail || (st == Go && ip < ip')
              || (st == Stop && ip' == |src| && hint > 0 && stage != GetSuffix && phase != Done)
      ensures st != Fail ==> stage != GetSuffix
      ensures st == Fail ==> remaining == old(remaining)
    {
      hide Run, Fails, Rep, InBlocks, Need, WellFormed;
      RepStoreCBlock(dst, pos);
      BlocksFacts(dst, pos);
      BlockNeeds(M(), phase.kind.size, phase.got);
      ghost var got, kind := phase.got, phase.kind;
      var n := Take(tmpIn, tmpInSize, tmpInTarget, src, ip);
      ip', pos', hint := ip + n, pos, 0;
      tmpInSize := tmpInSize + n;
      if tmpInSize < tmpInTarget {
        CollectSome(false, M(), src[ip..ip']);
        phase := Collect(kind, got + src[ip..ip']);
        assert dst[pos..pos] == [];
        RepStoreCBlock(dst, pos);
        return Stop, ip', pos, tmpInTarget - tmpInSize + BH_SIZE;
      }
      var ok;
      ok, pos' := DecodeBlock(tmpIn[..tmpInTarget], src[ip..ip'], beyond, dst, pos);
      st := if ok then Go else Fail;
    }

    lemma BlockNeeds(f: Frame, size: nat, got: seq<byte>)
      ensures Need(f, Compressed(size), got) == size + 4 * Bit(f.info.blockChecksum)
    {
    }

    /** Stage flushOut. */
    method AtFlushOut(dst: array<byte>, pos: nat) returns (st: Status, pos': nat, hint: nat)
      requires Inv(dst, pos) && stage == FlushOut
      modifies `stage, `given, `pending, win`dict, win`dictSize, win`tmpOutStart, win.buf, dst
      ensures pos <= pos' <= dst.Length && Inv(dst, pos') && M() == old(M())
      ensures dst[..pos] == old(dst[..pos]) && given == old(given) + dst[pos..pos']
      ensures || (st == Go && stage == GetBlockHeader)
              || (st == Stop && stage == FlushOut && pos' == dst.Length && hint > 0 && phase != Done)
    {
      hide Rep, InBlocks, InFlush, WellFormed, Allocated;
      RepFlushOut(dst, pos);
      var done;
      done, pos' := FlushSome(dst, pos);
      st, hint := Stop, BH_SIZE;
      if done {
        st, stage := Go, GetBlockHeader;
        RepGetBlockHeader(dst, pos');
      } else {
        RepFlushOut(dst, pos');
      }
    }

    /** What fits of the decoded block. */
    method FlushSome(dst: array<byte>, pos: nat) returns (done: bool, pos': nat)
      requires InFlush(dst, pos)
      modifies `given, `pending, win`dict, win`dictSize, win`tmpOutStart, win.buf, dst
      ensures pos <= pos' <= dst.Length && (done ==> InBlocks(dst, pos'))
      ensures !done ==> InFlush(dst, pos') && pos' == dst.Length
      ensures dst[..pos] == old(dst[..pos]) && given == old(given) + dst[pos..pos']
    {
      hide InBlocks, InFlush, Announced, Roomy, Window.Busy, Window.Ready;
      InFlushParts(dst, pos);
      RoomyFacts();
      ghost var p := pending;
      var m := win.Flush(dst, pos, info.linked, given, pending);
      pos' := pos + m;
      given, pending := given + p[..m], p[m..];
      assert p == p[..m] + p[m..];
      RoomyFacts();
      done := win.tmpOutStart == win.tmpOutSize;
      if done {
        win.BusyDone(info.linked, dst, pos', given);
        InBlocksParts(dst, pos');
      } else {
        InFlushParts(dst, pos');
      }
    }

    // ---------- the end of the frame ----------

    lemma OnlyEnd(dst: array<byte>, pos: nat)
      requires Rep(dst, pos) && stage in {GetSuffix, StoreSuffix}
      ensures RepEnd() && 4 <= tmpIn.Length && base.content == given && info == base.info
      ensures base.remaining == remaining < WRAP64 && (info.contentChecksum ==> xxh == base.content)
      ensures stage == GetSuffix ==> phase == Ended
      ensures stage == StoreSuffix ==>
                tmpInSize < 4 && phase == Collect(Suffix, tmpIn[..tmpInSize]) && info.contentChecksum
    {
    }

    static lemma SuffixDone(strict: bool, f: Frame, got: seq<byte>)
      ensures |got| == 4 ==>
                && Need(f, Suffix, got) == 4
                && Complete(strict, f, Suffix, got)
                   == if ReadLE32(got) != Xxh(f.content) then None else Some(f.(phase := Done))
      ensures Need(f, Suffix, got) == 4 && WellFormed(f.(phase := Collect(Suffix, []))) && WellFormed(f.(phase := Done))
    {
      hide Xxh, ReadLE32;
    }

    /** The four bytes of the content checksum are there. */
    method CheckSuffix(crc: seq<byte>, ghost x: seq<byte>, dst: array<byte>) returns (ok: bool)
      requires Separate(dst) && Allocated() && WellFormed(M()) && base.content == given
      requires base.remaining == remaining < WRAP64 && xxh == base.content
      requires phase.Collect? && phase.kind == Suffix && crc == phase.got + x && |crc| == 4
      modifies `stage, `phase, win`dict, win`dictSize
      ensures !ok ==> Fails(old(M()), x)
      ensures ok ==> AtEnd(dst) && Run(false, old(M()), x) == Some(M())
    {
      hide Run, Fails, Complete, Need, WellFormed, ReadLE32, Xxh;
      SuffixDone(true, M(), crc);
      SuffixDone(false, M(), crc);
      SuffixDone(false, M(), phase.got);
      CollectAll(true, M(), x);
      CollectAll(false, M(), x);
      if ReadLE32(crc) != Xxh(xxh) {
        return false;
      }
      phase := Done;
      ResetContext();
      ok := true;
    }

    /** Stage getSuffix: the announced content size must have been reached. */
    method AtGetSuffix(src: seq<byte>, ip: nat, dst: array<byte>, pos: nat)
      returns (st: Status, ip': nat, hint: nat)
      requires Inv(dst, pos) && stage == GetSuffix && ip <= |src|
      modifies `stage, `tmpInSize, `phase, win`dict, win`dictSize
      ensures ip <= ip' <= |src|
      ensures old(Settle(stage, M())).Some? ==> WellFormed(old(Settle(stage, M())).value)
      ensures st == Fail ==> FailsFrom(old(Settle(stage, M())), src[ip..ip'])
      ensures st != Fail ==> RunFrom(false, old(Settle(stage, M())), src[ip..ip']) == Some(M())
      ensures || (st == Go && Inv(dst, pos) && stage == StoreSuffix)
              || (st == Finished && AtEnd(dst) && hint == 0)
              || st == Fail
      ensures st != Fail ==> stage != GetSuffix
    {
      hide Run, Fails, WellFormed, Need, Complete, ReadLE32, RepHeader, RepBlocks;
      OnlyEnd(dst, pos);
      SuffixDone(false, M(), []);
      RunNothing();
      ip', hint := ip, 0;
      assert src[ip..ip] == [];
      if remaining != 0 {
        return Fail, ip, 0;
      }
      if !info.contentChecksum {
        phase := Done;
        ResetContext();
        return Finished, ip, 0;
      }
      phase := Collect(Suffix, []);
      if |src| - ip < 4 {
        tmpInSize, stage := 0, StoreSuffix;
        assert tmpIn[..0] == [];
        return Go, ip, 0;
      }
      ip' := ip + 4;
      assert [] + src[ip..ip'] == src[ip..ip'];
      var ok := CheckSuffix(src[ip..ip'], src[ip..ip'], dst);
      st := if ok then Finished else Fail;
    }

    /** Stage storeSuffix. */
    method AtStoreSuffix(src: seq<byte>, ip: nat, dst: array<byte>, pos: nat)
      returns (st: Status, ip': nat, hint: nat)
      requires Inv(dst, pos) && stage == StoreSuffix && ip <= |src|
      modifies `stage, `tmpInSize, `phase, tmpIn, win`dict, win`dictSize
      ensures ip <= ip' <= |src|
      ensures st == Fail ==> FailsFrom(Some(old(M())), src[ip..ip'])
      ensures st != Fail ==> RunFrom(false, Some(old(M())), src[ip..ip']) == Some(M())
      ensures (st == Stop && Inv(dst, pos) && ip' == |src| && hint > 0 && phase != Done)
           || (st == Finished && AtEnd(dst) && hint == 0) || st == Fail
      ensures st != Fail ==> stage != GetSuffix
    {
      hide Run, Fails, WellFormed, Need, Complete, ReadLE32, Rep, Announced, Allocated;
      OnlyEnd(dst, pos);
      RepStoreSuffix(dst, pos);
      SuffixDone(false, M(), phase.got);
      ghost var got := phase.got;
      var n := Take(tmpIn, tmpInSize, 4, src, ip);
      ip' := ip + n;
      tmpInSize := tmpInSize + n;
      if tmpInSize < 4 {
        CollectSome(false, M(), src[ip..ip']);
        phase := Collect(Suffix, got + src[ip..ip']);
        RepStoreSuffix(dst, pos);
        return Stop, ip', 4 - tmpInSize;
      }
      var ok := CheckSuffix(tmpIn[..4], src[ip..ip'], dst);
      st, hint := if ok then Finished else Fail, 0;
    }

    lemma RepStoreSuffix(dst: array<byte>, pos: nat)
      ensures stage == StoreSuffix ==>
                (Rep(dst, pos) <==>
                   && tmpInSize < 4 <= tmpIn.Length && phase == Collect(Suffix, tmpIn[..tmpInSize])
                   && Announced() && info.contentChecksum && base.content == given)
    {
    }

    // ---------- the whole call ----------

    /** The cases before the blocks, and those of skippable frames. */
    method HeaderStage(src: seq<byte>, ip: nat, dst: array<byte>) returns (st: Status, ip': nat, hint: nat)
      requires Inv(dst, 0) && ip <= |src|
      requires stage in {GetFrameHeader, StoreFrameHeader, Init, GetSFrameSize, StoreSFrameSize, SkipSkippable}
      modifies `stage, `info, `remaining, `maxBlockSize, `tmpInSize, `tmpInTarget, `base, `phase, `xxh, `tmpIn
      modifies `maxBufferSize, `allocID, header
      modifies win`buf, win`tmpOut, win`tmpOutStart, win`tmpOutSize, win`dict, win`dictSize
      ensures ip <= ip' <= |src|
      ensures st == Fail ==> FailsFrom(Some(old(M())), src[ip..ip'])
      ensures st != Fail ==> RunFrom(false, Some(old(M())), src[ip..ip']) == Settle(stage, M())
      ensures st == Go || st == Stop ==> Inv(dst, 0)
      ensures st == Finished ==> AtEnd(dst) && hint == 0
      ensures st != Fail ==> stage != GetSuffix
      ensures st == Go ==> ip < ip' || Rank(stage) < Rank(old(stage))
      ensures st == Stop ==> ip' == |src| && hint > 0 && stage != GetSuffix && phase != Done
      ensures (tmpIn == old(tmpIn) && win.buf == old(win.buf)) || (fresh(tmpIn) && fresh(win.buf))
      ensures st == Fail ==> Sane()
    {
      hide Run, Fails, Rep, AtEnd, WellFormed, Separate, Allocated;
      InvSane(dst, 0);
      RunNothing();
      assert src[ip..ip] == [];
      match stage {
        case GetFrameHeader => st, ip', hint := AtGetFrameHeader(src, ip, dst);
        case StoreFrameHeader => st, ip', hint := AtStoreFrameHeader(src, ip, dst);
        case Init =>
          AtInit(dst);
          st, ip', hint := Go, ip, 0;
        case GetSFrameSize => st, ip', hint := AtGetSFrameSize(src, ip, dst);
        case StoreSFrameSize => st, ip', hint := AtStoreSFrameSize(src, ip, dst);
        case SkipSkippable => st, ip', hint := AtSkipSkippable(src, ip, dst);
      }
    }

    /** The cases that take input of blocks and give no output. */
    method InputStage(src: seq<byte>, ip: nat, dst: array<byte>, pos: nat) returns (st: Status, ip': nat, hint: nat)
      requires Inv(dst, pos) && ip <= |src|
      requires stage in {GetBlockHeader, StoreBlockHeader, GetBlockChecksum, GetSuffix, StoreSuffix}
      modifies `stage, `tmpInSize, `tmpInTarget, `blockXxh, `phase, tmpIn, header, win`dict, win`dictSize
      ensures ip <= ip' <= |src|
      ensures st == Fail || Settle(stage, M()).None? ==> FailsFrom(old(Settle(stage, M())), src[ip..ip'])
      ensures st != Fail ==> RunFrom(false, old(Settle(stage, M())), src[ip..ip']) == Settle(stage, M())
      ensures st == Go || st == Stop ==> Inv(dst, pos)
      ensures st == Finished ==> AtEnd(dst) && hint == 0
      ensures st == Go ==> ip < ip' || Rank(stage) < Rank(old(stage))
      ensures st == Stop ==> (ip' == |src| || pos == dst.Length) && hint > 0 && stage != GetSuffix && phase != Done
      ensures st == Fail ==> Sane()
    {
      hide Run, Fails, Rep, AtEnd, WellFormed, Separate, Allocated;
      InvSane(dst, pos);
      match stage {
        case GetBlockHeader => st, ip', hint := AtGetBlockHeader(src, ip, dst, pos);
        case StoreBlockHeader => st, ip', hint := AtStoreBlockHeader(src, ip, dst, pos);
        case GetBlockChecksum => st, ip', hint := AtGetBlockChecksum(src, ip, dst, pos);
        case GetSuffix => st, ip', hint := AtGetSuffix(src, ip, dst, pos);
        case StoreSuffix => st, ip', hint := AtStoreSuffix(src, ip, dst, pos);
      }
    }

    /** The cases that give output. */
    method OutputStage(src: seq<byte>, ip: nat, beyond: nat -> byte, dst: array<byte>, pos: nat)
      returns (st: Status, ip': nat, pos': nat, hint: nat)
      requires Inv(dst, pos) && ip <= |src| && stage in {CopyDirect, GetCBlock, StoreCBlock, FlushOut}
      modifies `stage, `tmpInSize, `tmpInTarget, `blockXxh, `xxh, `remaining, `base, `phase, `given, `pending
      modifies tmpIn, win, win.buf, dst
      ensures ip <= ip' <= |src| && pos <= pos' <= dst.Length && win.buf == old(win.buf)
      ensures st == Fail ==> FailsFrom(Some(old(M())), src[ip..ip'])
      ensures st != Fail ==> Inv(dst, pos') && RunFrom(false, Some(old(M())), src[ip..ip']) == Settle(stage, M())
      ensures st != Fail ==> dst[..pos] == old(dst[..pos]) && given == old(given) + dst[pos..pos']
      ensures st != Finished
      ensures st != Fail ==> stage != GetSuffix
      ensures st == Go ==> ip < ip' || pos < pos' || Rank(stage) < Rank(old(stage))
      ensures st == Stop ==> (ip' == |src| || pos' == dst.Length) && hint > 0 && stage != GetSuffix && phase != Done
      ensures st == Fail ==> Sane()
    {
      hide Run, Fails, Rep, WellFormed, Separate, Allocated;
      InvSane(dst, pos);
      ip', pos', hint := ip, pos, 0;
      match stage {
        case CopyDirect => st, ip', pos', hint := AtCopyDirect(src, ip, dst, pos);
        case GetCBlock => st, ip', pos' := AtGetCBlock(src, ip, beyond, dst, pos);
        case StoreCBlock => st, ip', pos', hint := AtStoreCBlock(src, ip, beyond, dst, pos);
        case FlushOut =>
          RunNothing();
          assert src[ip..ip] == [];
          st, pos', hint := AtFlushOut(dst, pos);
      }
    }

    /** What every call leaves, also one that fails: buffers that can be used for another frame. */
    ghost predicate Sane()
      reads `tmpIn, `remaining, `maxBufferSize, `allocID, win`buf
    {
      && header.Length == MAX_FH_SIZE && header != tmpIn && win.buf != header && win.buf != tmpIn && Allocated()
      && remaining < WRAP64
    }

    lemma InvSane(dst: array<byte>, pos: nat)
      requires Inv(dst, pos)
      ensures Sane()
    {
      hide WellFormed;
    }

    lemma EndSane(dst: array<byte>)
      requires AtEnd(dst)
      ensures Sane()
    {
    }

    /** One case of the switch. A case that falls through to the next one leaves its label for the next iteration. */
    method OneStage(src: seq<byte>, ip: nat, beyond: nat -> byte, dst: array<byte>, pos: nat)
      returns (st: Status, ip': nat, pos': nat, hint: nat)
      requires Inv(dst, pos) && ip <= |src|
      modifies this, header, tmpIn, win, win.buf, dst
      ensures ip <= ip' <= |src| && pos <= pos' <= dst.Length
      ensures st == Fail || Settle(stage, M()).None? ==> FailsFrom(old(Settle(stage, M())), src[ip..ip'])
      ensures st != Fail ==> RunFrom(false, old(Settle(stage, M())), src[ip..ip']) == Settle(stage, M())
      ensures st != Fail ==> dst[..pos] == old(dst[..pos]) && given == old(given) + dst[pos..pos']
      ensures st == Go || st == Stop ==> Inv(dst, pos')
      ensures st == Finished ==> AtEnd(dst) && hint == 0
      ensures st == Go ==> ip < ip' || pos < pos' || Rank(stage) < Rank(old(stage))
      ensures st == Stop ==> (ip' == |src| || pos' == dst.Length) && hint > 0 && stage != GetSuffix && phase != Done
      ensures (tmpIn == old(tmpIn) && win.buf == old(win.buf)) || (fresh(tmpIn) && fresh(win.buf))
      ensures Sane()
    {
      hide Run, Fails, Rep, AtEnd, WellFormed, Allocated, Rank;
      StartOnly(dst, pos);
      AllStages(stage);
      pos' := pos;
      assert dst[pos..pos] == [] && given + [] == given;
      if stage in {GetFrameHeader, StoreFrameHeader, Init, GetSFrameSize, StoreSFrameSize, SkipSkippable} {
        st, ip', hint := HeaderStage(src, ip, dst);
      } else if stage in {CopyDirect, GetCBlock, StoreCBlock, FlushOut} {
        st, ip', pos', hint := OutputStage(src, ip, beyond, dst, pos);
      } else {
        st, ip', hint := InputStage(src, ip, dst, pos);
      }
      if st == Finished {
        EndSane(dst);
      } else if st != Fail {
        InvSane(dst, pos');
      }
    }

    static lemma AllStages(s: Stage)
      ensures s in {GetFrameHeader, StoreFrameHeader, Init, GetSFrameSize, StoreSFrameSize, SkipSkippable}
           || s in {CopyDirect, GetCBlock, StoreCBlock, FlushOut}
           || s in {GetBlockHeader, StoreBlockHeader, GetBlockChecksum, GetSuffix, StoreSuffix}
    {
      match s
      case _ =>
    }

    lemma StartOnly(dst: array<byte>, pos: nat)
      requires Rep(dst, pos)
      ensures stage in {GetFrameHeader, StoreFrameHeader, Init, GetSFrameSize, StoreSFrameSize, SkipSkippable} ==>
                pos == 0
    {
    }

    /** Between calls, nothing depends on the user's buffers. */
    ghost predicate Valid()
      reads this, win, win.buf, tmpIn, header
    {
      && header.Length == MAX_FH_SIZE && header != tmpIn && win.buf != header && win.buf != tmpIn
      && Allocated() && WellFormed(M()) && stage != GetSuffix && phase != Done
      && (RepHeader() || RepEnd() || BlockStages(AtRest(), FlushAtRest()))
    }

    ghost predicate AtRest()
      reads `base, `info, `remaining, `maxBlockSize, `xxh, `given, `tmpIn, win, win.buf
    {
      Announced() && Roomy() && base.content == given && win.Resting(info.linked, given)
    }

    ghost predicate FlushAtRest()
      reads `base, `info, `remaining, `maxBlockSize, `xxh, `given, `pending, `tmpIn, win, win.buf
    {
      Announced() && Roomy() && base.content == given + pending && win.RestingBusy(info.linked, given, pending)
    }

    /** What is still to be given to the user. */
    ghost function Pending(): seq<byte>
      reads `stage, `pending
    {
      if stage == FlushOut then pending else []
    }

    lemma ContentGiven()
      requires Valid()
      ensures base.content == given + Pending()
    {
      assert given + [] == given;
    }

    lemma Resumed(dst: array<byte>)
      requires Valid() && dst != header && dst != tmpIn && dst != win.buf
      ensures Inv(dst, 0)
    {
      hide WellFormed, Window.Resting, Window.RestingBusy, Window.Ready, Window.Busy;
      win.Resume(info.linked, dst, given, pending);
    }

    /** Preserve history within the internal buffer whenever necessary. */
    method Preserve(dst: array<byte>, pos: nat)
      requires Inv(dst, pos) && stage != GetSuffix && phase != Done
      modifies win`dict, win`dictSize, win`tmpOut, win.buf
      ensures Valid()
    {
      hide WellFormed, RepHeader, RepEnd, InBlocks, InFlush, AtRest, FlushAtRest, BlockStages, Allocated;
      KindOfStage(dst, pos);
      if stage in {GetBlockHeader, StoreBlockHeader, CopyDirect, GetBlockChecksum, GetCBlock, StoreCBlock} {
        PreserveIdle(dst, pos);
      } else if stage == FlushOut {
        PreserveFlushing(dst, pos);
      }
      AnyReady(AtRest(), FlushAtRest());
    }

    lemma AnyReady(ready: bool, busy: bool)
      ensures ready && BlockStages(true, false) ==> BlockStages(ready, busy)
      ensures busy && BlockStages(false, true) ==> BlockStages(ready, busy)
    {
    }

    lemma KindOfStage(dst: array<byte>, pos: nat)
      requires Rep(dst, pos)
      ensures stage in {GetBlockHeader, StoreBlockHeader, CopyDirect, GetBlockChecksum, GetCBlock, StoreCBlock} ==>
                InBlocks(dst, pos) && BlockStages(true, false)
      ensures stage == FlushOut ==> InFlush(dst, pos) && BlockStages(false, true)
      ensures stage in {GetBlockHeader, StoreBlockHeader, CopyDirect, GetBlockChecksum, GetCBlock, StoreCBlock,
                        FlushOut}
           || RepHeader() || RepEnd()
    {
    }

    method PreserveIdle(dst: array<byte>, pos: nat)
      requires InBlocks(dst, pos)
      modifies win`dict, win`dictSize, win`tmpOut, win.buf
      ensures AtRest()
    {
      hide Announced, Roomy, Window.Ready, Window.Resting;
      RoomyFacts();
      win.Rest(dst, pos, info.linked, given);
      RoomyFacts();
    }

    method PreserveFlushing(dst: array<byte>, pos: nat)
      requires InFlush(dst, pos)
      modifies win`dict, win`dictSize, win.buf
      ensures FlushAtRest()
    {
      hide Announced, Roomy, Window.Busy, Window.RestingBusy;
      RoomyFacts();
      win.RestBusy(dst, pos, info.linked, given, pending);
      RoomyFacts();
    }

    /** LZ4F_decompress, with stableDst = 0. Whatever the input and the room for output:
         - what was taken of the input is a run of the machine, and what was given to the user, together with what is
           pending, is what the machine decoded;
         - the call ends when the input is used up, the output is full, or the frame is complete; it returns 0 exactly
           in the last case, and never takes a byte beyond the end of the frame;
         - it fails only if the input is not that of a frame whose blocks any decoder would accept. */
    method Decompress(src: seq<byte>, beyond: nat -> byte, dst: array<byte>)
      returns (r: Result, n: nat, m: nat, ghost g: Frame)
      requires Valid() && dst != header && dst != tmpIn && dst != win.buf
      modifies this, header, tmpIn, win, win.buf, dst
      ensures r == Error ==> Fails(old(M()), src)
      ensures Sane()
      ensures r != Error ==>
                && n <= |src| && m <= dst.Length && Valid() && Run(false, old(M()), src[..n]) == Some(g)
                && g.content == old(given) + dst[..m] + Pending()
                && (n == |src| || m == dst.Length || r.size == 0)
                && (r.size == 0 <==> g.phase == Done)
                && (if r.size == 0 then M() == Begin(remaining) && given == Pending() == [] && remaining == g.remaining
                    else M() == g && given == old(given) + dst[..m])
                && (0 < |src| && 0 < dst.Length ==> 0 < n || 0 < m)
      ensures (tmpIn == old(tmpIn) && win.buf == old(win.buf)) || (fresh(tmpIn) && fresh(win.buf))
    {
      hide Run, Fails, Inv, Valid, WellFormed, AtEnd;
      NotDone();
      var st;
      st, n, m, r := RunStages(src, beyond, dst);
      g := M();
      if st == Fail {
        return;
      }
      NothingTaken(old(M()), src[..n]);
      if st == Finished {
        EndFacts(dst);
        assert given + [] == given;
        base, phase, given, pending := Begin(remaining), Collect(Header, []), [], [];
        StartsOver(dst);
      } else {
        Preserve(dst, m);
        ContentGiven();
      }
    }

    /** Between calls the machine waits for more of a frame. */
    lemma NotDone()
      requires Valid()
      ensures M().phase != Done && WellFormed(M())
    {
    }

    lemma NothingTaken(f: Frame, x: seq<byte>)
      requires WellFormed(f)
      ensures |x| == 0 ==> Run(false, f, x) == Some(f)
    {
    }

    lemma EndFacts(dst: array<byte>)
      requires AtEnd(dst)
      ensures Separate(dst) && Allocated() && stage == GetFrameHeader && phase == Done && given == base.content
      ensures win.dict == Nowhere && win.dictSize == 0 && base.remaining == remaining < WRAP64
    {
    }

    /** A complete frame leaves the context as it was before the first one, but for `remaining`. */
    lemma StartsOver(dst: array<byte>)
      requires Separate(dst) && Allocated() && stage == GetFrameHeader && M() == Begin(remaining) && given == []
      requires win.dict == Nowhere && win.dictSize == 0 && remaining < WRAP64
      ensures Valid()
    {
    }

    /** The while loop. */
    method RunStages(src: seq<byte>, beyond: nat -> byte, dst: array<byte>)
      returns (st: Status, n: nat, m: nat, r: Result)
      requires Valid() && dst != header && dst != tmpIn && dst != win.buf
      modifies this, header, tmpIn, win, win.buf, dst
      ensures st in {Stop, Finished, Fail} && (r == Error <==> st == Fail)
      ensures st == Fail ==> Fails(old(M()), src)
      ensures st != Fail ==>
                && n <= |src| && m <= dst.Length && Run(false, old(M()), src[..n]) == Some(M())
                && given == old(given) + dst[..m]
      ensures st == Stop ==>
                Inv(dst, m) && stage != GetSuffix && (n == |src| || m == dst.Length) && r.size > 0 && phase != Done
      ensures st == Finished ==> AtEnd(dst) && r.size == 0
      ensures (tmpIn == old(tmpIn) && win.buf == old(win.buf)) || (fresh(tmpIn) && fresh(win.buf))
      ensures Sane()
    {
      hide Run, Fails, Inv, Valid, WellFormed, Rank, AtEnd;
      Resumed(dst);
      AtStart();
      ghost var f := M();
      n, m, st := 0, 0, Go;
      var hint := 1;
      RunNothing();
      assert src[..0] == [] && dst[..0] == [] && given + [] == given;
      InvSane(dst, 0);
      while true
        invariant Inv(dst, m) && n <= |src| && m <= dst.Length && WellFormed(f)
        invariant RunFrom(false, Some(f), src[..n]) == Settle(stage, M())
        invariant Settle(stage, M()).None? ==> Fails(f, src[..n])
        invariant given == old(given) + dst[..m]
        invariant (tmpIn == old(tmpIn) && win.buf == old(win.buf)) || (fresh(tmpIn) && fresh(win.buf))
        invariant Sane()
        decreases |src| - n, dst.Length - m, Rank(stage)
      {
        ghost var settled, before := Settle(stage, M()), dst[..m];
        var n', m';
        st, n', m', hint := OneStage(src, n, beyond, dst, m);
        RunPrefix(false, Some(f), src, n, n');
        if st == Fail {
          Failure(f, settled, src, n, n');
          assert src == src[..n'] + src[n'..];
          FailsMore(f, src[..n'], src[n'..]);
          return Fail, n', m', Error;
        }
        if Settle(stage, M()).None? {
          Failure(f, settled, src, n, n');
        }
        assert dst[..m'] == before + dst[m..m'];
        n, m := n', m';
        if st == Finished {
          EndFacts(dst);
        }
        if st != Go {
          break;
        }
      }
      r := Hint(hint);
    }

    lemma AtStart()
      requires Valid()
      ensures WellFormed(M()) && Settle(stage, M()) == Some(M())
    {
    }

    /** An error is one of the strict machine, on all of the input. */
    lemma Failure(f: Frame, settled: Option<Frame>, src: seq<byte>, n: nat, n': nat)
      requires WellFormed(f) && n <= n' <= |src| && RunFrom(false, Some(f), src[..n]) == settled
      requires settled.None? ==> Fails(f, src[..n])
      requires (settled.Some? ==> WellFormed(settled.value)) && FailsFrom(settled, src[n..n'])
      ensures Fails(f, src[..n'])
    {
      hide Run, WellFormed, Fails;
      assert src[..n'] == src[..n] + src[n..n'];
      if settled.None? {
        FailsMore(f, src[..n], src[n..n']);
      } else {
        StrictOrFails(f, src[..n]);
        if Run(true, f, src[..n]).Some? {
          RunFails(f, src[..n], src[n..n']);
        } else {
          FailsMore(f, src[..n], src[n..n']);
        }
      }
    }

    /** LZ4F_resetDecompressionContext, in the middle of a frame or after an error: a new frame can follow, with what
        was left to count. */
    method Reset()
      requires Sane()
      modifies `stage, `base, `phase, `given, `pending, win`dict, win`dictSize
      ensures Valid() && M() == Begin(remaining) && given == []
    {
      ResetContext();
      base, phase, given, pending := Begin(remaining), Collect(Header, []), [], [];
      Cleared();
    }

    lemma Cleared()
      requires Sane() && stage == GetFrameHeader && M() == Begin(remaining) && given == [] && win.dict == Nowhere
      requires win.dictSize == 0
      ensures Valid()
    {
    }
  }
}
