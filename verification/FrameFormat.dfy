/** The LZ4 frame format, as a machine that takes one byte at a time. The encoder's output and the resumable decoder
    are both related to it. */
module FrameFormat {
  import opened Bytes
  import opened Lz4Format
  import XxHash32

  const KB64 := 0x1_0000
  const MAGIC := 0x184D_2204
  const SKIPPABLE_START := 0x184D_2A50
  const WRAP32 := 0x1_0000_0000
  const WRAP64 := 0x1_0000_0000_0000_0000
  const UNCOMPRESSED_FLAG := 0x8000_0000
  const MIN_FH_SIZE := 7
  const MAX_FH_SIZE := 19
  const BH_SIZE := 4

  // ---------- little-endian numbers ----------

  function LE32(x: nat): (s: seq<byte>)
    ensures |s| == 4
  {
    [x % 256, x / 0x100 % 256, x / 0x1_0000 % 256, x / 0x100_0000 % 256]
  }

  function ReadLE32(s: seq<byte>): u32
    requires |s| == 4
  {
    Join32(s[0], s[1], s[2], s[3])
  }

  function Join32(b0: nat, b1: nat, b2: nat, b3: nat): nat {
    b0 + 0x100 * b1 + 0x1_0000 * b2 + 0x100_0000 * b3
  }

  lemma ReadWritten32(x: nat)
    requires x < WRAP32
    ensures ReadLE32(LE32(x)) == x
  {
    var a, b, c := x / 0x100, x / 0x1_0000, x / 0x100_0000;
    assert x == 256 * a + x % 256 && a == 256 * b + a % 256 && b == 256 * c + b % 256;
  }

  lemma LowestDigit(b0: byte, b1: byte, b2: byte, b3: byte)
    ensures var x := Join32(b0, b1, b2, b3); x % 256 == b0 && x / 256 == Join32(b1, b2, b3, 0)
  {
  }

  lemma Quarters(x: nat)
    ensures x / 0x1_0000 == x / 256 / 256 && x / 0x100_0000 == x / 256 / 256 / 256
  {
  }

  lemma WrittenRead32(s: seq<byte>)
    requires |s| == 4
    ensures LE32(ReadLE32(s)) == s
  {
    hide Join32;
    Quarters(ReadLE32(s));
    LowestDigit(s[0], s[1], s[2], s[3]);
    LowestDigit(s[1], s[2], s[3], 0);
    LowestDigit(s[2], s[3], 0, 0);
    LowestDigit(s[3], 0, 0, 0);
  }

  function LE64(x: nat): (s: seq<byte>)
    ensures |s| == 8
  {
    LE32(x % WRAP32) + LE32(x / WRAP32)
  }

  function ReadLE64(s: seq<byte>): (r: nat)
    requires |s| == 8
    ensures r < WRAP64
  {
    ReadLE32(s[..4]) + WRAP32 * ReadLE32(s[4..])
  }

  lemma ReadWritten64(x: nat)
    requires x < WRAP64
    ensures ReadLE64(LE64(x)) == x
  {
    ReadWritten32(x % WRAP32);
    ReadWritten32(x / WRAP32);
    assert LE64(x)[..4] == LE32(x % WRAP32) && LE64(x)[4..] == LE32(x / WRAP32);
  }

  lemma HalvesOf(lo: nat, hi: nat)
    requires lo < WRAP32
    ensures (lo + WRAP32 * hi) % WRAP32 == lo && (lo + WRAP32 * hi) / WRAP32 == hi
  {
  }

  lemma WrittenRead64(s: seq<byte>)
    requires |s| == 8
    ensures LE64(ReadLE64(s)) == s
  {
    hide LE32, ReadLE32;
    HalvesOf(ReadLE32(s[..4]), ReadLE32(s[4..]));
    WrittenRead32(s[..4]);
    WrittenRead32(s[4..]);
  }

  /** XXH32 with seed 0. */
  function Xxh(s: seq<byte>): u32 {
    XxHash32.Hash(s, 0) as int
  }

  // ---------- the frame header ----------

  /** What a header says. No content size and no dictionary are written 0. */
  datatype Info = Info(blockSizeID: nat, linked: bool, blockChecksum: bool, contentChecksum: bool, contentSize: nat,
                       dictID: nat)

  predicate ValidInfo(i: Info) {
    4 <= i.blockSizeID <= 7 && i.contentSize < WRAP64 && i.dictID < WRAP32
  }

  /** LZ4F_getBlockSize. */
  function BlockSize(id: nat): nat {
    if id == 5 then 4 * KB64 else if id == 6 then 16 * KB64 else if id == 7 then 64 * KB64 else KB64
  }

  function Bit(b: bool): nat { if b then 1 else 0 }

  function Flag(flg: nat, weight: nat): bool
    requires 0 < weight
  {
    flg / weight % 2 == 1
  }

  function FlagByte(i: Info): byte {
    64 + 32 * Bit(!i.linked) + 16 * Bit(i.blockChecksum) + 8 * Bit(i.contentSize > 0) + 4 * Bit(i.contentChecksum)
    + Bit(i.dictID > 0)
  }

  lemma FlagsOfByte(i: Info)
    ensures var f := FlagByte(i);
            && f / 64 == 1 && !Flag(f, 2)
            && Flag(f, 32) == !i.linked && Flag(f, 16) == i.blockChecksum && Flag(f, 8) == (i.contentSize > 0)
            && Flag(f, 4) == i.contentChecksum && Flag(f, 1) == (i.dictID > 0)
  {
  }

  /** The part of the header that its checksum covers. */
  function Descriptor(i: Info): seq<byte>
    requires ValidInfo(i)
  {
    [FlagByte(i), i.blockSizeID * 16] + (if i.contentSize > 0 then LE64(i.contentSize) else [])
    + (if i.dictID > 0 then LE32(i.dictID) else [])
  }

  function HeaderChecksum(s: seq<byte>): byte {
    Xxh(s) / 256 % 256
  }

  function EncodeHeader(i: Info): seq<byte>
    requires ValidInfo(i)
  {
    LE32(MAGIC) + Descriptor(i) + [HeaderChecksum(Descriptor(i))]
  }

  predicate Skippable(h: seq<byte>)
    requires |h| >= 4
  {
    ReadLE32(h[..4]) / 16 == SKIPPABLE_START / 16
  }

  /** Size of the header, from its flags. */
  function HeaderSize(h: seq<byte>): (n: nat)
    requires |h| >= 5
    ensures MIN_FH_SIZE <= n <= MAX_FH_SIZE
  {
    MIN_FH_SIZE + 8 * Bit(Flag(h[4], 8)) + 4 * Bit(Flag(h[4], 1))
  }

  /** Magic number, reserved flag and version. */
  predicate FlagsOk(h: seq<byte>)
    requires |h| >= MIN_FH_SIZE
  {
    ReadLE32(h[..4]) == MAGIC && !Flag(h[4], 2) && h[4] / 64 == 1
  }

  /** The rest of a complete header: block size, reserved bits, checksum. */
  function ParseHeader(h: seq<byte>): Option<Info>
    requires |h| >= MIN_FH_SIZE && |h| == HeaderSize(h)
  {
    var id := h[5] / 16 % 8;
    if h[5] / 128 == 1 || id < 4 || h[5] % 16 != 0 then None
    else if HeaderChecksum(h[4..|h| - 1]) != h[|h| - 1] then None
    else Some(Info(id, !Flag(h[4], 32), Flag(h[4], 16), Flag(h[4], 4),
                   if Flag(h[4], 8) then ReadLE64(h[6..14]) else 0,
                   if Flag(h[4], 1) then ReadLE32(h[|h| - 5..|h| - 1]) else 0))
  }

  lemma HeaderLength(i: Info)
    requires ValidInfo(i)
    ensures |EncodeHeader(i)| == 7 + 8 * Bit(i.contentSize > 0) + 4 * Bit(i.dictID > 0)
  {
  }

  /** A header that was written is read back. */
  lemma HeaderParsed(i: Info)
    requires ValidInfo(i)
    ensures var h := EncodeHeader(i);
            && |h| >= MIN_FH_SIZE && |h| == HeaderSize(h) && FlagsOk(h) && !Skippable(h)
            && ParseHeader(h) == Some(i)
  {
    hide FlagByte, Flag, LE32, LE64, ReadLE32, ReadLE64, HeaderChecksum;
    var h, d := EncodeHeader(i), Descriptor(i);
    HeaderLength(i);
    FlagsOfByte(i);
    ReadWritten32(MAGIC);
    assert h[..4] == LE32(MAGIC);
    assert h[4] == d[0] && h[5] == d[1];
    assert h[4..|h| - 1] == d;
    if i.contentSize > 0 {
      ReadWritten64(i.contentSize);
      assert h[6..14] == d[2..10] == LE64(i.contentSize);
    }
    if i.dictID > 0 {
      ReadWritten32(i.dictID);
      assert h[|h| - 5..|h| - 1] == d[|d| - 4..] == LE32(i.dictID);
    }
  }

  /** Every number is written with its lowest byte first. */
  lemma KnownNumbers()
    ensures LE32(0x0403_0201) == [1, 2, 3, 4]
    ensures LE64(0x0807_0605_0403_0201) == [1, 2, 3, 4, 5, 6, 7, 8]
  {
  }

  /** The bytes of a header for independent blocks of 64 KB without checksums. */
  lemma KnownHeader()
    ensures EncodeHeader(Info(4, false, false, false, 0, 0)) == [0x04, 0x22, 0x4d, 0x18, 0x60, 0x40, 0x82]
  {
    hide XxHash32.Hash;
    var i := Info(4, false, false, false, 0, 0);
    assert Descriptor(i) == [0x60, 0x40];
    XxHash32.HashOfTwo();
    assert 0x301a_8268 as bv32 as int == 0x301a_8268;
  }

  /** A header with the settings `i` in which the flags of the size and of the dictionary are given: either may announce
      a number that is 0. */
  function Spelled(i: Info, size: bool, dict: bool): seq<byte> {
    var d: seq<byte> :=
      [64 + 32 * Bit(!i.linked) + 16 * Bit(i.blockChecksum) + 8 * Bit(size) + 4 * Bit(i.contentChecksum) + Bit(dict),
       i.blockSizeID % 16 * 16] + (if size then LE64(i.contentSize) else []) + (if dict then LE32(i.dictID) else []);
    LE32(MAGIC) + d + [HeaderChecksum(d)]
  }

  lemma FlagsMakeByte(f: byte)
    requires f / 64 == 1 && !Flag(f, 2)
    ensures f == 64 + 32 * Bit(Flag(f, 32)) + 16 * Bit(Flag(f, 16)) + 8 * Bit(Flag(f, 8)) + 4 * Bit(Flag(f, 4))
                 + Bit(Flag(f, 1))
  {
    hide Flag, Bit;
    OneFlag(f, 32);
    OneFlag(f, 16);
    OneFlag(f, 8);
    OneFlag(f, 4);
    OneFlag(f, 2);
    OneFlag(f, 1);
  }

  lemma OneFlag(f: nat, weight: nat)
    requires weight in {1, 2, 4, 8, 16, 32}
    ensures f / weight == 2 * (f / (2 * weight)) + Bit(Flag(f, weight)) && Bit(false) == 0 && f / 1 == f
  {
  }

  /** Nothing is read as a header but what spells its settings: every reserved bit and the checksum are as written. */
  lemma OnlySpelledParsed(h: seq<byte>)
    requires |h| >= MIN_FH_SIZE && |h| == HeaderSize(h) && FlagsOk(h) && ParseHeader(h).Some?
    ensures ValidInfo(ParseHeader(h).value)
    ensures h == Spelled(ParseHeader(h).value, Flag(h[4], 8), Flag(h[4], 1))
  {
    hide Flag, LE32, LE64, ReadLE32, ReadLE64, HeaderChecksum;
    FlagsMakeByte(h[4]);
    HeaderParts(h);
    WrittenRead32(h[..4]);
    if Flag(h[4], 8) {
      WrittenRead64(h[6..14]);
    }
    if Flag(h[4], 1) {
      WrittenRead32(h[|h| - 5..|h| - 1]);
    }
  }

  lemma HeaderParts(h: seq<byte>)
    requires |h| >= MIN_FH_SIZE && |h| == HeaderSize(h)
    ensures var n := |h|;
            && h == h[..4] + h[4..n - 1] + [h[n - 1]]
            && h[4..n - 1] == [h[4], h[5]] + (if Flag(h[4], 8) then h[6..14] else [])
                              + (if Flag(h[4], 1) then h[n - 5..n - 1] else [])
  {
    hide Flag;
  }

  /** A header that is read is the one that is written for its settings, unless it announces a number that is 0. */
  lemma ParsedIsWritten(h: seq<byte>, i: Info)
    requires |h| >= MIN_FH_SIZE && |h| == HeaderSize(h) && FlagsOk(h) && ParseHeader(h) == Some(i)
    requires (Flag(h[4], 8) ==> i.contentSize > 0) && (Flag(h[4], 1) ==> i.dictID > 0)
    ensures ValidInfo(i) && h == EncodeHeader(i)
  {
    hide Flag, LE32, LE64, ReadLE32, ReadLE64, HeaderChecksum;
    OnlySpelledParsed(h);
  }

  /** No other checksum byte is accepted. */
  lemma WrongChecksum(i: Info, b: byte)
    requires ValidInfo(i)
    ensures var h := EncodeHeader(i);
            var g := h[|h| - 1 := b];
            b != h[|h| - 1] ==> |g| == HeaderSize(g) && FlagsOk(g) && ParseHeader(g) == None
  {
    hide FlagByte, Flag, LE32, LE64, ReadLE32, ReadLE64, HeaderChecksum, BlockSize;
    var h := EncodeHeader(i);
    HeaderParsed(i);
    var g := h[|h| - 1 := b];
    assert g[..4] == h[..4] && g[4] == h[4] && g[4..|g| - 1] == h[4..|h| - 1];
  }

  // ---------- history ----------

  /** `d` will do as history in place of `h`: the last 64 KB are the same, and all of it when there is no more. */
  predicate Recent(d: seq<byte>, h: seq<byte>) {
    if |h| <= KB64 then d == h
    else |d| >= KB64 && d[|d| - KB64..] == h[|h| - KB64..]
  }

  /** What a block may refer to. */
  function History(linked: bool, content: seq<byte>): seq<byte> {
    if linked then content else []
  }

  /** The block is accepted wherever its history is and however much of it is kept. */
  ghost predicate Robust(block: seq<byte>, h: seq<byte>, cap: nat) {
    forall w, lo: nat :: Recent(w, h) ==> SafeDecode(block, w, lo, cap).Some?
  }

  lemma {:induction false} CopyMatchShift(x: seq<byte>, out: seq<byte>, off: nat, len: nat)
    requires off <= |out|
    ensures CopyMatch(x + out, off, len) == x + CopyMatch(out, off, len)
    decreases len
  {
    if len > 0 {
      var b := if off == 0 then 0 else out[|out| - off];
      assert x + out + [b] == x + (out + [b]);
      CopyMatchShift(x, out + [b], off, len - 1);
    }
  }

  /** Bytes further back than 64 KB do not matter. */
  lemma {:induction false} NaiveShift(src: seq<byte>, ip: nat, x: seq<byte>, out: seq<byte>)
    requires |out| >= MAX_DISTANCE
    ensures var r := NaiveDecode(src, ip, out);
            NaiveDecode(src, ip, x + out) == if r.None? then None else Some(x + r.value)
    decreases |src| - ip
  {
    hide CopyMatch, ParseSeq;
    var s := ParseSeq(src, ip);
    match s
    case Malformed =>
    case Last(lit) => assert x + out + src[lit..] == x + (out + src[lit..]);
    case Seq(lit, ll, off, len, next) =>
      var lits := src[lit..lit + ll];
      assert x + out + lits == x + (out + lits);
      CopyMatchShift(x, out + lits, off, len);
      NaiveShift(src, next, x, CopyMatch(out + lits, off, len));
  }

  lemma {:induction false} NaiveGrows(src: seq<byte>, ip: nat, out: seq<byte>)
    ensures var r := NaiveDecode(src, ip, out); r.Some? ==> out <= r.value
    decreases |src| - ip
  {
    hide CopyMatch, ParseSeq, Repeats;
    var s := ParseSeq(src, ip);
    if s.Seq? {
      var lits := out + src[s.lit..s.lit + s.ll];
      if s.off <= |lits| {
        CopyMatchProps(lits, s.off, s.len);
        NaiveGrows(src, s.next, CopyMatch(lits, s.off, s.len));
      }
    }
  }

  /** What a block decodes to, after the history `h`. */
  function Decoded(block: seq<byte>, h: seq<byte>): Option<seq<byte>> {
    var r := NaiveDecode(block, 0, h);
    if r.Some? && |h| <= |r.value| then Some(r.value[|h|..]) else None
  }

  /** The recent history gives the same bytes as all of it. */
  lemma DecodedRecent(block: seq<byte>, d: seq<byte>, h: seq<byte>)
    requires Recent(d, h)
    ensures Decoded(block, d) == Decoded(block, h)
  {
    hide NaiveDecode;
    if |h| > KB64 {
      var v := h[|h| - KB64..];
      NaiveGrows(block, 0, v);
      NaiveShift(block, 0, h[..|h| - KB64], v);
      NaiveShift(block, 0, d[..|d| - KB64], v);
      assert h == h[..|h| - KB64] + v && d == d[..|d| - KB64] + v;
      var r := NaiveDecode(block, 0, v);
      if r.Some? {
        DropShift(h[..|h| - KB64], r.value, KB64);
        DropShift(d[..|d| - KB64], r.value, KB64);
      }
    }
  }

  lemma DropShift(x: seq<byte>, y: seq<byte>, n: nat)
    requires n <= |y|
    ensures (x + y)[|x| + n..] == y[n..]
  {
  }

  // ---------- the machine ----------

  /** What is being collected: a header, the header of a block, the checksum of an uncompressed block, a compressed
      block of some size with its checksum, the checksum of the content. */
  datatype Kind =
    | Header
    | BlockHeader
    | RawChecksum(data: seq<byte>)
    | Compressed(size: nat)
    | Suffix

  datatype Phase =
    | Collect(kind: Kind, got: seq<byte>)
    | Raw(left: nat, got: seq<byte>)
    | Ended
    | Skip(left: nat)
    | Done

  /** `content` is what the frame has decoded to, `remaining` what is left of the announced size, modulo 2^64. */
  datatype Frame = Frame(phase: Phase, info: Info, content: seq<byte>, remaining: nat)

  const NO_INFO := Info(4, false, false, false, 0, 0)

  /** Before the first byte; `remaining` is what an earlier frame may have left. */
  function Begin(remaining: nat): Frame {
    Frame(Collect(Header, []), NO_INFO, [], remaining)
  }

  /** How many bytes there must be, as far as can be told from those that are there. */
  function Need(f: Frame, kind: Kind, got: seq<byte>): nat {
    match kind
    case Header =>
      if |got| < MIN_FH_SIZE then MIN_FH_SIZE
      else if Skippable(got) then 8
      else if FlagsOk(got) then HeaderSize(got)
      else MIN_FH_SIZE
    case BlockHeader => BH_SIZE
    case RawChecksum(data) => 4
    case Compressed(size) => size + 4 * Bit(f.info.blockChecksum)
    case Suffix => 4
  }

  function Minus64(remaining: nat, n: nat): nat {
    (remaining - n) % WRAP64
  }

  /** `x` was decoded. */
  function Add(f: Frame, x: seq<byte>): Frame {
    f.(content := f.content + x,
       remaining := if f.info.contentSize != 0 then Minus64(f.remaining, |x|) else f.remaining)
  }

  const NEXT_BLOCK := Collect(BlockHeader, [])

  function CompleteHeader(f: Frame, got: seq<byte>): Option<Frame>
    requires |got| == Need(f, Header, got)
  {
    if Skippable(got) then
      var size := ReadLE32(got[4..8]);
      Some(f.(phase := if size == 0 then Done else Skip(size)))
    else if !FlagsOk(got) then None
    else
      var i := ParseHeader(got);
      if i.None? then None
      else Some(Frame(NEXT_BLOCK, i.value, [], if Flag(got[4], 8) then i.value.contentSize else f.remaining))
  }

  /** No more blocks: the announced size must be right; a checksum may follow. */
  function Finish(f: Frame): Option<Frame> {
    if f.remaining != 0 then None
    else Some(f.(phase := if f.info.contentChecksum then Collect(Suffix, []) else Done))
  }

  function BlockLength(got: seq<byte>): nat
    requires |got| == BH_SIZE
  {
    ReadLE32(got) % UNCOMPRESSED_FLAG
  }

  function CompleteBlockHeader(f: Frame, got: seq<byte>): Option<Frame>
    requires |got| == BH_SIZE
  {
    var size := BlockLength(got);
    if size == 0 then Finish(f.(phase := Ended))
    else if size > BlockSize(f.info.blockSizeID) then None
    else Some(f.(phase := if ReadLE32(got) >= UNCOMPRESSED_FLAG then Raw(size, []) else Collect(Compressed(size), [])))
  }

  /** A complete compressed block. In the strict sense it must be accepted whatever the memory layout. */
  ghost function BlockContent(strict: bool, f: Frame, block: seq<byte>): Option<seq<byte>> {
    var h := History(f.info.linked, f.content);
    if strict && !Robust(block, h, BlockSize(f.info.blockSizeID)) then None else Decoded(block, h)
  }

  ghost function CompleteBlock(strict: bool, f: Frame, size: nat, got: seq<byte>): Option<Frame>
    requires |got| == Need(f, Compressed(size), got)
  {
    if f.info.blockChecksum && ReadLE32(got[size..size + 4]) != Xxh(got[..size]) then None
    else
      var x := BlockContent(strict, f, got[..size]);
      if x.None? then None else Some(Add(f, x.value).(phase := NEXT_BLOCK))
  }

  /** All the bytes that were needed are there. */
  ghost function Complete(strict: bool, f: Frame, kind: Kind, got: seq<byte>): (r: Option<Frame>)
    requires |got| == Need(f, kind, got)
    ensures r.Some? ==> WellFormed(r.value)
  {
    match kind
    case Header => CompleteHeader(f, got)
    case BlockHeader => CompleteBlockHeader(f, got)
    case RawChecksum(data) => if ReadLE32(got) != Xxh(data) then None else Some(f.(phase := NEXT_BLOCK))
    case Compressed(size) => CompleteBlock(strict, f, size, got)
    case Suffix => if ReadLE32(got) != Xxh(f.content) then None else Some(f.(phase := Done))
  }

  /** The bytes `got` have been collected. */
  ghost function Collected(strict: bool, f: Frame, kind: Kind, got: seq<byte>): (r: Option<Frame>)
    requires |got| <= Need(f, kind, got)
    ensures r.Some? ==> WellFormed(r.value)
  {
    if |got| < Need(f, kind, got) then Some(f.(phase := Collect(kind, got))) else Complete(strict, f, kind, got)
  }

  function AfterRaw(f: Frame, left: nat, got: seq<byte>): Phase {
    if left > 0 then Raw(left, got) else if f.info.blockChecksum then Collect(RawChecksum(got), []) else NEXT_BLOCK
  }

  /** Nothing is complete while the machine waits for more of it. */
  predicate WellFormed(f: Frame) {
    match f.phase
    case Collect(kind, got) => |got| < Need(f, kind, got)
    case Raw(left, got) => 0 < left
    case Skip(left) => 0 < left
    case _ => true
  }

  lemma NeedOneMore(f: Frame, kind: Kind, got: seq<byte>, b: byte)
    requires |got| < Need(f, kind, got)
    ensures |got| + 1 <= Need(f, kind, got + [b])
    ensures |got| + 1 < Need(f, kind, got) ==> Need(f, kind, got + [b]) == Need(f, kind, got)
  {
    if kind.Header? && |got| >= MIN_FH_SIZE {
      assert (got + [b])[..4] == got[..4];
    }
  }

  ghost function Step(strict: bool, f: Frame, b: byte): (r: Option<Frame>)
    requires WellFormed(f)
    ensures r.Some? ==> WellFormed(r.value)
  {
    match f.phase
    case Collect(kind, got) =>
      NeedOneMore(f, kind, got, b);
      Collected(strict, f, kind, got + [b])
    case Raw(left, got) => Some(Add(f, [b]).(phase := AfterRaw(f, left - 1, got + [b])))
    case Skip(left) => Some(f.(phase := if left == 1 then Done else Skip(left - 1)))
    case Ended => None
    case Done => None
  }

  /** Any number of bytes; None if one of them cannot follow. */
  ghost function Run(strict: bool, f: Frame, x: seq<byte>): (r: Option<Frame>)
    requires WellFormed(f)
    ensures r.Some? ==> WellFormed(r.value)
    decreases |x|
  {
    if x == [] then Some(f)
    else
      var g := Step(strict, f, x[0]);
      if g.None? then None else Run(strict, g.value, x[1..])
  }

  lemma {:induction false} RunConcat(strict: bool, f: Frame, x: seq<byte>, y: seq<byte>)
    requires WellFormed(f)
    ensures var g := Run(strict, f, x); Run(strict, f, x + y) == if g.None? then None else Run(strict, g.value, y)
    decreases |x|
  {
    hide Step;
    if x == [] {
      assert x + y == y;
    } else {
      assert (x + y)[0] == x[0] && (x + y)[1..] == x[1..] + y;
      var g := Step(strict, f, x[0]);
      if g.Some? {
        RunConcat(strict, g.value, x[1..], y);
      }
    }
  }

  /** The strict machine only refuses more. */
  lemma StrictStep(f: Frame, b: byte)
    requires WellFormed(f)
    ensures Step(true, f, b) == None || Step(true, f, b) == Step(false, f, b)
  {
  }

  lemma {:induction false} StrictRun(f: Frame, x: seq<byte>)
    requires WellFormed(f)
    ensures Run(true, f, x) == None || Run(true, f, x) == Run(false, f, x)
    decreases |x|
  {
    hide Step;
    if x != [] {
      StrictStep(f, x[0]);
      if Step(true, f, x[0]).Some? {
        StrictRun(Step(true, f, x[0]).value, x[1..]);
      }
    }
  }

  /** The strict machine refuses one of the bytes `x`, whatever follows; bytes after a complete frame are not
      refused. */
  ghost predicate Fails(f: Frame, x: seq<byte>)
    requires WellFormed(f)
    decreases |x|
  {
    && x != [] && f.phase != Done
    && var g := Step(true, f, x[0]); g.None? || Fails(g.value, x[1..])
  }

  lemma {:induction false} FailsMore(f: Frame, x: seq<byte>, y: seq<byte>)
    requires WellFormed(f) && Fails(f, x)
    ensures Fails(f, x + y)
    decreases |x|
  {
    hide Step;
    assert (x + y)[0] == x[0] && (x + y)[1..] == x[1..] + y;
    var g := Step(true, f, x[0]);
    if g.Some? {
      FailsMore(g.value, x[1..], y);
    }
  }

  lemma {:induction false} RunFails(f: Frame, x: seq<byte>, y: seq<byte>)
    requires WellFormed(f) && Run(true, f, x).Some? && Fails(Run(true, f, x).value, y)
    ensures Fails(f, x + y)
    decreases |x|
  {
    hide Step;
    if x == [] {
      assert x + y == y;
    } else {
      DoneRefuses(f, x[0]);
      assert (x + y)[0] == x[0] && (x + y)[1..] == x[1..] + y;
      RunFails(Step(true, f, x[0]).value, x[1..], y);
    }
  }

  lemma DoneRefuses(f: Frame, b: byte)
    requires WellFormed(f)
    ensures f.phase == Done ==> forall strict :: Step(strict, f, b) == None
  {
  }

  /** A machine that gets to the end of a frame does not fail, on the frame or on more than it. */
  lemma {:induction false} ReachesTheEnd(f: Frame, x: seq<byte>, y: seq<byte>)
    requires WellFormed(f) && Run(true, f, x).Some? && (Run(true, f, x).value.phase == Done || y == [])
    ensures !Fails(f, x + y)
    decreases |x|
  {
    hide Step;
    if x == [] {
      assert x + y == y;
    } else {
      assert (x + y)[0] == x[0] && (x + y)[1..] == x[1..] + y;
      ReachesTheEnd(Step(true, f, x[0]).value, x[1..], y);
    }
  }

  /** What the lenient machine takes and the strict one does not, the strict one refuses before the end of the frame. */
  lemma {:induction false} StrictOrFails(f: Frame, x: seq<byte>)
    requires WellFormed(f) && Run(false, f, x).Some?
    ensures Run(true, f, x) == Run(false, f, x) || (Run(true, f, x).None? && Fails(f, x))
    decreases |x|
  {
    hide Step;
    if x != [] {
      StrictStep(f, x[0]);
      DoneRefuses(f, x[0]);
      if Step(true, f, x[0]).Some? {
        StrictOrFails(Step(true, f, x[0]).value, x[1..]);
      }
    }
  }

  predicate NothingBeforeHeader(f: Frame) {
    f.phase.Collect? && f.phase.kind.Header? ==> f.content == []
  }

  /** What was decoded stays. */
  lemma ContentStep(strict: bool, f: Frame, b: byte)
    requires WellFormed(f) && NothingBeforeHeader(f)
    ensures var g := Step(strict, f, b); g.Some? ==> f.content <= g.value.content && NothingBeforeHeader(g.value)
  {
    hide ParseHeader, Skippable, FlagsOk, Decoded, Robust, Xxh, ReadLE32, Minus64;
  }

  lemma {:induction false} ContentGrows(strict: bool, f: Frame, x: seq<byte>)
    requires WellFormed(f) && NothingBeforeHeader(f)
    ensures var g := Run(strict, f, x); g.Some? ==> f.content <= g.value.content && NothingBeforeHeader(g.value)
    decreases |x|
  {
    hide Step;
    if x != [] {
      ContentStep(strict, f, x[0]);
      var g := Step(strict, f, x[0]);
      if g.Some? {
        ContentGrows(strict, g.value, x[1..]);
      }
    }
  }

  // ---------- several bytes at once ----------

  lemma RunFirst(strict: bool, f: Frame, x: seq<byte>)
    requires WellFormed(f) && x != []
    ensures var g := Step(strict, f, x[0]); Run(strict, f, x) == if g.None? then None else Run(strict, g.value, x[1..])
  {
    hide Step;
  }

  lemma CollectStep(strict: bool, f: Frame, b: byte)
    requires WellFormed(f) && f.phase.Collect?
    ensures var k, got := f.phase.kind, f.phase.got;
            |got| + 1 <= Need(f, k, got + [b]) && Step(strict, f, b) == Collected(strict, f, k, got + [b])
  {
    hide Collected, Need;
    NeedOneMore(f, f.phase.kind, f.phase.got, b);
  }

  lemma NeedSame(f: Frame, phase: Phase, kind: Kind, got: seq<byte>)
    ensures Need(f.(phase := phase), kind, got) == Need(f, kind, got)
  {
  }

  /** As many bytes as are needed, or fewer. */
  lemma {:induction false} CollectRun(strict: bool, f: Frame, x: seq<byte>)
    requires WellFormed(f) && f.phase.Collect? && x != []
    requires |f.phase.got| + |x| <= Need(f, f.phase.kind, f.phase.got)
    ensures |f.phase.got + x| <= Need(f, f.phase.kind, f.phase.got + x)
    ensures Run(strict, f, x) == Collected(strict, f, f.phase.kind, f.phase.got + x)
    decreases |x|
  {
    hide Need, Complete, Step, Run;
    var k, got := f.phase.kind, f.phase.got;
    CollectStep(strict, f, x[0]);
    NeedOneMore(f, k, got, x[0]);
    RunFirst(strict, f, x);
    RunNothing();
    if |x| == 1 {
      assert got + x == got + [x[0]] && x[1..] == [];
    } else {
      var g := f.(phase := Collect(k, got + [x[0]]));
      NeedSame(f, g.phase, k, got + [x[0]]);
      assert got + x == got + [x[0]] + x[1..];
      CollectRun(strict, g, x[1..]);
      NeedSame(f, g.phase, k, got + x);
      CollectedSame(strict, f, g.phase, k, got + x);
    }
  }

  /** A field that is refused is refused at its last byte. */
  lemma {:induction false} CollectFails(f: Frame, x: seq<byte>)
    requires WellFormed(f) && f.phase.Collect? && x != []
    requires |f.phase.got| + |x| <= Need(f, f.phase.kind, f.phase.got) && Run(true, f, x) == None
    ensures Fails(f, x)
    decreases |x|
  {
    hide Need, Complete, Step, Run;
    var k, got := f.phase.kind, f.phase.got;
    CollectStep(true, f, x[0]);
    NeedOneMore(f, k, got, x[0]);
    RunFirst(true, f, x);
    RunNothing();
    if |x| == 1 {
      assert x[1..] == [];
    } else {
      var g := f.(phase := Collect(k, got + [x[0]]));
      NeedSame(f, g.phase, k, got + [x[0]]);
      CollectFails(g, x[1..]);
    }
  }

  lemma RunNothing()
    ensures forall strict, f :: WellFormed(f) ==> Run(strict, f, []) == Some(f)
  {
  }

  lemma CollectedSame(strict: bool, f: Frame, phase: Phase, kind: Kind, got: seq<byte>)
    requires |got| <= Need(f, kind, got) && |got| <= Need(f.(phase := phase), kind, got)
    ensures Collected(strict, f.(phase := phase), kind, got) == Collected(strict, f, kind, got)
  {
  }

  /** Bytes of an uncompressed block. */
  lemma {:induction false} RawRun(strict: bool, f: Frame, x: seq<byte>)
    requires WellFormed(f) && f.phase.Raw? && |x| <= f.phase.left && f.remaining < WRAP64
    ensures Run(strict, f, x) == Some(Add(f, x).(phase := AfterRaw(f, f.phase.left - |x|, f.phase.got + x)))
    decreases |x|
  {
    hide Minus64;
    if x == [] {
      MinusNothing(f.remaining);
      assert f.content + [] == f.content && f.phase.got + [] == f.phase.got;
    } else {
      var left, got := f.phase.left, f.phase.got;
      RunFirst(strict, f, x);
      var g := Add(f, [x[0]]).(phase := AfterRaw(f, left - 1, got + [x[0]]));
      if left == 1 {
        assert x == [x[0]] && x[1..] == [];
      } else {
        MinusBelow(f.remaining, 1);
        RawRun(strict, g, x[1..]);
        MinusTwice(f.remaining, 1, |x| - 1);
        assert [x[0]] + x[1..] == x;
        assert f.content + [x[0]] + x[1..] == f.content + x && got + [x[0]] + x[1..] == got + x;
      }
    }
  }

  lemma MinusNothing(r: nat)
    requires r < WRAP64
    ensures Minus64(r, 0) == r
  {
  }

  lemma MinusBelow(r: nat, n: nat)
    ensures Minus64(r, n) < WRAP64
  {
  }

  lemma MinusTwice(r: nat, m: nat, n: nat)
    ensures Minus64(Minus64(r, m), n) == Minus64(r, m + n)
  {
    var a := r - m;
    assert a == WRAP64 * (a / WRAP64) + a % WRAP64;
    ModShift(a % WRAP64 - n, a / WRAP64);
  }

  lemma {:induction false} ModShift(x: int, k: int)
    ensures (x + WRAP64 * k) % WRAP64 == x % WRAP64
    decreases if k < 0 then -k else k
  {
    if k > 0 {
      ModShift(x + WRAP64, k - 1);
    } else if k < 0 {
      ModShift(x - WRAP64, k + 1);
    }
  }

  /** Bytes of a skippable frame. */
  lemma {:induction false} SkipRun(strict: bool, f: Frame, x: seq<byte>)
    requires WellFormed(f) && f.phase.Skip? && |x| <= f.phase.left
    ensures Run(strict, f, x) == Some(f.(phase := if |x| == f.phase.left then Done else Skip(f.phase.left - |x|)))
    decreases |x|
  {
    if x != [] {
      RunFirst(strict, f, x);
      if f.phase.left > 1 {
        SkipRun(strict, f.(phase := Skip(f.phase.left - 1)), x[1..]);
      } else {
        assert x[1..] == [];
      }
    }
  }
}
