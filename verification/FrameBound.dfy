/** How much room a frame encoder needs: LZ4F_compressBound_internal, LZ4F_compressFrameBound, LZ4F_optimalBSID. */
module FrameBound {
  import opened Bytes
  import opened FrameFormat

  /** What LZ4F_preferences_t says, as far as it matters here. Block size ID 0 stands for the default. */
  datatype Prefs = Prefs(blockSizeID: nat, blockChecksum: bool, contentChecksum: bool, contentSize: nat, dictID: nat,
                         level: int, autoFlush: bool)

  predicate ValidID(id: nat) {
    id == 0 || 4 <= id <= 7
  }

  function EffectiveID(id: nat): nat {
    if id == 0 then 4 else id
  }

  /** Header and checksum of a block. */
  function Overhead(blockChecksum: bool): nat {
    4 + 4 * Bit(blockChecksum)
  }

  /** Full blocks, and when the rest is flushed one more for the rest. */
  function BlocksBound(n: nat, blockSize: nat, blockChecksum: bool, flush: bool): nat
    requires 0 < blockSize
  {
    var nbFullBlocks := n / blockSize;
    var lastBlockSize := if flush then n % blockSize else 0;
    var nbBlocks := nbFullBlocks + if lastBlockSize > 0 then 1 else 0;
    Overhead(blockChecksum) * nbBlocks + blockSize * nbFullBlocks + lastBlockSize
  }

  /** LZ4F_compressBound_internal. */
  function CompressBound(srcSize: nat, p: Prefs, alreadyBuffered: nat): nat {
    var blockSize := BlockSize(EffectiveID(p.blockSizeID));
    var bufferedSize := if alreadyBuffered < blockSize - 1 then alreadyBuffered else blockSize - 1;
    BlocksBound(srcSize + bufferedSize, blockSize, p.blockChecksum, p.autoFlush || srcSize == 0)
    + 4 + 4 * Bit(p.contentChecksum)
  }

  /** LZ4F_compressFrameBound. */
  function CompressFrameBound(srcSize: nat, p: Prefs): nat {
    MAX_FH_SIZE + CompressBound(srcSize, p.(autoFlush := true), 0)
  }

  /** LZ4F_optimalBSID: the first of the smaller sizes that holds everything. */
  function OptimalFrom(requested: nat, proposed: nat, maxBlockSize: nat, srcSize: nat): nat
    decreases if proposed < requested then requested - proposed else 0
  {
    if requested <= proposed then requested
    else if srcSize <= maxBlockSize then proposed
    else OptimalFrom(requested, proposed + 1, maxBlockSize * 4, srcSize)
  }

  function OptimalID(requested: nat, srcSize: nat): nat {
    OptimalFrom(requested, 4, KB64, srcSize)
  }

  /** The smallest of the IDs up to the one asked for whose blocks hold everything; or, if none does, that one. */
  predicate BestID(id: nat, requested: nat, srcSize: nat) {
    && ValidID(id) && id <= requested && (id == 0 ==> requested == 0)
    && (id < requested ==> srcSize <= BlockSize(id))
    && forall smaller :: 4 <= smaller < id ==> BlockSize(smaller) < srcSize
  }

  /** The loop of LZ4F_optimalBSID. */
  method OptimalBSID(requested: nat, srcSize: nat) returns (id: nat)
    ensures ValidID(requested) ==> BestID(id, requested, srcSize)
    ensures id == OptimalID(requested, srcSize)
  {
    if ValidID(requested) {
      OptimalChoice(requested, srcSize);
    }
    var proposed: nat, maxBlockSize: nat := 4, KB64;
    while requested > proposed
      invariant OptimalFrom(requested, proposed, maxBlockSize, srcSize) == OptimalID(requested, srcSize)
    {
      if srcSize <= maxBlockSize {
        return proposed;
      }
      proposed, maxBlockSize := proposed + 1, maxBlockSize * 4;
    }
    id := requested;
  }

  lemma OptimalChoice(requested: nat, srcSize: nat)
    requires ValidID(requested)
    ensures BestID(OptimalID(requested, srcSize), requested, srcSize)
  {
    if requested > 4 && srcSize > KB64 {
      assert OptimalID(requested, srcSize) == OptimalFrom(requested, 5, 4 * KB64, srcSize);
      if requested > 5 && srcSize > 4 * KB64 {
        assert OptimalFrom(requested, 5, 4 * KB64, srcSize) == OptimalFrom(requested, 6, 16 * KB64, srcSize);
        if requested > 6 && srcSize > 16 * KB64 {
          assert OptimalFrom(requested, 6, 16 * KB64, srcSize) == OptimalFrom(requested, 7, 64 * KB64, srcSize);
        }
      }
    }
  }

  // ---------- facts about the bound ----------

  /** One full block more. */
  lemma OneFullBlock(n: nat, id: nat, crc: bool, flush: bool)
    requires n >= BlockSize(id)
    ensures BlocksBound(n, BlockSize(id), crc, flush)
         == Overhead(crc) + BlockSize(id) + BlocksBound(n - BlockSize(id), BlockSize(id), crc, flush)
  {
    DivStep(n, id);
  }

  lemma DivStep(n: nat, id: nat)
    requires n >= BlockSize(id)
    ensures n / BlockSize(id) == (n - BlockSize(id)) / BlockSize(id) + 1
    ensures n % BlockSize(id) == (n - BlockSize(id)) % BlockSize(id)
  {
    if id == 5 {
      assert BlockSize(id) == 0x4_0000;
    } else if id == 6 {
      assert BlockSize(id) == 0x10_0000;
    } else if id == 7 {
      assert BlockSize(id) == 0x40_0000;
    } else {
      assert BlockSize(id) == 0x1_0000;
    }
  }

  /** The same bound, block by block. */
  function Room(n: nat, id: nat, crc: bool, flush: bool): nat {
    if n >= BlockSize(id) then Overhead(crc) + BlockSize(id) + Room(n - BlockSize(id), id, crc, flush)
    else if flush && n > 0 then Overhead(crc) + n
    else 0
  }

  lemma RoomStep(n: nat, id: nat, crc: bool, flush: bool)
    ensures n >= BlockSize(id) ==>
              Room(n, id, crc, flush) == Overhead(crc) + BlockSize(id) + Room(n - BlockSize(id), id, crc, flush)
    ensures n < BlockSize(id) && flush && n > 0 ==> Room(n, id, crc, flush) == Overhead(crc) + n
  {
    hide BlockSize;
  }

  lemma {:induction false} RoomIsBound(n: nat, id: nat, crc: bool, flush: bool)
    ensures BlocksBound(n, BlockSize(id), crc, flush) == Room(n, id, crc, flush)
  {
    hide BlocksBound, BlockSize;
    if n >= BlockSize(id) {
      SomeSize(id);
      OneFullBlock(n, id, crc, flush);
      RoomIsBound(n - BlockSize(id), id, crc, flush);
    } else {
      NoFullBlock(n, id, crc, flush);
    }
  }

  lemma SomeSize(id: nat)
    ensures KB64 <= BlockSize(id) <= 64 * KB64
  {
  }

  lemma NoFullBlock(n: nat, id: nat, crc: bool, flush: bool)
    requires n < BlockSize(id)
    ensures BlocksBound(n, BlockSize(id), crc, flush) == if flush && n > 0 then Overhead(crc) + n else 0
  {
    DivSmall(n, id);
  }

  lemma DivSmall(n: nat, id: nat)
    requires n < BlockSize(id)
    ensures n / BlockSize(id) == 0 && n % BlockSize(id) == n
  {
    if id == 5 {
      assert BlockSize(id) == 0x4_0000;
    } else if id == 6 {
      assert BlockSize(id) == 0x10_0000;
    } else if id == 7 {
      assert BlockSize(id) == 0x40_0000;
    } else {
      assert BlockSize(id) == 0x1_0000;
    }
  }

  /** One block of a size that holds everything takes no more than what the larger size would have been given. */
  lemma SmallerIsNotMore(n: nat, small: nat, large: nat, crc: bool)
    requires n <= BlockSize(small) <= BlockSize(large)
    ensures BlocksBound(n, BlockSize(small), crc, true) <= BlocksBound(n, BlockSize(large), crc, true)
  {
    if n < BlockSize(small) {
      NoFullBlock(n, small, crc, true);
      NoFullBlock(n, large, crc, true);
    } else {
      OneFullBlock(n, small, crc, true);
      NoFullBlock(0, small, crc, true);
      if n < BlockSize(large) {
        NoFullBlock(n, large, crc, true);
      }
    }
  }

  /** A frame always fits in the bound for the caller's own preferences, whatever block size is chosen instead. */
  lemma OptimalFits(srcSize: nat, p: Prefs, contentSize: nat)
    requires ValidID(p.blockSizeID)
    ensures var id := OptimalID(p.blockSizeID, srcSize);
            var q := p.(blockSizeID := id, contentSize := contentSize);
            CompressFrameBound(srcSize, q) <= CompressFrameBound(srcSize, p)
  {
    hide BlocksBound, OptimalID;
    OptimalChoice(p.blockSizeID, srcSize);
    var id := OptimalID(p.blockSizeID, srcSize);
    if id != p.blockSizeID {
      SmallerIsNotMore(srcSize, id, p.blockSizeID, p.blockChecksum);
    }
  }

  /** Less than a block is buffered, so that what counts is what is buffered and what is given. */
  lemma BoundIsRoom(srcSize: nat, p: Prefs, buffered: nat)
    requires p.blockSizeID != 0 && buffered < BlockSize(p.blockSizeID)
    ensures CompressBound(srcSize, p, buffered)
         == Room(srcSize + buffered, p.blockSizeID, p.blockChecksum, p.autoFlush || srcSize == 0)
            + 4 + 4 * Bit(p.contentChecksum)
  {
    hide BlocksBound, Room;
    RoomIsBound(srcSize + buffered, p.blockSizeID, p.blockChecksum, p.autoFlush || srcSize == 0);
  }

  /** What a flush needs, and the end of the frame after it. */
  lemma FlushBound(p: Prefs, buffered: nat)
    requires p.blockSizeID != 0 && 0 < buffered < BlockSize(p.blockSizeID)
    ensures CompressBound(0, p, buffered) == Overhead(p.blockChecksum) + buffered + 4 + 4 * Bit(p.contentChecksum)
  {
    hide BlocksBound;
    BoundIsRoom(0, p, buffered);
  }

  lemma SmallestBound(p: Prefs)
    ensures CompressBound(0, p, 0) == 4 + 4 * Bit(p.contentChecksum)
  {
    hide BlocksBound;
    SomeSize(EffectiveID(p.blockSizeID));
    NoFullBlock(0, EffectiveID(p.blockSizeID), p.blockChecksum, true);
  }

  // ---------- the bound a caller can compute ----------

  /** LZ4F_compressBound: whatever is buffered. */
  function PublicBound(srcSize: nat, p: Prefs): nat {
    CompressBound(srcSize, p, WRAP64 - 1)
  }

  /** What LZ4F_compressBound takes instead of preferences it is not given. */
  const NULL_PREFS := Prefs(0, false, true, 0, 0, 0, false)

  lemma {:induction false} RoomGrows(n: nat, m: nat, id: nat, crc: bool, flush: bool)
    requires n <= m
    ensures Room(n, id, crc, flush) <= Room(m, id, crc, flush)
    decreases m
  {
    hide BlockSize;
    SomeSize(id);
    if n >= BlockSize(id) {
      RoomGrows(n - BlockSize(id), m - BlockSize(id), id, crc, flush);
    } else if m >= BlockSize(id) {
      RoomStep(m, id, crc, flush);
    }
  }

  /** The sizes that the bound is made of. */
  lemma BoundIsRoomOf(srcSize: nat, p: Prefs, buffered: nat)
    ensures var id := EffectiveID(p.blockSizeID);
            var kept := if buffered < BlockSize(id) - 1 then buffered else BlockSize(id) - 1;
            CompressBound(srcSize, p, buffered)
            == Room(srcSize + kept, id, p.blockChecksum, p.autoFlush || srcSize == 0) + 4 + 4 * Bit(p.contentChecksum)
  {
    hide BlocksBound, Room, BlockSize;
    var id := EffectiveID(p.blockSizeID);
    SomeSize(id);
    var kept := if buffered < BlockSize(id) - 1 then buffered else BlockSize(id) - 1;
    RoomIsBound(srcSize + kept, id, p.blockChecksum, p.autoFlush || srcSize == 0);
  }

  /** A caller who provides the public bound always provides enough. */
  lemma PublicBoundSuffices(srcSize: nat, p: Prefs, buffered: nat)
    requires buffered < BlockSize(EffectiveID(p.blockSizeID))
    ensures CompressBound(srcSize, p, buffered) <= PublicBound(srcSize, p)
  {
    hide CompressBound, Room, BlockSize;
    var id := EffectiveID(p.blockSizeID);
    SomeSize(id);
    BoundIsRoomOf(srcSize, p, buffered);
    BoundIsRoomOf(srcSize, p, WRAP64 - 1);
    RoomGrows(srcSize + buffered, srcSize + (BlockSize(id) - 1), id, p.blockChecksum, p.autoFlush || srcSize == 0);
  }

  /** What can be buffered between calls: less than a block, and nothing with autoFlush. */
  predicate CanBeBuffered(p: Prefs, buffered: nat) {
    if p.autoFlush then buffered == 0 else buffered < BlockSize(EffectiveID(p.blockSizeID))
  }

  /** Every size and everything that can be buffered is covered by what the bound is without preferences. */
  ghost predicate CoveredWithoutPrefs(p: Prefs) {
    forall srcSize: nat, buffered: nat | CanBeBuffered(p, buffered) ::
      CompressBound(srcSize, p, buffered) <= PublicBound(srcSize, NULL_PREFS)
  }

  /** Blocks of 64 KB without checksums; or, if everything is flushed at once, no block checksums, or no content
      checksum and larger blocks. */
  predicate SmallOverhead(p: Prefs) {
    if p.autoFlush then !p.blockChecksum || (EffectiveID(p.blockSizeID) != 4 && !p.contentChecksum)
    else EffectiveID(p.blockSizeID) == 4 && !p.blockChecksum
  }

  /** The bound without preferences is meant for the worst case. It covers exactly these. */
  lemma WithoutPrefs(p: Prefs)
    requires ValidID(p.blockSizeID)
    ensures CoveredWithoutPrefs(p) <==> SmallOverhead(p)
  {
    hide CompressBound, Room;
    if SmallOverhead(p) {
      forall srcSize: nat, buffered: nat | CanBeBuffered(p, buffered)
        ensures CompressBound(srcSize, p, buffered) <= PublicBound(srcSize, NULL_PREFS)
      {
        Covered(p, srcSize, buffered);
      }
    } else {
      var srcSize, buffered := NotCovered(p);
      assert CompressBound(srcSize, p, buffered) > PublicBound(srcSize, NULL_PREFS);
    }
  }

  lemma Covered(p: Prefs, srcSize: nat, buffered: nat)
    requires ValidID(p.blockSizeID) && SmallOverhead(p) && CanBeBuffered(p, buffered)
    ensures CompressBound(srcSize, p, buffered) <= PublicBound(srcSize, NULL_PREFS)
  {
    hide CompressBound, Room;
    BoundIsRoomOf(srcSize, NULL_PREFS, WRAP64 - 1);
    if !p.autoFlush {
      PublicBoundSuffices(srcSize, p, buffered);
      BoundIsRoomOf(srcSize, p, WRAP64 - 1);
    } else {
      BoundIsRoomOf(srcSize, p, 0);
      if srcSize == 0 {
        NoRoom(EffectiveID(p.blockSizeID), p.blockChecksum, true);
      } else {
        FlushedRoom(srcSize, EffectiveID(p.blockSizeID), p.blockChecksum);
      }
    }
  }

  /** What the bound without preferences has for blocks, of an input that is not empty. */
  function NullRoom(n: nat): nat
    requires 0 < n
  {
    Room(n + KB64 - 1, 4, false, false)
  }

  lemma {:induction false} NullBlocks(n: nat, r: nat)
    requires 0 < n
    ensures NullRoom(n + KB64 * r) == (KB64 + 4) * r + NullRoom(n)
    decreases r
  {
    hide Room;
    if r > 0 {
      NullBlocks(n, r - 1);
      RoomStep(n + KB64 * r + KB64 - 1, 4, false, false);
    }
  }

  lemma NullOne(n: nat)
    requires 0 < n
    ensures n + 4 <= NullRoom(n) && (n <= KB64 ==> NullRoom(n) == KB64 + 4)
  {
    hide Room;
    var r := (n - 1) / KB64;
    NullBlocks(n - KB64 * r, r);
    RoomStep(n - KB64 * r + KB64 - 1, 4, false, false);
    NoRoom(4, false, false);
    LittleRoom(n - KB64 * r - 1);
  }

  lemma LittleRoom(n: nat)
    requires n < KB64
    ensures Room(n, 4, false, false) == 0
  {
  }

  /** With everything flushed, larger blocks have less overhead. */
  lemma {:induction false} FlushedRoom(n: nat, id: nat, crc: bool)
    requires 0 < n && 4 <= id <= 7 && (crc ==> id != 4)
    ensures Room(n, id, crc, true) <= NullRoom(n) + if crc then 4 else 0
    decreases n
  {
    hide Room, NullRoom;
    RoomStep(n, id, crc, true);
    NullOne(n);
    var r := BlockSize(id) / KB64;
    if n > BlockSize(id) {
      FlushedRoom(n - BlockSize(id), id, crc);
      NullBlocks(n - BlockSize(id), r);
    } else if n == BlockSize(id) {
      NoRoom(id, crc, true);
      NullBlocks(KB64, r - 1);
      NullOne(KB64);
    }
  }

  /** Two blocks with checksums, a block and the content with checksums, or a single larger block. */
  lemma NotCovered(p: Prefs) returns (srcSize: nat, buffered: nat)
    requires ValidID(p.blockSizeID) && !SmallOverhead(p)
    ensures CanBeBuffered(p, buffered) && CompressBound(srcSize, p, buffered) > PublicBound(srcSize, NULL_PREFS)
  {
    hide CompressBound, Room;
    var id, crc := EffectiveID(p.blockSizeID), p.blockChecksum;
    srcSize := if p.autoFlush then (if id == 4 then 2 * KB64 else KB64) else if id == 4 then KB64 + 1 else 1;
    buffered := if p.autoFlush then 0 else BlockSize(id) - 1;
    BoundIsRoomOf(srcSize, p, buffered);
    BoundIsRoomOf(srcSize, NULL_PREFS, WRAP64 - 1);
    RoomStep(srcSize + buffered, id, crc, p.autoFlush);
    if id == 4 {
      RoomStep(KB64, 4, crc, p.autoFlush);
    }
    NoRoom(id, crc, p.autoFlush);
    if p.autoFlush {
      NullBlocks(KB64, 1);
      NullOne(KB64);
    } else {
      RoomStep(srcSize + KB64 - 1, 4, false, false);
      RoomStep(KB64, 4, false, false);
      NoRoom(4, false, false);
    }
  }

  lemma NoRoom(id: nat, crc: bool, flush: bool)
    ensures Room(0, id, crc, flush) == 0
  {
  }
}
