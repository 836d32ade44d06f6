/** Streaming over contiguous memory: LZ4_compress_fast_continue, LZ4_renormDictT and LZ4_decompress_safe_continue. */
module Lz4Stream {
  import opened Bytes
  import opened Sequences
  import opened Lz4Format
  import opened Lz4RoundTrip
  import opened Lz4Emit
  import opened Lz4Fast
  import Block = Lz4Block
  import Decoder = Lz4Decoder

  const KB64 := 0x1_0000

  /** Position a table entry stands for, relative to the end of the text. */
  function PositionOf(entry: nat, currentOffset: nat): int {
    entry - currentOffset
  }

  /** A block that is too long for its guards, with or without history, and the limit at which they just pass. */
  predicate LimitBroken(memory: seq<byte>, inputSize: nat, history: bool, maxOutputSize: nat, hash: nat -> nat) {
    && inputSize <= |memory| && inputSize <= MAX_INPUT_SIZE && maxOutputSize == SpillLimit(history)
    && Overlarge(memory, |memory| - inputSize, history) && hash(|memory| - inputSize) == hash(|memory| - inputSize + 1)
  }

  lemma BrokenSize(memory: seq<byte>, inputSize: nat, history: bool, maxOutputSize: nat, hash: nat -> nat)
    ensures LimitBroken(memory, inputSize, history, maxOutputSize, hash) ==>
              && inputSize <= |memory| && inputSize <= MAX_INPUT_SIZE
              && maxOutputSize < Block.WriteEnd(inputSize, history, maxOutputSize)
  {
    hide Overlong;
  }

  lemma BrokenFacts(c: Source, inputSize: nat, maxOutputSize: nat, slots: nat)
    requires 0 < slots && c.start <= |c.text| && inputSize == |c.text| - c.start
    ensures LimitBroken(c.text, inputSize, c.low < c.start, maxOutputSize, c.hash) ==>
              Overruns(c, slots, true, maxOutputSize)
  {
    hide Overlong;
  }

  /** LZ4_stream_t_internal, for blocks that follow each other in memory. */
  class Compressor {
    const hashTable: array<nat>
    var currentOffset: u32
    var dictSize: u32
    /** Everything given to the compressor so far. */
    ghost var text: seq<byte>

    ghost predicate Valid()
      reads this, hashTable
    {
      && hashTable.Length > 0
      && dictSize <= |text| && dictSize <= currentOffset
      && forall h :: 0 <= h < hashTable.Length ==> hashTable[h] <= currentOffset
    }

    /** How far an output with this limit may be written; with history, a match can be one byte longer. */
    ghost function WriteEnd(inputSize: nat, maxOutputSize: nat): nat
      reads `dictSize
    {
      Block.WriteEnd(inputSize, dictSize > 0, maxOutputSize)
    }

    /** Everything is left as it is for the next block: no offset is too large, and the block lies above it. */
    predicate InOrder(address: nat)
      reads `currentOffset
    {
      currentOffset <= 0x8000_0000 && currentOffset <= address
    }

    /** LZ4_resetStream. */
    constructor ()
      ensures Valid() && fresh(hashTable) && hashTable.Length == 4096 && text == [] && currentOffset == dictSize == 0
    {
      hashTable := new nat[4096](_ => 0);
      currentOffset, dictSize, text := 0, 0, [];
    }

    /** LZ4_renormDictT: no candidate that the distance test accepts is changed, and none appears. If less than 64 KB
        were compressed, in memory below that offset, all candidates are lost; else none is. `address` is where the
        next block is. */
    method Renorm(address: nat)
      requires Valid()
      modifies this`currentOffset, this`dictSize, hashTable
      ensures Valid() && currentOffset <= 0x8000_0000
      ensures forall h :: 0 <= h < hashTable.Length ==>
                var before := PositionOf(old(hashTable[h]), old(currentOffset));
                var after := PositionOf(hashTable[h], currentOffset);
                || after == before
                || (after < -MAX_DISTANCE && (before < -MAX_DISTANCE || address < old(currentOffset) < KB64))
      ensures address < old(currentOffset) < KB64 ==>
                forall h :: 0 <= h < hashTable.Length ==> PositionOf(hashTable[h], currentOffset) < -MAX_DISTANCE
      ensures dictSize == old(dictSize) || KB64 == dictSize < old(dictSize)
      ensures old(InOrder(address)) ==> currentOffset == old(currentOffset) && dictSize == old(dictSize)
    {
      if currentOffset > 0x8000_0000 || currentOffset > address {
        var delta := (currentOffset - KB64) % 0x1_0000_0000;
        var i := 0;
        while i < hashTable.Length
          invariant 0 <= i <= hashTable.Length && dictSize == old(dictSize) && currentOffset == old(currentOffset)
          invariant forall h :: 0 <= h < i ==>
                      hashTable[h] == if old(hashTable[h]) < delta then 0 else old(hashTable[h]) - delta
          invariant forall h :: i <= h < hashTable.Length ==> hashTable[h] == old(hashTable[h])
        {
          hashTable[i] := if hashTable[i] < delta then 0 else hashTable[i] - delta;
          i := i + 1;
        }
        currentOffset := KB64;
        dictSize := if dictSize > KB64 then KB64 else dictSize;
      }
    }

    /** LZ4_compress_fast_continue, for `inputSize` bytes that stand at the end of `memory`, right after what was
        compressed before. */
    method CompressContinue(memory: seq<byte>, inputSize: nat, address: nat, dst: array<byte>, maxOutputSize: nat,
                            acceleration: int, hash: nat -> nat) returns (n: nat)
      requires Valid() && |memory| == |text| + inputSize && text <= memory
      requires inputSize < 0x8000_0000 && acceleration <= 65536
      requires WriteEnd(inputSize, maxOutputSize) <= dst.Length
      modifies this, hashTable, dst
      ensures Valid() && text == memory
      ensures n == 0 ==> inputSize > MAX_INPUT_SIZE || maxOutputSize < Block.CompressBound(inputSize)
      ensures n > 0 ==> n <= maxOutputSize && DecodesTo(dst[..n], old(text), text)
      ensures forall k :: old(WriteEnd(inputSize, maxOutputSize)) <= k < dst.Length ==> dst[k] == old(dst[k])
      ensures LimitBroken(memory, inputSize, old(dictSize) > 0, maxOutputSize, hash) ==>
                n == 0 && maxOutputSize < old(WriteEnd(inputSize, maxOutputSize)) && dst[maxOutputSize] == 255
      ensures old(InOrder(address)) && old(currentOffset) + inputSize < 0x1_0000_0000 ==>
                currentOffset == old(currentOffset) + inputSize && dictSize == old(dictSize) + inputSize
    {
      hide DecodesTo, Block.CompressBound, Block.WriteEnd, LimitBroken;
      Renorm(address);
      n := CompressPrefix(memory, inputSize, dst, maxOutputSize, if acceleration < 1 then 1 else acceleration, hash);
      text := memory;
      dictSize := dictSize + inputSize;
      currentOffset := currentOffset + inputSize;
    }

    /** LZ4_compress_generic in prefix mode; candidates are tested against the dictionary only when it is small. */
    method CompressPrefix(memory: seq<byte>, inputSize: nat, dst: array<byte>, maxOutputSize: nat, acceleration: nat,
                          hash: nat -> nat) returns (n: nat)
      requires Valid() && |memory| == |text| + inputSize && text <= memory
      requires currentOffset <= 0x8000_0000 && inputSize < 0x8000_0000 && 1 <= acceleration
      requires WriteEnd(inputSize, maxOutputSize) <= dst.Length
      modifies hashTable, dst
      ensures forall h :: 0 <= h < hashTable.Length ==> hashTable[h] <= currentOffset + inputSize
      ensures n == 0 ==> inputSize > MAX_INPUT_SIZE || maxOutputSize < Block.CompressBound(inputSize)
      ensures n > 0 ==> n <= maxOutputSize && DecodesTo(dst[..n], text, memory)
      ensures forall k :: WriteEnd(inputSize, maxOutputSize) <= k < dst.Length ==> dst[k] == old(dst[k])
      ensures LimitBroken(memory, inputSize, dictSize > 0, maxOutputSize, hash) ==>
                n == 0 && maxOutputSize < WriteEnd(inputSize, maxOutputSize) && dst[maxOutputSize] == 255
    {
      hide Bound, DecodesTo, Has, Block.WriteEnd, Overruns, LimitBroken, Spill;
      Block.WriteEndFacts(inputSize, dictSize > 0, maxOutputSize);
      Block.BoundAbove(inputSize);
      BrokenSize(memory, inputSize, dictSize > 0, maxOutputSize, hash);
      if inputSize > MAX_INPUT_SIZE {
        return 0;
      }
      var start := |memory| - inputSize;
      var small := dictSize < KB64 && dictSize < currentOffset;
      var c := Source(memory, start, start - dictSize, start - currentOffset, false, small, hash);
      BrokenFacts(c, inputSize, maxOutputSize, hashTable.Length);
      ghost var lim := WriteEnd(inputSize, maxOutputSize);
      n := CompressGeneric(c, hashTable, dst, acceleration, true, maxOutputSize, lim);
      assert memory[..start] == text;
    }
  }

  /** After any first block of less than 64 KB, all the candidates it left are lost if the next one lies below it in
      memory, at an address less than its size. */
  method LosesCandidates(block: seq<byte>, address: nat, next: nat, hash: nat -> nat, slot: nat)
    returns (before: int, after: int)
    requires next < |block| < KB64 && slot < 4096
    ensures -MAX_DISTANCE <= before <= 0 && after < -MAX_DISTANCE
  {
    hide Bound, DecodesTo;
    var comp := new Compressor();
    var dst := new byte[Block.WriteEnd(|block|, false, 0)];
    var n := comp.CompressContinue(block, |block|, address, dst, 0, 1, hash);
    before := PositionOf(comp.hashTable[slot], comp.currentOffset);
    comp.Renorm(next);
    after := PositionOf(comp.hashTable[slot], comp.currentOffset);
  }

  /** With history the guards keep the limit for one byte less than without, and no better: for every larger block there
      are history and a limit such that it fails but has written beyond the limit. */
  method BeyondTheLimit(n: nat, address: nat, acceleration: int, hash: nat -> nat) returns (dst: array<byte>, c: nat)
    requires GUARDED_SIZE - 1 < n <= MAX_INPUT_SIZE && acceleration <= 65536 && 1 <= address && hash(1) == hash(2)
    ensures fresh(dst) && c == 0 && SpillLimit(true) < dst.Length && dst[SpillLimit(true)] != 0
  {
    hide Bound, DecodesTo, Overlong, Block.WriteEnd;
    var comp := new Compressor();
    dst := new byte[Block.WriteEnd(1, false, 0)];
    c := comp.CompressContinue([0], 1, address, dst, 0, acceleration, hash);
    var block, limit := Overlong(n, Lead(true)), SpillLimit(true);
    assert ([0] + block)[1..] == block;
    assert LimitBroken([0] + block, n, true, limit, hash);
    BrokenSize([0] + block, n, true, limit, hash);
    dst := new byte[Block.WriteEnd(n, true, limit)](_ => 0);
    c := comp.CompressContinue([0] + block, n, address, dst, limit, acceleration, hash);
  }

  /** LZ4_streamDecode_t_internal. Everything is decoded to one memory, `buf`; what was decoded last there is the
      prefix, and what was decoded before it, elsewhere, the external dictionary. */
  class Decompressor {
    var prefixSize: nat
    /** -1 is the null pointer. */
    var prefixEnd: int
    var externalDict: nat
    var extDictSize: nat

    predicate Valid()
      reads this
    {
      && (if prefixEnd < 0 then prefixSize == 0 else prefixSize <= prefixEnd)
    }

    /** LZ4_setStreamDecode without a dictionary. */
    constructor ()
      ensures Valid() && prefixEnd == -1 && externalDict == extDictSize == 0
    {
      prefixSize, prefixEnd, externalDict, extDictSize := 0, -1, 0, 0;
    }

    /** The part of the memory that serves as external dictionary for a block that is decoded at `dest`. */
    function DictStart(dest: nat): nat
      reads this
      requires Valid()
    {
      if prefixEnd == dest then externalDict else if prefixEnd < 0 then 0 else prefixEnd - prefixSize
    }

    function DictSize(dest: nat): nat
      reads this
    {
      if prefixEnd == dest then extDictSize else prefixSize
    }

    function PrefixSize(dest: nat): (n: nat)
      reads this
      requires Valid()
      ensures n <= dest
    {
      if prefixEnd == dest then prefixSize else 0
    }

    /** LZ4_decompress_safe_continue, at the end of the prefix or elsewhere. The dictionary must not be written over. */
    method DecompressContinue(src: seq<byte>, beyond: nat -> byte, buf: array<byte>, dest: nat, cap: nat)
      returns (n: int)
      requires Valid() && dest + cap <= buf.Length && DictStart(dest) + DictSize(dest) <= buf.Length
      requires DictSize(dest) == 0 || DictStart(dest) + DictSize(dest) <= dest || dest + cap <= DictStart(dest)
      modifies this, buf
      ensures Valid() && buf[..dest] == old(buf[..dest])
      ensures var dict := old(buf[DictStart(dest)..DictStart(dest) + DictSize(dest)]);
              var history := dict + old(buf[dest - PrefixSize(dest)..dest]);
              var r := SafeDecode(src, history, |dict|, cap);
              if r.Some? then 0 <= n <= cap && history + buf[dest..dest + n] == r.value else n < 0
      ensures n <= 0 ==> prefixSize == old(prefixSize) && prefixEnd == old(prefixEnd)
      ensures n > 0 ==> prefixSize == old(PrefixSize(dest)) + n && prefixEnd == dest + n
      ensures externalDict == old(DictStart(dest)) && extDictSize == old(DictSize(dest))
    {
      hide SafeDecode;
      var start, size, lo := DictStart(dest), DictSize(dest), dest - PrefixSize(dest);
      n := DecodeAt(src, beyond, buf[start..start + size], buf, lo, dest, cap);
      externalDict, extDictSize := start, size;
      if n > 0 {
        prefixSize, prefixEnd := dest - lo + n, dest + n;
      }
    }
  }

  /** LZ4_decompress_generic with an external dictionary and a prefix. */
  method DecodeAt(src: seq<byte>, beyond: nat -> byte, dict: seq<byte>, buf: array<byte>, lo: nat, dest: nat, cap: nat)
    returns (n: int)
    requires lo <= dest && dest + cap <= buf.Length
    modifies buf
    ensures buf[..dest] == old(buf[..dest])
    ensures var history := dict + old(buf[lo..dest]);
            var r := SafeDecode(src, history, |dict|, cap);
            if r.Some? then 0 <= n <= cap && history + buf[dest..dest + n] == r.value else n < 0
  {
    hide SafeDecode;
    ghost var prefix := buf[lo..dest];
    n := Decoder.DecompressGeneric(src, beyond, dict, buf, lo, dest, cap);
    if n >= 0 {
      assert buf[lo..dest + n] == prefix + buf[dest..dest + n];
      assert Decoder.Out(dict, buf, lo, dest + n) == dict + prefix + buf[dest..dest + n];
    }
  }

  /** One block through both ends of the stream. */
  method OneBlock(comp: Compressor, dec: Decompressor, block: seq<byte>, memory: seq<byte>, address: nat,
                  acceleration: int, hash: nat -> nat, beyond: nat -> byte, buf: array<byte>)
    requires comp.Valid() && dec.Valid() && comp.text == memory
    requires 0 < |block| <= MAX_INPUT_SIZE && acceleration <= 65536
    requires |memory| + |block| <= buf.Length && buf[..|memory|] == memory
    requires dec.prefixSize == |memory| && dec.extDictSize == 0
    requires dec.prefixEnd == if memory == [] then -1 else |memory|
    requires dec.externalDict <= buf.Length
    modifies comp, comp.hashTable, dec, buf
    ensures comp.Valid() && dec.Valid() && comp.text == memory + block
    ensures buf[..|memory| + |block|] == memory + block && dec.extDictSize == 0 && dec.externalDict <= buf.Length
    ensures dec.prefixSize == dec.prefixEnd == |memory| + |block|
  {
    hide Bound, SafeDecode;
    var bound := Block.CompressBound(|block|);
    var dst := new byte[bound](_ => 0);
    var n := comp.CompressContinue(memory + block, |block|, address, dst, bound, acceleration, hash);
    assert SafeDecode(dst[..n], memory, 0, |block|) == Some(memory + block);
    assert [] + buf[0..|memory|] == memory && buf[dec.DictStart(|memory|)..dec.DictStart(|memory|)] == [];
    var r := dec.DecompressContinue(dst[..n], beyond, buf, |memory|, |block|);
    assert memory + buf[|memory|..|memory| + r] == memory + block;
    assert buf[..|memory| + r] == buf[..|memory|] + buf[|memory|..|memory| + r];
  }

  /** Any number of non-empty blocks, whatever the addresses, accelerations and hashes: all come back. */
  method StreamRoundTrip(blocks: seq<seq<byte>>, addresses: seq<nat>, acceleration: int, hash: nat -> nat,
                         beyond: nat -> byte, buf: array<byte>)
    requires |addresses| == |blocks| && acceleration <= 65536
    requires forall i :: 0 <= i < |blocks| ==> 0 < |blocks[i]| <= MAX_INPUT_SIZE
    requires |Concat(blocks)| == buf.Length
    modifies buf
    ensures buf[..] == Concat(blocks)
  {
    var comp := new Compressor();
    var dec := new Decompressor();
    var memory: seq<byte> := [];
    for i := 0 to |blocks|
      invariant comp.Valid() && fresh(comp) && fresh(comp.hashTable) && dec.Valid() && fresh(dec)
      invariant memory == Concat(blocks[..i]) && comp.text == memory
      invariant |memory| <= buf.Length && buf[..|memory|] == memory
      invariant dec.extDictSize == 0 && dec.externalDict <= buf.Length
      invariant dec.prefixSize == |memory| && dec.prefixEnd == if memory == [] then -1 else |memory|
    {
      ConcatMore(blocks, i);
      ConcatPrefix(blocks, i + 1);
      OneBlock(comp, dec, blocks[i], memory, addresses[i], acceleration, hash, beyond, buf);
      memory := memory + blocks[i];
    }
    assert blocks[..|blocks|] == blocks;
  }
}
