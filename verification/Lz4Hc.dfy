/** LZ4_compress_HC: a strategy for each compression level. */
module Lz4Hc {
  import opened Bytes
  import opened Lz4Format
  import opened Lz4RoundTrip
  import opened Lz4Emit
  import opened Lz4Match
  import opened Lz4HcEmit
  import opened Lz4HcIndex
  import opened Lz4NoMatch
  import Lz4HcParser
  import Lz4Opt
  import Block = Lz4Block
  import Fast = Lz4Fast

  const CLEVEL_DEFAULT := 9
  const CLEVEL_MAX := 12

  datatype Strategy = HashChain | Optimal

  datatype Params = Params(strat: Strategy, nbSearches: nat, targetLength: nat)

  /** The levels, from 0 to 12. */
  const CL_TABLE: seq<Params> := [
    Params(HashChain, 2, 16), Params(HashChain, 2, 16), Params(HashChain, 2, 16),
    Params(HashChain, 4, 16), Params(HashChain, 8, 16), Params(HashChain, 16, 16), Params(HashChain, 32, 16),
    Params(HashChain, 64, 16), Params(HashChain, 128, 16), Params(HashChain, 256, 16),
    Params(Optimal, 96, 64), Params(Optimal, 512, 128), Params(Optimal, 8192, Lz4Opt.OPT_NUM)]

  /** The level that is used for the one asked for. */
  function Level(cLevel: int): (level: nat)
    ensures level < |CL_TABLE|
  {
    if cLevel < 1 then CLEVEL_DEFAULT else if cLevel > CLEVEL_MAX then CLEVEL_MAX else cLevel
  }

  function SearchOf(text: seq<byte>, hash: seq<byte> -> nat, cLevel: int): Search {
    var params := CL_TABLE[Level(cLevel)];
    Search(text, hash, params.nbSearches, params.strat == Optimal || params.nbSearches > 64)
  }

  /** How far an output of this capacity may be written: up to the capacity if the guards keep it, else as far as what
      they let pass, or as the worst case. */
  function WriteEnd(n: nat, capacity: nat): nat {
    var end := capacity + Spill(n, capacity);
    if capacity >= Block.CompressBound(n) then capacity
    else if end <= Block.CompressBound(n) then end
    else Block.CompressBound(n)
  }

  lemma WriteEndFacts(n: nat, capacity: nat)
    ensures capacity <= WriteEnd(n, capacity)
    ensures n <= GUARDED_HC_SIZE || capacity >= Block.CompressBound(n) ==> WriteEnd(n, capacity) == capacity
    ensures n <= MAX_INPUT_SIZE ==>
              Room(n, Limit(capacity < Block.CompressBound(n), capacity), WriteEnd(n, capacity))
  {
    hide Bound, Spill;
    Block.BoundAbove(n);
    NoSpill(n, capacity);
  }

  lemma NoSpill(n: nat, capacity: nat)
    ensures n <= GUARDED_HC_SIZE ==> Spill(n, capacity) == 0
  {
  }

  /** A text that repeats its first `d` bytes, in which nothing repeats, such that the attempts of the level reach the
      first position; at the levels that look for the best parse, the repetition is long enough to be taken at once. */
  ghost predicate RepeatsFirst(text: seq<byte>, hash: seq<byte> -> nat, cLevel: int, d: nat) {
    var params := CL_TABLE[Level(cLevel)];
    && Lz4HcParser.Repeating(SearchOf(text, hash, cLevel), HASH_SIZE, d)
    && (params.strat == Optimal ==> d + params.targetLength + LASTLITERALS < |text|)
  }

  /** LZ4_compress_HC_extStateHC: at every level, whatever the hash, an input of supported size is compressed when the
      capacity is LZ4_compressBound; with less, the result is within the capacity, or there is none, and nothing is
      written from WriteEnd on. What has no match within reach does not get smaller; what repeats its first `a` bytes
      becomes one match. What is left behind when it stops is said for inputs with one or two matches. */
  method CompressHC(text: seq<byte>, hash: seq<byte> -> nat, dst: array<byte>, capacity: nat, cLevel: int,
                    ghost a: nat, ghost b: nat) returns (n: nat)
    requires WriteEnd(|text|, capacity) <= dst.Length
    modifies dst
    ensures n == 0 ==> |text| > MAX_INPUT_SIZE || capacity < Block.CompressBound(|text|)
    ensures n > 0 ==> n <= capacity && n <= Block.CompressBound(|text|) && DecodesTo(dst[..n], [], text)
    ensures Matchless(text) && capacity <= |text| ==> n == 0
    ensures Stops(text, a, b, Limit(true, capacity)) && capacity < Block.CompressBound(|text|) ==>
              n == 0 && StoppedAt(text, dst[..], a, b)
    ensures |text| <= MAX_INPUT_SIZE && RepeatsFirst(text, hash, cLevel, a) ==>
              && a + MFLIMIT < |text|
              && var o := Limit(capacity < Block.CompressBound(|text|), capacity);
                 n == if Lz4HcParser.RepeatedFits(|text|, a, o) then Fast.RepeatedSize(|text|, a) else 0
    ensures forall k :: WriteEnd(|text|, capacity) <= k < dst.Length ==> dst[k] == old(dst[k])
  {
    hide DecodesTo, Bound, Matchless, Block.CompressBound, WriteEnd, Stops, StoppedAt, Lz4HcParser.Repeating,
         Lz4HcParser.RepeatedFits, Fast.RepeatedSize;
    Block.BoundAbove(|text|);
    WriteEndFacts(|text|, capacity);
    if |text| > MAX_INPUT_SIZE {
      return 0;
    }
    var o := Limit(capacity < Block.CompressBound(|text|), capacity);
    ghost var lim := WriteEnd(|text|, capacity);
    var params, s := CL_TABLE[Level(cLevel)], SearchOf(text, hash, cLevel);
    match params.strat {
      case HashChain =>
        n := Lz4HcParser.CompressHashChain(s, dst, o, lim, a, b);
      case Optimal =>
        n := Lz4Opt.CompressOptimal(s, dst, params.targetLength, Level(cLevel) == CLEVEL_MAX, o, lim, a, b);
    }
  }

  // ---------- beyond the capacity ----------

  /** The last byte that is copied with the literals before the match at `b`. */
  function LastCopied(a: nat, b: nat): nat
    requires AnchorBefore(a, b) <= b
  {
    var length := b - AnchorBefore(a, b);
    OpBefore(a, b) + LenCost(length) + WildEnd(length)
  }

  lemma LastCopiedByte(text: seq<byte>, d: seq<byte>, a: nat, b: nat)
    requires AnchorBefore(a, b) <= b && StoppedAt(text, d, a, b) && b + 6 < |text| && LastCopied(a, b) < |d|
    requires WildEnd(b - AnchorBefore(a, b)) == b - AnchorBefore(a, b) + 7
    ensures d[LastCopied(a, b)] == text[b + 6]
  {
    var length := b - AnchorBefore(a, b);
    var end := OpBefore(a, b) + 1 + LenCost(length) + length;
    assert text[b + (LastCopied(a, b) - end)] == text[b + 6];
  }

  /** The shortest run of literals that its guard does not protect, and the limit at which the guard just passes. */
  const SPILL_RUN := GUARDED_RUN + 1
  const SPILL_LIMIT := 5655

  lemma ShortestStops(n: nat)
    requires GUARDED_HC_SIZE < n
    ensures var text, a := OneMatch(n, SPILL_RUN), SPILL_RUN;
            && Stops(text, a, a, Limit(true, SPILL_LIMIT)) && LastCopied(a, a) == SPILL_LIMIT && text[a + 6] == 0
            && WildEnd(a) == a + 7
  {
    hide OneMatch, OnlyAt, Agree;
    OneMatchOnly(n, SPILL_RUN);
    assert {SPILL_RUN} == {SPILL_RUN, SPILL_RUN};
  }

  /** For every size above GUARDED_HC_SIZE there is an input of that size, and a capacity, such that LZ4_compress_HC
      fails but has written beyond the capacity, at every level and with every hash. */
  method BeyondTheLimit(n: nat, hash: seq<byte> -> nat, cLevel: int) returns (dst: array<byte>, c: nat)
    requires GUARDED_HC_SIZE < n <= MAX_INPUT_SIZE
    ensures fresh(dst) && c == 0 && SPILL_LIMIT < dst.Length && dst[SPILL_LIMIT] != 1
  {
    hide Bound, OneMatch, Stops, StoppedAt, LastCopied, WriteEnd, Block.CompressBound;
    var text := OneMatch(n, SPILL_RUN);
    ShortestStops(n);
    ShortestRoom(n);
    dst := new byte[WriteEnd(n, SPILL_LIMIT)](_ => 1);
    c := CompressHC(text, hash, dst, SPILL_LIMIT, cLevel, SPILL_RUN, SPILL_RUN);
    LastCopiedByte(text, dst[..], SPILL_RUN, SPILL_RUN);
  }

  lemma ShortestRoom(n: nat)
    requires GUARDED_HC_SIZE < n <= MAX_INPUT_SIZE
    ensures SPILL_LIMIT < WriteEnd(n, SPILL_LIMIT) && SPILL_LIMIT < Block.CompressBound(n)
  {
  }

  // ---------- with a capacity of one byte less, as for the blocks of a frame ----------

  /** The sizes of full blocks. */
  predicate FullBlock(n: nat) {
    n == 0x1_0000 || n == 0x4_0000 || n == 0x10_0000 || n == 0x40_0000
  }

  /** Where the two matches are in the block of that size that is written farthest. */
  function Farthest(n: nat): (ab: (nat, nat)) {
    if n == 0x1_0000 then (59643, 65272)
    else if n == 0x4_0000 then (7, 261116)
    else if n == 0x10_0000 then (11, 1044488)
    else (2, 4177975)
  }

  function FarthestText(n: nat): (text: seq<byte>)
    requires FullBlock(n)
    ensures |text| == n
  {
    TwoMatches(n, Farthest(n).0, Farthest(n).1)
  }

  /** Beyond the size of the block, a byte for every 64 KB after the first. */
  function FarthestEnd(n: nat): nat
    requires 0 < n
  {
    n + (n - 1) / 0x1_0000
  }

  lemma FarthestStops(n: nat)
    requires FullBlock(n)
    ensures var (text, a, b) := (FarthestText(n), Farthest(n).0, Farthest(n).1);
            && Stops(text, a, b, Limit(true, n - 1)) && b + 6 < n && text[b + 6] == 0
            && LastCopied(a, b) + 1 == FarthestEnd(n) && WildEnd(b - AnchorBefore(a, b)) == b - AnchorBefore(a, b) + 7
  {
    hide TwoMatches, OnlyAt, Agree;
    TwoMatchesOnly(n, Farthest(n).0, Farthest(n).1);
  }

  /** A block of at most 4 MB, with one byte less as capacity, is written at most so far. */
  lemma BlockEnd(n: nat)
    requires 0 < n <= MAX_BLOCK
    ensures WriteEnd(n, n - 1) <= FarthestEnd(n) && (n <= GUARDED_HC_SIZE ==> WriteEnd(n, n - 1) == n - 1)
    ensures n - 1 < Block.CompressBound(n)
    ensures FullBlock(n) ==> WriteEnd(n, n - 1) == FarthestEnd(n)
  {
  }

  /** And for full blocks no bound is better: such a block is stored, but the last byte below the bound was written. */
  method FarthestWrite(n: nat, hash: seq<byte> -> nat, cLevel: int) returns (dst: array<byte>, c: nat)
    requires FullBlock(n)
    ensures fresh(dst) && c == 0 && dst.Length == WriteEnd(n, n - 1) == FarthestEnd(n) && dst[FarthestEnd(n) - 1] != 1
  {
    hide FarthestText, Stops, StoppedAt, LastCopied, WriteEnd, Block.CompressBound;
    FarthestStops(n);
    BlockEnd(n);
    dst := new byte[WriteEnd(n, n - 1)](_ => 1);
    c := CompressHC(FarthestText(n), hash, dst, n - 1, cLevel, Farthest(n).0, Farthest(n).1);
    LastCopiedByte(FarthestText(n), dst[..], Farthest(n).0, Farthest(n).1);
  }

  /** Whatever the level, the hash and the capacity, LZ4_decompress_safe gives back the input of a block that was
      produced, and with LZ4_compressBound as capacity one is. */
  method HCRoundTrip(text: seq<byte>, hash: seq<byte> -> nat, capacity: nat, cLevel: int, beyond: nat -> byte,
                     out: array<byte>) returns (produced: bool, n: int)
    requires |text| <= out.Length
    modifies out
    ensures capacity >= Block.CompressBound(|text|) && |text| <= MAX_INPUT_SIZE ==> produced
    ensures produced ==> n == |text| && out[..n] == text
  {
    hide Bound, SafeDecode;
    var dst := new byte[WriteEnd(|text|, capacity)](_ => 0);
    var c := CompressHC(text, hash, dst, capacity, cLevel, 0, 0);
    if c == 0 {
      return false, 0;
    }
    assert SafeDecode(dst[..c], [], 0, out.Length) == Some(text);
    n := Block.DecompressSafe(dst[..c], beyond, out, out.Length);
    produced := true;
  }
}
