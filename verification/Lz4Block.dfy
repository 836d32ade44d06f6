/** The one-shot functions: LZ4_compress_fast, LZ4_compress_destSize, LZ4_decompress_safe, and their round trips. */
module Lz4Block {
  import opened Bytes
  import opened Lz4Format
  import opened Lz4RoundTrip
  import opened Lz4Emit
  import opened Lz4Match
  import opened Lz4Fast
  import opened Lz4DestSize
  import Decoder = Lz4Decoder

  /** LZ4_COMPRESSBOUND. */
  function CompressBound(n: nat): nat {
    if n > MAX_INPUT_SIZE then 0 else Bound(n)
  }

  /** A context after LZ4_resetStream: the same memory serves as 4096 32-bit or 8192 16-bit entries. */
  method FreshTable(byU16: bool) returns (table: array<nat>)
    ensures fresh(table) && table.Length == if byU16 then 8192 else 4096
    ensures forall h :: 0 <= h < table.Length ==> table[h] == 0
  {
    table := new nat[if byU16 then 8192 else 4096](_ => 0);
  }

  /** Inputs of at most GUARDED_SIZE bytes, and those of which the limit holds all but one byte and that are not longer
      than the largest block of a frame: the guards keep every write below the limit. */
  predicate LimitKept(n: nat, maxOutputSize: nat) {
    n <= GUARDED_SIZE || SavesItsLength(n, maxOutputSize)
  }

  /** How far an output with this limit may be written: up to the limit if the guards keep it, else as far as what they
      let pass, or as the worst case. */
  function WriteEnd(n: nat, history: bool, maxOutputSize: nat): nat {
    var end := maxOutputSize + Spill(n, history, maxOutputSize);
    if maxOutputSize >= CompressBound(n) then maxOutputSize
    else if end <= CompressBound(n) then end
    else CompressBound(n)
  }

  lemma WriteEndFacts(n: nat, history: bool, maxOutputSize: nat)
    ensures maxOutputSize <= WriteEnd(n, history, maxOutputSize)
    ensures maxOutputSize >= CompressBound(n) ==> WriteEnd(n, history, maxOutputSize) == maxOutputSize
    ensures LimitKept(n, maxOutputSize) && !history ==> WriteEnd(n, history, maxOutputSize) == maxOutputSize
    ensures n <= MAX_INPUT_SIZE ==>
              || Bound(n) <= WriteEnd(n, history, maxOutputSize)
              || maxOutputSize + Spill(n, history, maxOutputSize) <= WriteEnd(n, history, maxOutputSize)
  {
    hide Bound;
    BoundAbove(n);
  }

  /** A larger input, that starts with the longest run whose match length the guard lets pass though it is too long. */
  predicate LimitBroken(text: seq<byte>, maxOutputSize: nat, hash: nat -> nat) {
    && |text| <= MAX_INPUT_SIZE && Overlarge(text, 0, false) && maxOutputSize == SpillLimit(false)
    && hash(0) % 4096 == hash(1) % 4096
  }

  lemma BrokenFacts(text: seq<byte>, maxOutputSize: nat, hash: nat -> nat)
    ensures LimitBroken(text, maxOutputSize, hash) ==>
              && |text| <= MAX_INPUT_SIZE && LIMIT_64K <= |text| && maxOutputSize < CompressBound(|text|)
              && maxOutputSize < WriteEnd(|text|, false, maxOutputSize)
              && Overruns(Source(text, 0, 0, 0, false, false, hash), 4096, true, maxOutputSize)
  {
    hide Overlong;
  }

  /** What LZ4_compress_generic is given for a text without history, and the size of the table. */
  function Input(text: seq<byte>, hash: nat -> nat): Source {
    Source(text, 0, 0, 0, |text| < LIMIT_64K, false, hash)
  }

  function Slots(text: seq<byte>): nat {
    if |text| < LIMIT_64K then 8192 else 4096
  }

  function Accelerated(acceleration: int): nat {
    if acceleration < 1 then 1 else acceleration
  }

  /** A text that repeats its first `d` bytes, which repeat nothing. With acceleration 1 it is enough that they are at
      most 65, and that the slot of the first position is not taken before the repetition. */
  lemma SmallPeriod(text: seq<byte>, d: nat, hash: nat -> nat)
    requires 1 <= d <= 65 && d + MFLIMIT < |text|
    requires Repeats(text, d, |text|, d)
    requires forall ip: nat, m: nat :: ip < d ==> !RealMatch(text, ip, m, MINMATCH)
    requires hash(d) % Slots(text) == hash(0) % Slots(text)
    requires forall j :: 0 < j < d ==> hash(j) % Slots(text) != hash(0) % Slots(text)
    ensures Repeating(Input(text, hash), Slots(text), 1, d - 1) && Probe(1, 1, d - 1) == d
  {
    hide Probe, RealMatch, Repeats, Slots;
    assert Slots(text) > 0 by { SlotsPositive(text); }
    NoneLeftOut(1, d - 1);
    NextStep(d);
    forall j: nat | j < d - 1
      ensures hash(Probe(1, 1, j)) % Slots(text) != hash(0) % Slots(text)
    {
      NoneLeftOut(1, j);
    }
  }

  /** Sixteen letters over and over. */
  function Letters(n: nat): seq<byte> {
    seq(n, i requires 0 <= i < n => 97 + i % 16)
  }

  /** A kilobyte of them takes thirty bytes, and even a limit of one byte less than the input lets it pass. */
  lemma KnownRepetition(hash: nat -> nat)
    requires hash(16) == hash(0) && forall j :: 0 < j < 16 ==> hash(j) % 8192 != hash(0) % 8192
    ensures Repeating(Input(Letters(1024), hash), Slots(Letters(1024)), 1, 15) && Probe(1, 1, 15) == 16
    ensures RepeatedSize(1024, 16) == 30 && RepeatedFits(1024, 16, 1023)
  {
    hide Repeating, Probe;
    var text := Letters(1024);
    forall ip: nat, m: nat | ip < 16
      ensures !RealMatch(text, ip, m, MINMATCH)
    {
      if m < ip {
        assert text[ip] != text[ip - (ip - m)];
      }
    }
    SmallPeriod(text, 16, hash);
  }

  lemma SlotsPositive(text: seq<byte>)
    ensures Slots(text) > 0
  {
  }

  lemma NextStep(d: nat)
    requires 1 <= d <= 65
    ensures Probe(1, 1, d) == d + 1
  {
    hide Probe;
    NoneLeftOut(1, d);
  }

  /** LZ4_compress_fast_extState. Nothing is written from WriteEnd on, which is the limit where the guards keep it; the
      last clause shows a write beyond the limit. What has no match within reach does not get smaller; what repeats its
      first part becomes one match. */
  method CompressFast(text: seq<byte>, dst: array<byte>, maxOutputSize: nat, acceleration: int, hash: nat -> nat)
    returns (n: nat)
    requires WriteEnd(|text|, false, maxOutputSize) <= dst.Length && acceleration <= 65536
    modifies dst
    ensures n == 0 ==> |text| > MAX_INPUT_SIZE || maxOutputSize < CompressBound(|text|)
    ensures n > 0 ==> n <= maxOutputSize && n <= CompressBound(|text|) && DecodesTo(dst[..n], [], text)
    ensures maxOutputSize <= WriteEnd(|text|, false, maxOutputSize)
    ensures forall k :: WriteEnd(|text|, false, maxOutputSize) <= k < dst.Length ==> dst[k] == old(dst[k])
    ensures Matchless(text) && maxOutputSize <= |text| ==> n == 0
    ensures |text| <= MAX_INPUT_SIZE ==>
              forall k: nat :: Repeating(Input(text, hash), Slots(text), Accelerated(acceleration), k) ==>
                var d := Probe(1, Accelerated(acceleration), k);
                && d + MFLIMIT < |text|
                && n == if maxOutputSize < CompressBound(|text|) && !RepeatedFits(|text|, d, maxOutputSize) then 0
                        else RepeatedSize(|text|, d)
    ensures LimitBroken(text, maxOutputSize, hash) ==>
              n == 0 && maxOutputSize < WriteEnd(|text|, false, maxOutputSize) && dst[maxOutputSize] == 255
  {
    hide Bound, DecodesTo, Has, Overruns, LimitBroken, CompressBound, Matchless, WriteEnd, Spill,
         Repeating, Probe, RepeatedFits, RepeatedSize;
    BrokenFacts(text, maxOutputSize, hash);
    WriteEndFacts(|text|, false, maxOutputSize);
    BoundAbove(|text|);
    if |text| > MAX_INPUT_SIZE {
      return 0;
    }
    var c := Input(text, hash);
    var table := FreshTable(c.byU16);
    var limited := maxOutputSize < CompressBound(|text|);
    ghost var lim := WriteEnd(|text|, false, maxOutputSize);
    n := CompressGeneric(c, table, dst, Accelerated(acceleration), limited, maxOutputSize, lim);
    assert c.text[..c.start] == [];
  }

  lemma BoundAbove(n: nat)
    ensures if n <= MAX_INPUT_SIZE then n < CompressBound(n) == Bound(n) else CompressBound(n) == 0
  {
  }

  /** For every size above GUARDED_SIZE there is an input of that size, and a limit, such that LZ4_compress_fast fails
      but has written beyond the limit, whatever the acceleration and the hash of the bytes. */
  method BeyondTheLimit(n: nat, acceleration: int, hash: nat -> nat) returns (dst: array<byte>, c: nat)
    requires GUARDED_SIZE < n <= MAX_INPUT_SIZE && acceleration <= 65536 && hash(0) == hash(1)
    ensures fresh(dst) && c == 0 && SpillLimit(false) < dst.Length && dst[SpillLimit(false)] != 0
  {
    hide Bound, Overlong, WriteEnd;
    var text, limit := Overlong(n, Lead(false)), SpillLimit(false);
    assert text[0..] == text;
    BrokenFacts(text, limit, hash);
    dst := new byte[WriteEnd(n, false, limit)](_ => 0);
    c := CompressFast(text, dst, limit, acceleration, hash);
  }

  lemma RepetitionsInside(text: seq<byte>, hash: nat -> nat, target: nat)
    ensures Slots(text) > 0
    ensures forall k: nat :: Repeating(Input(text, hash), Slots(text), 1, k) ==>
              && 0 < Probe(1, 1, k) < |text| - MFLIMIT
              && (RepeatedReaches(|text|, Probe(1, 1, k), target) ==>
                    Reaches(Input(text, hash), Slots(text), k, target))
  {
    hide Repeating, Probe, RepeatedReaches;
    forall k: nat | Repeating(Input(text, hash), Slots(text), 1, k)
      ensures 0 < Probe(1, 1, k) < |text| - MFLIMIT
    {
      RepetitionLength(Input(text, hash), Slots(text), 1, k);
    }
  }

  /** LZ4_compress_destSize: `consumed` replaces the input size, and is as much as fits. */
  method CompressDestSize(text: seq<byte>, dst: array<byte>, target: nat, hash: nat -> nat)
    returns (n: nat, consumed: nat)
    requires target <= dst.Length
    modifies dst
    ensures n == 0 ==> target == 0 || |text| > MAX_INPUT_SIZE
    ensures n > 0 ==> n <= target && consumed <= |text| && DecodesTo(dst[..n], [], text[..consumed])
    ensures n > 0 && target >= CompressBound(|text|) ==> consumed == |text|
    ensures n > 0 && consumed < |text| ==> target <= n + 1 + target / 65025
    ensures |text| <= MAX_INPUT_SIZE ==>
              forall k: nat :: Repeating(Input(text, hash), Slots(text), 1, k) ==>
                var d := Probe(1, 1, k);
                && d + MFLIMIT < |text|
                && (RepeatedReaches(|text|, d, target) ==> n == RepeatedSize(|text|, d) && consumed == |text|)
    ensures forall k :: target <= k < dst.Length ==> dst[k] == old(dst[k])
  {
    hide Bound, DecodesTo, Has, Repeating, Probe, RepeatedFits, RepeatedSize, RepeatedReaches, CompressBound, WriteEnd;
    BoundAbove(|text|);
    if target >= CompressBound(|text|) {
      WriteEndFacts(|text|, false, target);
      n := CompressFast(text, dst, target, 1, hash);
      assert text[..|text|] == text && Accelerated(1) == 1;
      return n, |text|;
    }
    var c := Input(text, hash);
    var table := FreshTable(c.byU16);
    RepetitionsInside(text, hash, target);
    n, consumed := CompressDestSizeGeneric(c, table, dst, target);
    assert c.text[..c.start] == [];
  }

  /** LZ4_decompress_safe. */
  method DecompressSafe(src: seq<byte>, beyond: nat -> byte, dst: array<byte>, cap: nat) returns (n: int)
    requires cap <= dst.Length
    modifies dst
    ensures var r := SafeDecode(src, [], 0, cap); if r.Some? then n == |r.value| && dst[..n] == r.value else n < 0
    ensures forall k :: cap <= k < dst.Length ==> dst[k] == old(dst[k])
  {
    hide SafeDecode;
    assert Decoder.Out([], dst, 0, 0) == [];
    n := Decoder.DecompressGeneric(src, beyond, [], dst, 0, 0, cap);
    if n >= 0 {
      assert Decoder.Out([], dst, 0, n) == dst[..n];
    }
  }

  /** Whatever the hash, the acceleration and the output limit, a block that was produced decompresses to the input. */
  method FastRoundTrip(text: seq<byte>, maxOutputSize: nat, acceleration: int, hash: nat -> nat, beyond: nat -> byte,
                       out: array<byte>) returns (produced: bool, n: int)
    requires acceleration <= 65536 && |text| <= out.Length
    modifies out
    ensures maxOutputSize >= CompressBound(|text|) && |text| <= MAX_INPUT_SIZE ==> produced
    ensures produced ==> n == |text| && out[..n] == text
  {
    hide Bound, SafeDecode, LimitBroken;
    var dst := new byte[WriteEnd(|text|, false, maxOutputSize)](_ => 0);
    var c := CompressFast(text, dst, maxOutputSize, acceleration, hash);
    if c == 0 {
      return false, 0;
    }
    assert SafeDecode(dst[..c], [], 0, out.Length) == Some(text);
    n := DecompressSafe(dst[..c], beyond, out, out.Length);
    produced := true;
  }

  /** What LZ4_compress_destSize consumed is what comes back. */
  method DestSizeRoundTrip(text: seq<byte>, target: nat, hash: nat -> nat, beyond: nat -> byte, out: array<byte>)
    returns (consumed: nat, n: int)
    requires 0 < target && |text| <= MAX_INPUT_SIZE && |text| <= out.Length
    modifies out
    ensures consumed <= |text| && n == consumed && out[..n] == text[..consumed]
  {
    hide Bound, SafeDecode;
    var dst := new byte[target](_ => 0);
    var c;
    c, consumed := CompressDestSize(text, dst, target, hash);
    assert SafeDecode(dst[..c], [], 0, out.Length) == Some(text[..consumed]);
    n := DecompressSafe(dst[..c], beyond, out, out.Length);
  }
}
