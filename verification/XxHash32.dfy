/** XXH32: the one-shot function and the streaming state, both against one specification of the hash. */
module XxHash32 {
  import opened Bytes
  import opened Sequences

  const PRIME1: bv32 := 2654435761
  const PRIME2: bv32 := 2246822519
  const PRIME3: bv32 := 3266489917
  const PRIME4: bv32 := 668265263
  const PRIME5: bv32 := 374761393

  const STRIPE := 16
  const WRAP := 0x1_0000_0000

  // ---------- the hash, as a function of all the data ----------

  /** A little-endian word. */
  function Read32(s: seq<byte>, p: nat): bv32
    requires p + 4 <= |s|
  {
    (s[p] as bv32) | ((s[p + 1] as bv32) << 8) | ((s[p + 2] as bv32) << 16) | ((s[p + 3] as bv32) << 24)
  }

  function Round(acc: bv32, input: bv32): bv32 {
    (acc + input * PRIME2).RotateLeft(13) * PRIME1
  }

  datatype Accs = Accs(v1: bv32, v2: bv32, v3: bv32, v4: bv32)

  function InitAccs(seed: bv32): Accs {
    Accs(seed + PRIME1 + PRIME2, seed + PRIME2, seed + 0, seed - PRIME1)
  }

  /** One stripe of sixteen bytes. */
  function AddStripe(a: Accs, s: seq<byte>): Accs
    requires |s| == STRIPE
  {
    Accs(Round(a.v1, Read32(s, 0)), Round(a.v2, Read32(s, 4)), Round(a.v3, Read32(s, 8)), Round(a.v4, Read32(s, 12)))
  }

  /** The first `n` stripes. */
  function Stripes(a: Accs, s: seq<byte>, n: nat): Accs
    requires STRIPE * n <= |s|
  {
    if n == 0 then a else AddStripe(Stripes(a, s, n - 1), s[STRIPE * (n - 1)..STRIPE * n])
  }

  function Converge(a: Accs): bv32 {
    a.v1.RotateLeft(1) + a.v2.RotateLeft(7) + a.v3.RotateLeft(12) + a.v4.RotateLeft(18)
  }

  function MixWord(h: bv32, s: seq<byte>, p: nat): bv32
    requires p + 4 <= |s|
  {
    (h + Read32(s, p) * PRIME3).RotateLeft(17) * PRIME4
  }

  function MixByte(h: bv32, b: byte): bv32 {
    (h + (b as bv32) * PRIME5).RotateLeft(11) * PRIME1
  }

  /** What follows the last stripe: words, then bytes. */
  function Tail(h: bv32, s: seq<byte>, p: nat): bv32
    requires p <= |s|
    decreases |s| - p
  {
    if p + 4 <= |s| then Tail(MixWord(h, s, p), s, p + 4)
    else if p < |s| then Tail(MixByte(h, s[p]), s, p + 1)
    else h
  }

  function Avalanche(h: bv32): bv32 {
    var h := (h ^ (h >> 15)) * PRIME2;
    var h := (h ^ (h >> 13)) * PRIME3;
    h ^ (h >> 16)
  }

  function Start(a: Accs, seed: bv32, large: bool): bv32 {
    if large then Converge(a) else seed + PRIME5
  }

  function Finish(h: bv32, len: u32, s: seq<byte>): bv32 {
    Avalanche(Tail(h + (len as bv32), s, 0))
  }

  /** XXH32 of all the data. */
  function Hash(s: seq<byte>, seed: bv32): bv32 {
    var n := |s| / STRIPE;
    Finish(Start(Stripes(InitAccs(seed), s, n), seed, |s| >= STRIPE), Wrap(|s|), s[STRIPE * n..])
  }

  lemma {:induction false} StripesPrefix(a: Accs, s: seq<byte>, t: seq<byte>, n: nat)
    requires STRIPE * n <= |s| <= |t| && s[..STRIPE * n] == t[..STRIPE * n]
    ensures Stripes(a, s, n) == Stripes(a, t, n)
  {
    hide AddStripe;
    if n > 0 {
      var x, y := s[..STRIPE * n], t[..STRIPE * n];
      assert s[..STRIPE * (n - 1)] == x[..STRIPE * (n - 1)] == t[..STRIPE * (n - 1)];
      assert s[STRIPE * (n - 1)..STRIPE * n] == x[STRIPE * (n - 1)..] == t[STRIPE * (n - 1)..STRIPE * n];
      StripesPrefix(a, s, t, n - 1);
    }
  }

  lemma NextStripe(a: Accs, s: seq<byte>, n: nat)
    requires STRIPE * (n + 1) <= |s|
    ensures Stripes(a, s, n + 1) == AddStripe(Stripes(a, s, n), s[STRIPE * n..STRIPE * (n + 1)])
  {
  }

  lemma MoreInput(a: Accs, s: seq<byte>, input: seq<byte>, n: nat)
    requires STRIPE * n <= |s|
    ensures Stripes(a, s + input, n) == Stripes(a, s, n)
    ensures (s + input)[STRIPE * n..] == s[STRIPE * n..] + input && (s + input)[|s|..] == input
  {
    hide Stripes;
    StripesPrefix(a, s, s + input, n);
  }

  lemma SliceOf(s: seq<byte>, o: nat, p: nat, q: nat)
    requires p <= q && o + q <= |s|
    ensures s[o..][p..q] == s[o + p..o + q]
  {
  }

  function Wrap(n: nat): u32 { n % WRAP }

  lemma WrapAdd(a: nat, b: nat)
    ensures Wrap(Wrap(a) + Wrap(b)) == Wrap(a + b)
    ensures a < STRIPE && b < STRIPE ==> Wrap(a) == a && Wrap(a + b) == a + b
    ensures a < STRIPE ==> Wrap(a) == a
  {
    var q := a / WRAP + b / WRAP;
    assert a + b == WRAP * q + (a % WRAP + b % WRAP);
  }

  // ---------- known answers ----------

  lemma KnownWords0(s: seq<byte>, p: nat)
    requires p + 4 <= |s|
    ensures s[p..p + 4] == Counting(0, 4) ==> Read32(s, p) == 0x03020100
    ensures s[p..p + 4] == Counting(4, 8) ==> Read32(s, p) == 0x07060504
    ensures s[p..p + 4] == Counting(8, 12) ==> Read32(s, p) == 0x0b0a0908
    ensures s[p..p + 4] == Counting(12, 16) ==> Read32(s, p) == 0x0f0e0d0c
  {
    var b := s[p..p + 4];
    assert b[0] == s[p] && b[1] == s[p + 1] && b[2] == s[p + 2] && b[3] == s[p + 3];
  }

  lemma KnownWords16(s: seq<byte>, p: nat)
    requires p + 4 <= |s|
    ensures s[p..p + 4] == Counting(16, 20) ==> Read32(s, p) == 0x13121110
    ensures s[p..p + 4] == Counting(20, 24) ==> Read32(s, p) == 0x17161514
    ensures s[p..p + 4] == Counting(24, 28) ==> Read32(s, p) == 0x1b1a1918
    ensures s[p..p + 4] == Counting(28, 32) ==> Read32(s, p) == 0x1f1e1d1c
  {
    var b := s[p..p + 4];
    assert b[0] == s[p] && b[1] == s[p + 1] && b[2] == s[p + 2] && b[3] == s[p + 3];
  }

  lemma KnownStripe(s: seq<byte>)
    requires s == Counting(0, 16)
    ensures AddStripe(InitAccs(0), s) == Accs(0xf817bccb, 0x0222719b, 0xd4b0c0a4, 0xdebb7574)
    ensures AddStripe(InitAccs(1), s) == Accs(0xe74ddccb, 0xf158919b, 0xc3e6e0a4, 0xcdf19574)
  {
    hide Read32;
    KnownWords0(s, 0);
    KnownWords0(s, 4);
    KnownWords0(s, 8);
    KnownWords0(s, 12);
    assert s[0..4] == Counting(0, 4) && s[4..8] == Counting(4, 8);
    assert s[8..12] == Counting(8, 12) && s[12..16] == Counting(12, 16);
  }

  lemma KnownStripe16(s: seq<byte>)
    requires s == Counting(16, 32)
    ensures AddStripe(Accs(0xe74ddccb, 0xf158919b, 0xc3e6e0a4, 0xcdf19574), s) ==
      Accs(0xd8fa1f8b, 0xf68c26e3, 0xa58f124b, 0xc32119a3)
  {
    hide Read32;
    KnownWords16(s, 0);
    KnownWords16(s, 4);
    KnownWords16(s, 8);
    KnownWords16(s, 12);
    assert s[0..4] == Counting(16, 20) && s[4..8] == Counting(20, 24);
    assert s[8..12] == Counting(24, 28) && s[12..16] == Counting(28, 32);
  }

  lemma KnownConverge()
    ensures Converge(Accs(0xf817bccb, 0x0222719b, 0xd4b0c0a4, 0xdebb7574)) == 0xe3460f50
    ensures Converge(Accs(0xd8fa1f8b, 0xf68c26e3, 0xa58f124b, 0xc32119a3)) == 0x4fbb77ee
  {
  }

  lemma KnownWord(s: seq<byte>)
    requires s == Counting(16, 23)
    ensures MixWord(0xe3460f67, s, 0) == 0xc52b3446
  {
    hide Read32;
    KnownWords16(s, 0);
    assert s[0..4] == Counting(16, 20);
  }

  lemma KnownBytes()
    ensures MixByte(0xc52b3446, 20) == 0x90ee506f
    ensures MixByte(0x90ee506f, 21) == 0x3cc18430
    ensures MixByte(0x3cc18430, 22) == 0x2a5bc6f1
    ensures MixByte(0x165667b4, 97) == 0xdca1dbe8
    ensures MixByte(0xdca1dbe8, 98) == 0x4f80fd3d
    ensures MixByte(0x4f80fd3d, 99) == 0x760a1e67
    ensures MixByte(0x165667b3, 0x60) == 0x45373525
    ensures MixByte(0x45373525, 0x40) == 0x2dd887f6
  {
    assert 20 as bv32 == 20 && 21 as bv32 == 21 && 22 as bv32 == 22;
    assert 97 as bv32 == 97 && 98 as bv32 == 98 && 99 as bv32 == 99;
    assert 0x60 as bv32 == 0x60 && 0x40 as bv32 == 0x40;
  }

  /** A word and three bytes. */
  lemma KnownTail(s: seq<byte>)
    requires s == Counting(16, 23)
    ensures Tail(0xe3460f67, s, 0) == 0x2a5bc6f1
  {
    hide MixWord, MixByte;
    KnownWord(s);
    KnownBytes();
    assert Tail(0xc52b3446, s, 4) == Tail(0x90ee506f, s, 5) == Tail(0x3cc18430, s, 6) == Tail(0x2a5bc6f1, s, 7);
  }

  lemma KnownTail2()
    ensures Tail(0x165667b3, [0x60, 0x40], 0) == 0x2dd887f6
  {
    hide MixWord, MixByte;
    KnownBytes();
    var s := [0x60, 0x40];
    assert Tail(0x165667b3, s, 0) == Tail(0x45373525, s, 1) == Tail(0x2dd887f6, s, 2);
  }

  lemma KnownTail3()
    ensures Tail(0x165667b4, [97, 98, 99], 0) == 0x760a1e67
  {
    hide MixWord, MixByte;
    KnownBytes();
    var s := [97, 98, 99];
    assert Tail(0x165667b4, s, 0) == Tail(0xdca1dbe8, s, 1) == Tail(0x4f80fd3d, s, 2) == Tail(0x760a1e67, s, 3);
  }

  lemma KnownAvalanche()
    ensures Avalanche(PRIME5 + 1) == 0x0b2cb792
    ensures Avalanche(PRIME5) == 0x02cc5d05
    ensures Avalanche(0x760a1e67) == 0x32d153ff
    ensures Avalanche(0x2a5bc6f1) == 0xc8461e09
    ensures Avalanche(0x2dd887f6) == 0x301a8268
    ensures Avalanche(0x4fbb780e) == 0x3271c4ab
  {
  }

  lemma HashOfNothing()
    ensures Hash([], 0) == 0x02cc5d05
    ensures Hash([], 1) == 0x0b2cb792
  {
    hide Stripes, Avalanche;
    KnownAvalanche();
  }

  /** The letters a, b and c. */
  lemma HashOfThree()
    ensures Hash([97, 98, 99], 0) == 0x32d153ff
  {
    hide Stripes, Avalanche, Tail;
    assert [97, 98, 99][0..] == [97, 98, 99] && (3 as u32) as bv32 == 3;
    KnownTail3();
    KnownAvalanche();
  }

  /** Two bytes that can be the descriptor of a frame. */
  lemma HashOfTwo()
    ensures Hash([0x60, 0x40], 0) == 0x301a8268
  {
    hide Stripes, Avalanche, Tail;
    assert [0x60, 0x40][0..] == [0x60, 0x40] && (2 as u32) as bv32 == 2;
    KnownTail2();
    KnownAvalanche();
  }

  /** A stripe, a word and three bytes. */
  lemma HashOf23()
    ensures Hash(Counting(0, 23), 0) == 0xc8461e09
  {
    hide AddStripe, Converge, Tail, Avalanche, InitAccs;
    var s := Counting(0, 23);
    assert s[0..16] == Counting(0, 16) && s[16..] == Counting(16, 23);
    KnownStripe(s[0..16]);
    assert Stripes(InitAccs(0), s, 1) == AddStripe(InitAccs(0), s[0..16]);
    KnownConverge();
    KnownTail(s[16..]);
    KnownAvalanche();
    assert (23 as u32) as bv32 == 23;
  }

  /** Two stripes, and a seed. */
  lemma HashOf32()
    ensures Hash(Counting(0, 32), 1) == 0x3271c4ab
  {
    hide AddStripe, Converge, MixWord, MixByte, Avalanche, InitAccs;
    var s := Counting(0, 32);
    assert s[0..16] == Counting(0, 16) && s[16..32] == Counting(16, 32);
    KnownStripe(s[0..16]);
    KnownStripe16(s[16..32]);
    assert Stripes(InitAccs(1), s, 1) == AddStripe(InitAccs(1), s[0..16]);
    assert Stripes(InitAccs(1), s, 2) == AddStripe(Stripes(InitAccs(1), s, 1), s[16..32]);
    KnownConverge();
    KnownAvalanche();
    assert (32 as u32) as bv32 == 32;
  }

  // ---------- the code ----------

  /** The loops over what does not fill a stripe, and the final mix. */
  method Finalize(h0: bv32, len: u32, s: seq<byte>) returns (h: bv32)
    ensures h == Finish(h0, len, s)
  {
    hide MixWord, MixByte, Avalanche;
    h := h0 + (len as bv32);
    ghost var goal := Tail(h, s, 0);
    var p := 0;
    while p + 4 <= |s|
      invariant p <= |s| && Tail(h, s, p) == goal
    {
      h := MixWord(h, s, p);
      p := p + 4;
    }
    while p < |s|
      invariant p <= |s| && |s| < p + 4 && Tail(h, s, p) == goal
    {
      h := MixByte(h, s[p]);
      p := p + 1;
    }
    h := Avalanche(h);
  }

  /** XXH32_endian_align: all the data at once. */
  method OneShot(s: seq<byte>, seed: bv32) returns (h: bv32)
    ensures h == Hash(s, seed)
  {
    hide AddStripe, Finish, Converge, InitAccs;
    var p, a := 0, InitAccs(seed);
    if |s| >= STRIPE {
      ghost var n := 0;
      while true
        invariant p == STRIPE * n <= |s| - STRIPE && a == Stripes(InitAccs(seed), s, n)
        decreases |s| - p
      {
        NextStripe(InitAccs(seed), s, n);
        a := AddStripe(a, s[p..p + STRIPE]);
        p := p + STRIPE;
        n := n + 1;
        if p > |s| - STRIPE {
          break;
        }
      }
      assert n == |s| / STRIPE;
      h := Converge(a);
    } else {
      h := seed + PRIME5;
    }
    h := Finalize(h, Wrap(|s|), s[p..]);
  }

  /** XXH32_state_t. */
  class State {
    var totalLen32: u32
    var largeLen: bool
    var accs: Accs
    const mem: array<byte>
    var memsize: nat
    ghost var seed: bv32
    /** All bytes since the last reset. */
    ghost var data: seq<byte>
    ghost var n: nat

    /** The first `n` stripes went into the accumulators; the rest is in the buffer. */
    ghost predicate Valid()
      reads this, mem
    {
      && mem.Length == STRIPE && memsize < STRIPE
      && |data| == STRIPE * n + memsize
      && accs == Stripes(InitAccs(seed), data, n)
      && mem[..memsize] == data[STRIPE * n..]
      && totalLen32 == Wrap(|data|)
      && (largeLen <==> |data| >= STRIPE)
    }

    constructor (seed: bv32)
      ensures Valid() && data == [] && this.seed == seed && fresh(mem)
    {
      mem := new byte[STRIPE](_ => 0);
      totalLen32, largeLen, accs, memsize := 0, false, InitAccs(seed), 0;
      this.seed, data, n := seed, [], 0;
    }

    /** XXH32_reset. */
    method Reset(seed: bv32)
      requires mem.Length == STRIPE
      modifies this
      ensures Valid() && data == [] && this.seed == seed
    {
      totalLen32, largeLen, accs, memsize := 0, false, InitAccs(seed), 0;
      this.seed, data, n := seed, [], 0;
    }

    /** The total length, modulo 2^32, and the flag that stays once sixteen bytes have been seen. */
    method Count(len: nat)
      requires totalLen32 == Wrap(|data|) && (largeLen <==> |data| >= STRIPE)
      modifies this`totalLen32, this`largeLen
      ensures totalLen32 == Wrap(|data| + len) && (largeLen <==> |data| + len >= STRIPE)
    {
      hide Wrap;
      WrapAdd(|data|, len);
      totalLen32 := Wrap(totalLen32 + Wrap(len));
      largeLen := largeLen || len >= STRIPE || totalLen32 >= STRIPE;
    }

    /** Input after what the buffer holds. */
    method Store(from: seq<byte>)
      requires mem.Length == STRIPE && memsize + |from| <= STRIPE
      modifies mem
      ensures mem[..memsize + |from|] == old(mem[..memsize]) + from
    {
      forall i | 0 <= i < |from| {
        mem[memsize + i] := from[i];
      }
    }

    /** What does not fill a stripe. */
    method Keep(input: seq<byte>, p: nat)
      requires p <= |input| < p + STRIPE && mem.Length == STRIPE && memsize == 0
      modifies mem, this`memsize
      ensures memsize == |input| - p && mem[..memsize] == input[p..]
    {
      if p < |input| {
        Store(input[p..]);
        memsize := |input| - p;
      }
    }

    /** XXH32_update: however the data is cut, what was given so far is all that matters. */
    method Update(input: seq<byte>)
      requires Valid()
      modifies this, mem
      ensures Valid() && data == old(data) + input && seed == old(seed)
    {
      hide AddStripe, Stripes, InitAccs, Wrap;
      Count(|input|);
      ghost var before := data;
      data := before + input;
      MoreInput(InitAccs(seed), before, input, n);
      if memsize + |input| < STRIPE {
        Store(input);
        memsize := memsize + |input|;
        assert mem[..memsize] == data[STRIPE * n..];
      } else {
        Absorb(input);
      }
    }

    /** Input that completes a stripe. */
    method Absorb(input: seq<byte>)
      requires mem.Length == STRIPE && memsize < STRIPE <= memsize + |input| && |input| <= |data|
      requires STRIPE * n <= |data| && data[STRIPE * n..] == mem[..memsize] + input && data[|data| - |input|..] == input
      requires accs == Stripes(InitAccs(seed), data, n)
      modifies this`accs, this`memsize, this`n, mem
      ensures memsize < STRIPE && |data| == STRIPE * n + memsize && accs == Stripes(InitAccs(seed), data, n)
      ensures mem[..memsize] == data[STRIPE * n..]
    {
      hide Stripes, InitAccs;
      var p := CompleteStripe(input);
      p := WholeStripes(input, p);
      Keep(input, p);
    }

    /** The stripe that the last update left incomplete. */
    method CompleteStripe(input: seq<byte>) returns (p: nat)
      requires mem.Length == STRIPE && memsize < STRIPE <= memsize + |input|
      requires STRIPE * n <= |data| && data[STRIPE * n..] == mem[..memsize] + input
      requires accs == Stripes(InitAccs(seed), data, n)
      modifies this`accs, this`memsize, this`n, mem
      ensures memsize == 0
      ensures p <= |input| && |data| - |input| + p == STRIPE * n && accs == Stripes(InitAccs(seed), data, n)
    {
      hide AddStripe, Stripes, InitAccs;
      p := 0;
      if memsize > 0 {
        p := STRIPE - memsize;
        Store(input[..p]);
        assert mem[..] == mem[..STRIPE] == data[STRIPE * n..][..STRIPE] == data[STRIPE * n..STRIPE * (n + 1)];
        NextStripe(InitAccs(seed), data, n);
        accs := AddStripe(accs, mem[..]);
        memsize, n := 0, n + 1;
      }
    }

    /** The stripes that lie wholly in the input. */
    method WholeStripes(input: seq<byte>, p0: nat) returns (p: nat)
      requires p0 <= |input| <= |data| && data[|data| - |input|..] == input
      requires |data| - |input| + p0 == STRIPE * n && accs == Stripes(InitAccs(seed), data, n)
      modifies this`accs, this`n
      ensures p <= |input| < p + STRIPE
      ensures |data| - |input| + p == STRIPE * n && accs == Stripes(InitAccs(seed), data, n)
      ensures data[STRIPE * n..] == input[p..]
    {
      hide AddStripe, Stripes, InitAccs;
      p := p0;
      ghost var o := |data| - |input|;
      var a := accs;
      while p + STRIPE <= |input|
        invariant p <= |input| && o + p == STRIPE * n && a == Stripes(InitAccs(seed), data, n)
      {
        NextStripe(InitAccs(seed), data, n);
        SliceOf(data, o, p, p + STRIPE);
        a := AddStripe(a, input[p..p + STRIPE]);
        p, n := p + STRIPE, n + 1;
      }
      accs := a;
      SliceOf(data, o, p, |input|);
    }

    /** XXH32_digest. */
    method Digest() returns (h: bv32)
      requires Valid()
      ensures h == Hash(data, seed)
    {
      hide AddStripe, Converge, Finish;
      assert n == |data| / STRIPE;
      h := if largeLen then Converge(accs) else accs.v3 + PRIME5;
      h := Finalize(h, totalLen32, mem[..memsize]);
    }
  }

  /** For every partition of the data into updates, the streamed hash is the one-shot hash. */
  method Streamed(state: State, parts: seq<seq<byte>>, seed: bv32) returns (streamed: bv32, oneShot: bv32)
    requires state.mem.Length == STRIPE
    modifies state, state.mem
    ensures streamed == oneShot == Hash(Concat(parts), seed)
  {
    hide *;
    state.Reset(seed);
    ConcatNone();
    for i := 0 to |parts|
      invariant state.Valid() && state.seed == seed && state.data == Concat(parts[..i])
    {
      ConcatMore(parts, i);
      state.Update(parts[i]);
    }
    assert parts[..|parts|] == parts;
    streamed := state.Digest();
    oneShot := OneShot(Concat(parts), seed);
  }
}
