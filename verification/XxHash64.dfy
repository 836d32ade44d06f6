/** XXH64: the one-shot function and the streaming state, both against one specification of the hash. */
module XxHash64 {
  import opened Bytes
  import opened Sequences

  const PRIME1: bv64 := 11400714785074694791
  const PRIME2: bv64 := 14029467366897019727
  const PRIME3: bv64 := 1609587929392839161
  const PRIME4: bv64 := 9650029242287828579
  const PRIME5: bv64 := 2870177450012600261

  const STRIPE := 32
  const WRAP := 0x1_0000_0000_0000_0000

  type u64 = x: int | 0 <= x < WRAP

  // ---------- the hash, as a function of all the data ----------

  /** A little-endian word of four bytes. */
  function Read32(s: seq<byte>, p: nat): bv64
    requires p + 4 <= |s|
  {
    (s[p] as bv64) | ((s[p + 1] as bv64) << 8) | ((s[p + 2] as bv64) << 16) | ((s[p + 3] as bv64) << 24)
  }

  /** A little-endian word of eight bytes. */
  function Read64(s: seq<byte>, p: nat): bv64
    requires p + 8 <= |s|
  {
    Read32(s, p) | (Read32(s, p + 4) << 32)
  }

  function Round(acc: bv64, input: bv64): bv64 {
    (acc + input * PRIME2).RotateLeft(31) * PRIME1
  }

  function MergeRound(acc: bv64, val: bv64): bv64 {
    (acc ^ Round(0, val)) * PRIME1 + PRIME4
  }

  datatype Accs = Accs(v1: bv64, v2: bv64, v3: bv64, v4: bv64)

  function InitAccs(seed: bv64): Accs {
    Accs(seed + PRIME1 + PRIME2, seed + PRIME2, seed + 0, seed - PRIME1)
  }

  /** One stripe of 32 bytes. */
  function AddStripe(a: Accs, s: seq<byte>): Accs
    requires |s| == STRIPE
  {
    Accs(Round(a.v1, Read64(s, 0)), Round(a.v2, Read64(s, 8)), Round(a.v3, Read64(s, 16)), Round(a.v4, Read64(s, 24)))
  }

  /** The first `n` stripes. */
  function Stripes(a: Accs, s: seq<byte>, n: nat): Accs
    requires STRIPE * n <= |s|
  {
    if n == 0 then a else AddStripe(Stripes(a, s, n - 1), s[STRIPE * (n - 1)..STRIPE * n])
  }

  function Converge(a: Accs): bv64 {
    var h := a.v1.RotateLeft(1) + a.v2.RotateLeft(7) + a.v3.RotateLeft(12) + a.v4.RotateLeft(18);
    MergeRound(MergeRound(MergeRound(MergeRound(h, a.v1), a.v2), a.v3), a.v4)
  }

  function MixLong(h: bv64, s: seq<byte>, p: nat): bv64
    requires p + 8 <= |s|
  {
    (h ^ Round(0, Read64(s, p))).RotateLeft(27) * PRIME1 + PRIME4
  }

  function MixWord(h: bv64, s: seq<byte>, p: nat): bv64
    requires p + 4 <= |s|
  {
    (h ^ (Read32(s, p) * PRIME1)).RotateLeft(23) * PRIME2 + PRIME3
  }

  function MixByte(h: bv64, b: byte): bv64 {
    (h ^ ((b as bv64) * PRIME5)).RotateLeft(11) * PRIME1
  }

  /** What follows the last stripe: words of eight bytes, then perhaps one of four, then bytes. */
  function Tail(h: bv64, s: seq<byte>, p: nat): bv64
    requires p <= |s|
    decreases |s| - p
  {
    if p + 8 <= |s| then Tail(MixLong(h, s, p), s, p + 8)
    else if p + 4 <= |s| then Tail(MixWord(h, s, p), s, p + 4)
    else if p < |s| then Tail(MixByte(h, s[p]), s, p + 1)
    else h
  }

  function Avalanche(h: bv64): bv64 {
    var h := (h ^ (h >> 33)) * PRIME2;
    var h := (h ^ (h >> 29)) * PRIME3;
    h ^ (h >> 32)
  }

  function Start(a: Accs, seed: bv64, large: bool): bv64 {
    if large then Converge(a) else seed + PRIME5
  }

  function Finish(h: bv64, len: u64, s: seq<byte>): bv64 {
    Avalanche(Tail(h + (len as bv64), s, 0))
  }

  /** XXH64 of all the data. */
  function Hash(s: seq<byte>, seed: bv64): bv64 {
    var n := |s| / STRIPE;
    Finish(Start(Stripes(InitAccs(seed), s, n), seed, |s| >= STRIPE), Wrap(|s|), s[STRIPE * n..])
  }

  lemma {:induction false} StripesPrefix(a: Accs, s: seq<byte>, t: seq<byte>, n: nat)
    requires STRIPE * n <= |s| <= |t| && s[..STRIPE * n] == t[..STRIPE * n]
    ensures Stripes(a, s, n) == Stripes(a, t, n)
  {
    hide AddStripe;
    if n > 0 {
      var x, y := s[..STRIPE * n], t[..STRIPE * n];
      assert s[..STRIPE * (n - 1)] == x[..STRIPE * (n - 1)] == t[..STRIPE * (n - 1)];
      assert s[STRIPE * (n - 1)..STRIPE * n] == x[STRIPE * (n - 1)..] == t[STRIPE * (n - 1)..STRIPE * n];
      StripesPrefix(a, s, t, n - 1);
    }
  }

  lemma NextStripe(a: Accs, s: seq<byte>, n: nat)
    requires STRIPE * (n + 1) <= |s|
    ensures Stripes(a, s, n + 1) == AddStripe(Stripes(a, s, n), s[STRIPE * n..STRIPE * (n + 1)])
  {
  }

  lemma MoreInput(a: Accs, s: seq<byte>, input: seq<byte>, n: nat)
    requires STRIPE * n <= |s|
    ensures Stripes(a, s + input, n) == Stripes(a, s, n)
    ensures (s + input)[STRIPE * n..] == s[STRIPE * n..] + input && (s + input)[|s|..] == input
  {
    hide Stripes;
    StripesPrefix(a, s, s + input, n);
  }

  lemma SliceOf(s: seq<byte>, o: nat, p: nat, q: nat)
    requires p <= q && o + q <= |s|
    ensures s[o..][p..q] == s[o + p..o + q]
  {
  }

  function Wrap(n: nat): u64 { n % WRAP }

  lemma WrapAdd(a: nat, b: nat)
    ensures Wrap(Wrap(a) + Wrap(b)) == Wrap(a + b)
  {
    var q := a / WRAP + b / WRAP;
    assert a + b == WRAP * q + (a % WRAP + b % WRAP);
  }

  // ---------- known answers ----------

  lemma KnownLongs0(s: seq<byte>, p: nat)
    requires p + 8 <= |s|
    ensures s[p..p + 8] == Counting(0, 8) ==> Read64(s, p) == 0x0706050403020100
    ensures s[p..p + 8] == Counting(8, 16) ==> Read64(s, p) == 0x0f0e0d0c0b0a0908
  {
    var b := s[p..p + 8];
    assert b[0] == s[p] && b[1] == s[p + 1] && b[2] == s[p + 2] && b[3] == s[p + 3];
    assert b[4] == s[p + 4] && b[5] == s[p + 5] && b[6] == s[p + 6] && b[7] == s[p + 7];
  }

  lemma KnownLongs16(s: seq<byte>, p: nat)
    requires p + 8 <= |s|
    ensures s[p..p + 8] == Counting(16, 24) ==> Read64(s, p) == 0x1716151413121110
    ensures s[p..p + 8] == Counting(24, 32) ==> Read64(s, p) == 0x1f1e1d1c1b1a1918
  {
    var b := s[p..p + 8];
    assert b[0] == s[p] && b[1] == s[p + 1] && b[2] == s[p + 2] && b[3] == s[p + 3];
    assert b[4] == s[p + 4] && b[5] == s[p + 5] && b[6] == s[p + 6] && b[7] == s[p + 7];
  }

  lemma KnownLongs32(s: seq<byte>, p: nat)
    requires p + 8 <= |s|
    ensures s[p..p + 8] == Counting(32, 40) ==> Read64(s, p) == 0x2726252423222120
    ensures s[p..p + 8] == Counting(40, 48) ==> Read64(s, p) == 0x2f2e2d2c2b2a2928
  {
    var b := s[p..p + 8];
    assert b[0] == s[p] && b[1] == s[p + 1] && b[2] == s[p + 2] && b[3] == s[p + 3];
    assert b[4] == s[p + 4] && b[5] == s[p + 5] && b[6] == s[p + 6] && b[7] == s[p + 7];
  }

  lemma KnownLongs48(s: seq<byte>, p: nat)
    requires p + 8 <= |s|
    ensures s[p..p + 8] == Counting(48, 56) ==> Read64(s, p) == 0x3736353433323130
    ensures s[p..p + 8] == Counting(56, 64) ==> Read64(s, p) == 0x3f3e3d3c3b3a3938
  {
    var b := s[p..p + 8];
    assert b[0] == s[p] && b[1] == s[p + 1] && b[2] == s[p + 2] && b[3] == s[p + 3];
    assert b[4] == s[p + 4] && b[5] == s[p + 5] && b[6] == s[p + 6] && b[7] == s[p + 7];
  }

  lemma KnownStripe(s: seq<byte>)
    requires s == Counting(0, 32)
    ensures AddStripe(InitAccs(0), s) ==
      Accs(0xf4b53b57406b5e99, 0xc3d34b511fc32561,
           0xcb26c007c8a1553f, 0x9a44d001a7f91c07)
    ensures AddStripe(InitAccs(1), s) ==
      Accs(0xb7ab209ac06b5e99, 0x86c930949fc32561,
           0x8e1ca54b48a1553f, 0x5d3ab54527f91c07)
  {
    hide Read64;
    KnownLongs0(s, 0);
    KnownLongs0(s, 8);
    KnownLongs16(s, 16);
    KnownLongs16(s, 24);
    assert s[0..8] == Counting(0, 8) && s[8..16] == Counting(8, 16);
    assert s[16..24] == Counting(16, 24) && s[24..32] == Counting(24, 32);
  }

  lemma KnownStripe32(s: seq<byte>)
    requires s == Counting(32, 64)
    ensures AddStripe(Accs(0xb7ab209ac06b5e99, 0x86c930949fc32561,
                     0x8e1ca54b48a1553f, 0x5d3ab54527f91c07), s) ==
      Accs(0xf73b3d47d6295e48, 0x93f9338e2751cdea,
           0x3f600f87ed96791e, 0x9f13eb11bebee8c0)
  {
    hide Read64;
    KnownLongs32(s, 0);
    KnownLongs32(s, 8);
    KnownLongs48(s, 16);
    KnownLongs48(s, 24);
    assert s[0..8] == Counting(32, 40) && s[8..16] == Counting(40, 48);
    assert s[16..24] == Counting(48, 56) && s[24..32] == Counting(56, 64);
  }

  lemma KnownConverge()
    ensures Converge(Accs(0xf4b53b57406b5e99, 0xc3d34b511fc32561,
                          0xcb26c007c8a1553f, 0x9a44d001a7f91c07)) ==
      0xc845dbc88c411c2d
    ensures Converge(Accs(0xf73b3d47d6295e48, 0x93f9338e2751cdea,
                          0x3f600f87ed96791e, 0x9f13eb11bebee8c0)) ==
      0x17b789effdeac812
  {
  }

  /** A word of eight bytes, one of four, and a byte. */
  lemma KnownTail(s: seq<byte>)
    requires s == Counting(32, 45)
    ensures Tail(0xc845dbc88c411c5a, s, 0) == 0xf5b3eb29c01139da
  {
    hide MixLong, MixWord, MixByte;
    KnownMixes(s);
    KnownBytes();
    assert Tail(0xef1f7486253bde8d, s, 8) == Tail(0xa246b855fd2a4741, s, 12) == Tail(0xf5b3eb29c01139da, s, 13);
  }

  lemma KnownMixes(s: seq<byte>)
    requires s == Counting(32, 45)
    ensures MixLong(0xc845dbc88c411c5a, s, 0) == 0xef1f7486253bde8d
    ensures MixWord(0xef1f7486253bde8d, s, 8) == 0xa246b855fd2a4741
  {
    hide Read64, Read32;
    KnownLongs32(s, 0);
    assert s[0..8] == Counting(32, 40);
    KnownWord(s);
  }

  lemma KnownWord(s: seq<byte>)
    requires s == Counting(32, 45)
    ensures Read32(s, 8) == 0x2b2a2928
  {
  }

  lemma KnownBytes()
    ensures MixByte(0xa246b855fd2a4741, 44) == 0xf5b3eb29c01139da
    ensures MixByte(0x27d4eb2f165667c8, 97) == 0x0e6d11bdc91f0215
    ensures MixByte(0x0e6d11bdc91f0215, 98) == 0x791983e9ab307069
    ensures MixByte(0x791983e9ab307069, 99) == 0xe87a46f8b9a4c39e
  {
    assert 44 as bv64 == 44 && 97 as bv64 == 97 && 98 as bv64 == 98 && 99 as bv64 == 99;
  }

  lemma KnownTail3()
    ensures Tail(0x27d4eb2f165667c8, [97, 98, 99], 0) == 0xe87a46f8b9a4c39e
  {
    hide MixLong, MixWord, MixByte;
    KnownBytes();
    var s := [97, 98, 99];
    assert Tail(0x27d4eb2f165667c8, s, 0) == Tail(0x0e6d11bdc91f0215, s, 1) == Tail(0x791983e9ab307069, s, 2) ==
           Tail(0xe87a46f8b9a4c39e, s, 3);
  }

  lemma KnownAvalanche()
    ensures Avalanche(PRIME5 + 1) == 0xd5afba1336a3be4b
    ensures Avalanche(PRIME5) == 0xef46db3751d8e999
    ensures Avalanche(0xe87a46f8b9a4c39e) == 0x44bc2cf5ad770999
    ensures Avalanche(0xf5b3eb29c01139da) == 0x10fdd84d6409abdf
    ensures Avalanche(0x17b789effdeac852) == 0x3ce5bdf7575926c0
  {
  }

  lemma HashOfNothing()
    ensures Hash([], 0) == 0xef46db3751d8e999
    ensures Hash([], 1) == 0xd5afba1336a3be4b
  {
    hide Stripes, Avalanche;
    KnownAvalanche();
  }

  /** The letters a, b and c. */
  lemma HashOfThree()
    ensures Hash([97, 98, 99], 0) == 0x44bc2cf5ad770999
  {
    hide Stripes, Avalanche, Tail;
    assert [97, 98, 99][0..] == [97, 98, 99] && (3 as u64) as bv64 == 3;
    KnownTail3();
    KnownAvalanche();
  }

  /** A stripe, a word of eight bytes, one of four, and a byte. */
  lemma HashOf45()
    ensures Hash(Counting(0, 45), 0) == 0x10fdd84d6409abdf
  {
    hide AddStripe, Converge, Tail, Avalanche, InitAccs;
    var s := Counting(0, 45);
    assert s[0..32] == Counting(0, 32) && s[32..] == Counting(32, 45);
    KnownStripe(s[0..32]);
    assert Stripes(InitAccs(0), s, 1) == AddStripe(InitAccs(0), s[0..32]);
    KnownConverge();
    KnownTail(s[32..]);
    KnownAvalanche();
    assert (45 as u64) as bv64 == 45;
  }

  lemma NoTail(s: seq<byte>)
    requires s == []
    ensures forall h :: Tail(h, s, 0) == h
  {
    hide MixLong, MixWord, MixByte;
  }

  /** Two stripes, and a seed. */
  lemma HashOf64()
    ensures Hash(Counting(0, 64), 1) == 0x3ce5bdf7575926c0
  {
    hide AddStripe, Converge, Tail, Avalanche, InitAccs;
    var s := Counting(0, 64);
    NoTail(s[64..]);
    assert s[0..32] == Counting(0, 32) && s[32..64] == Counting(32, 64);
    KnownStripe(s[0..32]);
    KnownStripe32(s[32..64]);
    assert Stripes(InitAccs(1), s, 1) == AddStripe(InitAccs(1), s[0..32]);
    assert Stripes(InitAccs(1), s, 2) == AddStripe(Stripes(InitAccs(1), s, 1), s[32..64]);
    KnownConverge();
    KnownAvalanche();
    assert (64 as u64) as bv64 == 64;
  }

  // ---------- the code ----------

  /** The loops over what does not fill a stripe, and the final mix. */
  method Finalize(h0: bv64, len: u64, s: seq<byte>) returns (h: bv64)
    ensures h == Finish(h0, len, s)
  {
    hide MixLong, MixWord, MixByte, Avalanche;
    h := h0 + (len as bv64);
    ghost var goal := Tail(h, s, 0);
    var p := 0;
    while p + 8 <= |s|
      invariant p <= |s| && Tail(h, s, p) == goal
    {
      h := MixLong(h, s, p);
      p := p + 8;
    }
    if p + 4 <= |s| {
      h := MixWord(h, s, p);
      p := p + 4;
    }
    while p < |s|
      invariant p <= |s| && |s| < p + 4 && Tail(h, s, p) == goal
    {
      h := MixByte(h, s[p]);
      p := p + 1;
    }
    h := Avalanche(h);
  }

  /** XXH64_endian_align: all the data at once. */
  method OneShot(s: seq<byte>, seed: bv64) returns (h: bv64)
    ensures h == Hash(s, seed)
  {
    hide AddStripe, Finish, Converge, InitAccs;
    var p, a := 0, InitAccs(seed);
    if |s| >= STRIPE {
      ghost var n := 0;
      while true
        invariant p == STRIPE * n <= |s| - STRIPE && a == Stripes(InitAccs(seed), s, n)
        decreases |s| - p
      {
        NextStripe(InitAccs(seed), s, n);
        a := AddStripe(a, s[p..p + STRIPE]);
        p := p + STRIPE;
        n := n + 1;
        if p > |s| - STRIPE {
          break;
        }
      }
      assert n == |s| / STRIPE;
      h := Converge(a);
    } else {
      h := seed + PRIME5;
    }
    h := Finalize(h, Wrap(|s|), s[p..]);
  }

  /** XXH64_state_t. */
  class State {
    var totalLen: u64
    var accs: Accs
    const mem: array<byte>
    var memsize: nat
    ghost var seed: bv64
    /** All bytes since the last reset. */
    ghost var data: seq<byte>
    ghost var n: nat

    /** The first `n` stripes went into the accumulators; the rest is in the buffer. */
    ghost predicate Valid()
      reads this, mem
    {
      && mem.Length == STRIPE && memsize < STRIPE
      && |data| == STRIPE * n + memsize
      && accs == Stripes(InitAccs(seed), data, n)
      && mem[..memsize] == data[STRIPE * n..]
      && totalLen == Wrap(|data|)
    }

    constructor (seed: bv64)
      ensures Valid() && data == [] && this.seed == seed && fresh(mem)
    {
      mem := new byte[STRIPE](_ => 0);
      totalLen, accs, memsize := 0, InitAccs(seed), 0;
      this.seed, data, n := seed, [], 0;
    }

    /** XXH64_reset. */
    method Reset(seed: bv64)
      requires mem.Length == STRIPE
      modifies this
      ensures Valid() && data == [] && this.seed == seed
    {
      totalLen, accs, memsize := 0, InitAccs(seed), 0;
      this.seed, data, n := seed, [], 0;
    }

    /** The total length, modulo 2^64. */
    method Count(len: nat)
      requires totalLen == Wrap(|data|)
      modifies this`totalLen
      ensures totalLen == Wrap(|data| + len)
    {
      hide Wrap;
      WrapAdd(|data|, len);
      totalLen := Wrap(totalLen + Wrap(len));
    }

    /** Input after what the buffer holds. */
    method Store(from: seq<byte>)
      requires mem.Length == STRIPE && memsize + |from| <= STRIPE
      modifies mem
      ensures mem[..memsize + |from|] == old(mem[..memsize]) + from
    {
      forall i | 0 <= i < |from| {
        mem[memsize + i] := from[i];
      }
    }

    /** What does not fill a stripe. */
    method Keep(input: seq<byte>, p: nat)
      requires p <= |input| < p + STRIPE && mem.Length == STRIPE && memsize == 0
      modifies mem, this`memsize
      ensures memsize == |input| - p && mem[..memsize] == input[p..]
    {
      if p < |input| {
        Store(input[p..]);
        memsize := |input| - p;
      }
    }

    /** XXH64_update: however the data is cut, what was given so far is all that matters. */
    method Update(input: seq<byte>)
      requires Valid()
      modifies this, mem
      ensures Valid() && data == old(data) + input && seed == old(seed)
    {
      hide AddStripe, Stripes, InitAccs, Wrap;
      Count(|input|);
      ghost var before := data;
      data := before + input;
      MoreInput(InitAccs(seed), before, input, n);
      if memsize + |input| < STRIPE {
        Store(input);
        memsize := memsize + |input|;
        assert mem[..memsize] == data[STRIPE * n..];
      } else {
        Absorb(input);
      }
    }

    /** Input that completes a stripe. */
    method Absorb(input: seq<byte>)
      requires mem.Length == STRIPE && memsize < STRIPE <= memsize + |input| && |input| <= |data|
      requires STRIPE * n <= |data| && data[STRIPE * n..] == mem[..memsize] + input && data[|data| - |input|..] == input
      requires accs == Stripes(InitAccs(seed), data, n)
      modifies this`accs, this`memsize, this`n, mem
      ensures memsize < STRIPE && |data| == STRIPE * n + memsize && accs == Stripes(InitAccs(seed), data, n)
      ensures mem[..memsize] == data[STRIPE * n..]
    {
      hide Stripes, InitAccs;
      var p := CompleteStripe(input);
      p := WholeStripes(input, p);
      Keep(input, p);
    }

    /** The stripe that the last update left incomplete. */
    method CompleteStripe(input: seq<byte>) returns (p: nat)
      requires mem.Length == STRIPE && memsize < STRIPE <= memsize + |input|
      requires STRIPE * n <= |data| && data[STRIPE * n..] == mem[..memsize] + input
      requires accs == Stripes(InitAccs(seed), data, n)
      modifies this`accs, this`memsize, this`n, mem
      ensures memsize == 0
      ensures p <= |input| && |data| - |input| + p == STRIPE * n && accs == Stripes(InitAccs(seed), data, n)
    {
      hide AddStripe, Stripes, InitAccs;
      p := 0;
      if memsize > 0 {
        p := STRIPE - memsize;
        Store(input[..p]);
        assert mem[..] == mem[..STRIPE] == data[STRIPE * n..][..STRIPE] == data[STRIPE * n..STRIPE * (n + 1)];
        NextStripe(InitAccs(seed), data, n);
        accs := AddStripe(accs, mem[..]);
        memsize, n := 0, n + 1;
      }
    }

    /** The stripes that lie wholly in the input. */
    method WholeStripes(input: seq<byte>, p0: nat) returns (p: nat)
      requires p0 <= |input| <= |data| && data[|data| - |input|..] == input
      requires |data| - |input| + p0 == STRIPE * n && accs == Stripes(InitAccs(seed), data, n)
      modifies this`accs, this`n
      ensures p <= |input| < p + STRIPE
      ensures |data| - |input| + p == STRIPE * n && accs == Stripes(InitAccs(seed), data, n)
      ensures data[STRIPE * n..] == input[p..]
    {
      hide AddStripe, Stripes, InitAccs;
      p := p0;
      ghost var o := |data| - |input|;
      var a := accs;
      while p + STRIPE <= |input|
        invariant p <= |input| && o + p == STRIPE * n && a == Stripes(InitAccs(seed), data, n)
      {
        NextStripe(InitAccs(seed), data, n);
        SliceOf(data, o, p, p + STRIPE);
        a := AddStripe(a, input[p..p + STRIPE]);
        p, n := p + STRIPE, n + 1;
      }
      accs := a;
      SliceOf(data, o, p, |input|);
    }

    /** XXH64_digest. The length of the one-shot function's input is a 64-bit number. */
    method Digest() returns (h: bv64)
      requires Valid() && |data| < WRAP
      ensures h == Hash(data, seed)
    {
      hide AddStripe, Converge, Finish;
      assert n == |data| / STRIPE;
      h := if totalLen >= STRIPE then Converge(accs) else accs.v3 + PRIME5;
      h := Finalize(h, totalLen, mem[..memsize]);
    }
  }

  /** For every partition of the data into updates, the streamed hash is the one-shot hash. */
  method Streamed(state: State, parts: seq<seq<byte>>, seed: bv64) returns (streamed: bv64, oneShot: bv64)
    requires state.mem.Length == STRIPE && |Concat(parts)| < WRAP
    modifies state, state.mem
    ensures streamed == oneShot == Hash(Concat(parts), seed)
  {
    hide *;
    state.Reset(seed);
    ConcatNone();
    for i := 0 to |parts|
      invariant state.Valid() && state.seed == seed && state.data == Concat(parts[..i])
    {
      ConcatMore(parts, i);
      state.Update(parts[i]);
    }
    assert parts[..|parts|] == parts;
    streamed := state.Digest();
    oneShot := OneShot(Concat(parts), seed);
  }
}
