/** What LZO1 and LZO1A have in common: marker bytes, literal runs, matches, and the greedy choice of matches. */
module LzoFormat {
  import opened Bytes
  import opened Lz4Format
  import opened Lz4RoundTrip
  import opened Lz4Match

  /** RBITS: a marker has that many low bits for a run length or an offset. */
  type rbits = x: int | 3 <= x <= 5 witness 5

  const MIN_MATCH := 3
  const THRESHOLD := 2
  const DVAL_LEN := 3
  const LONG_RUN := 512

  function R0Min(rb: rbits): nat {
    if rb == 3 then 8 else if rb == 4 then 16 else 32
  }

  function MSize(rb: rbits): nat {
    if rb == 3 then 32 else if rb == 4 then 16 else 8
  }

  /** R0FAST - R0MIN, the same for all RBITS. */
  const R0FAST_CODE := 248

  function R0Fast(rb: rbits): nat { R0Min(rb) + R0FAST_CODE }

  function MinMatchLong(rb: rbits): nat { MSize(rb) + 1 }

  function MaxMatchLong(rb: rbits): nat { MSize(rb) + 256 }

  function MaxOffset(rb: rbits): nat { 256 * R0Min(rb) }

  // ---------- literal runs ----------

  /** 256 << k. */
  function Chunk(k: nat): nat {
    if k == 0 then 256 else 2 * Chunk(k - 1)
  }

  lemma Chunks()
    ensures Chunk(1) == 512 && Chunk(2) == 1024 && Chunk(3) == 2048 && Chunk(4) == 4096
    ensures Chunk(5) == 8192 && Chunk(6) == 16384 && Chunk(7) == 32768
  {
    assert Chunk(0) == 256 && Chunk(1) == 512;
    assert Chunk(3) == 2048;
    assert Chunk(5) == 8192;
  }

  /** The largest k up to 7 such that 256 << k fits in `n`. */
  function Largest(n: nat): (k: nat)
    requires n >= LONG_RUN
    ensures 1 <= k <= 7 && Chunk(k) <= n && (k < 7 ==> n < Chunk(k + 1))
  {
    Chunks();
    if n >= 32768 then 7 else if n >= 16384 then 6 else if n >= 8192 then 5 else if n >= 4096 then 4
    else if n >= 2048 then 3 else if n >= 1024 then 2 else 1
  }

  lemma LargestIs(n: nat, k: nat)
    requires n >= LONG_RUN && 1 <= k <= 7 && Chunk(k) <= n && (k < 7 ==> n < Chunk(k + 1))
    ensures Largest(n) == k
  {
    Chunks();
  }

  /** Length of the piece a run of `n` literals starts with. */
  function Piece(rb: rbits, n: nat): (p: nat)
    ensures p <= n && (n > 0 ==> p > 0)
  {
    Chunks();
    if n >= LONG_RUN then Chunk(Largest(n)) else if n >= R0Fast(rb) then R0Fast(rb) else n
  }

  /** How that piece is announced. */
  function PieceHead(rb: rbits, n: nat): seq<byte>
    requires n > 0
  {
    if n >= LONG_RUN then [0, R0FAST_CODE + Largest(n)]
    else if n >= R0Fast(rb) then [0, R0FAST_CODE]
    else if n >= R0Min(rb) then [0, n - R0Min(rb)]
    else [n]
  }

  /** A whole run: long pieces, from the longest to the shortest, and what remains. */
  function RunBytes(rb: rbits, lits: seq<byte>): seq<byte> {
    if lits == [] then []
    else
      var p := Piece(rb, |lits|);
      PieceHead(rb, |lits|) + lits[..p] + RunBytes(rb, lits[p..])
  }

  // ---------- matches ----------

  predicate Encodable(rb: rbits, off: nat, len: nat) {
    1 <= off <= MaxOffset(rb) && MIN_MATCH <= len <= MaxMatchLong(rb)
  }

  /** Low and high bits of an offset. */
  function Low(rb: rbits, off: nat): (r: nat)
    requires 1 <= off <= MaxOffset(rb)
    ensures r < R0Min(rb)
  {
    (off - 1) % R0Min(rb)
  }

  function High(rb: rbits, off: nat): (r: byte)
    requires 1 <= off <= MaxOffset(rb)
    ensures off == 1 + Low(rb, off) + High(rb, off) * R0Min(rb)
  {
    (off - 1) / R0Min(rb)
  }

  function Marker(rb: rbits, m: nat, low: nat): (t: byte)
    requires m < MSize(rb) && low < R0Min(rb)
    ensures t / R0Min(rb) == m && t % R0Min(rb) == low
    ensures m == 0 <==> t < R0Min(rb)
  {
    m * R0Min(rb) + low
  }

  /** Two bytes for a short match, three for a long one. */
  function MatchBytes(rb: rbits, off: nat, len: nat): seq<byte>
    requires Encodable(rb, off, len)
  {
    if len < MinMatchLong(rb) then [Marker(rb, len - THRESHOLD, Low(rb, off)), High(rb, off)]
    else [Marker(rb, MSize(rb) - 1, Low(rb, off)), High(rb, off), len - MinMatchLong(rb)]
  }

  // ---------- reading ----------

  /** What a decoder finds at a marker. */
  datatype Unit =
    | Overrun
    | Run(from: nat, n: nat)
    | Copy(off: nat, len: nat, next: nat)

  /** Length of an R0 run, from the byte after the zero. */
  function R0Length(rb: rbits, b: byte): (n: nat)
    ensures n > 0
  {
    Chunks();
    if b > R0FAST_CODE then Chunk(b - R0FAST_CODE)
    else if b == R0FAST_CODE then R0Fast(rb)
    else b + R0Min(rb)
  }

  function ReadRun(rb: rbits, src: seq<byte>, ip: nat): (u: Unit)
    requires ip < |src|
    ensures u == Overrun || (u.Run? && 0 < u.n && ip < u.from && u.from + u.n <= |src|)
  {
    var t := src[ip];
    if t == 0 && ip + 1 >= |src| then Overrun
    else
      var from := if t == 0 then ip + 2 else ip + 1;
      var n := if t == 0 then R0Length(rb, src[ip + 1]) else t;
      if from + n > |src| then Overrun else Run(from, n)
  }

  function ReadMatch(rb: rbits, src: seq<byte>, ip: nat): (u: Unit)
    requires ip < |src| && R0Min(rb) <= src[ip]
    ensures u == Overrun || (u.Copy? && 0 < u.off && MIN_MATCH <= u.len && ip < u.next <= |src|)
  {
    var t := src[ip];
    var short := t / R0Min(rb) < MSize(rb) - 1;
    var next := if short then ip + 2 else ip + 3;
    if next > |src| then Overrun
    else
      var off := 1 + t % R0Min(rb) + src[ip + 1] * R0Min(rb);
      var len := if short then THRESHOLD + t / R0Min(rb) else MinMatchLong(rb) + src[ip + 2];
      Copy(off, len, next)
  }

  /** A marker outside any special context. */
  function ReadUnit(rb: rbits, src: seq<byte>, ip: nat): (u: Unit)
    requires ip < |src|
    ensures u.Run? ==> 0 < u.n && ip < u.from && u.from + u.n <= |src|
    ensures u.Copy? ==> 0 < u.off && MIN_MATCH <= u.len && ip < u.next <= |src|
  {
    if src[ip] < R0Min(rb) then ReadRun(rb, src, ip) else ReadMatch(rb, src, ip)
  }

  lemma ReadHead(rb: rbits, src: seq<byte>, ip: nat, n: nat)
    requires n > 0 && At(src, ip, PieceHead(rb, n)) && ip + |PieceHead(rb, n)| + Piece(rb, n) <= |src|
    ensures ReadUnit(rb, src, ip) == ReadRun(rb, src, ip) == Run(ip + |PieceHead(rb, n)|, Piece(rb, n))
  {
    var head := PieceHead(rb, n);
    hide Chunk, Largest;
    assert src[ip] == head[0];
    if |head| == 2 {
      assert src[ip + 1] == head[1];
    }
  }

  lemma NoRun(rb: rbits, lits: seq<byte>)
    requires |lits| == 0
    ensures RunBytes(rb, lits) == []
  {
  }

  lemma RunParts(rb: rbits, lits: seq<byte>)
    requires lits != []
    ensures var p := Piece(rb, |lits|); RunBytes(rb, lits) == PieceHead(rb, |lits|) + lits[..p] + RunBytes(rb,
                           lits[p..])
  {
    hide Piece, PieceHead;
  }

  /** The piece that was announced is the piece that is read. */
  lemma ReadPiece(rb: rbits, src: seq<byte>, ip: nat, lits: seq<byte>)
    requires lits != [] && At(src, ip, RunBytes(rb, lits))
    ensures var p, h := Piece(rb, |lits|), |PieceHead(rb, |lits|)|;
            && h > 0 && ip + h + p <= |src|
            && ReadUnit(rb, src, ip) == ReadRun(rb, src, ip) == Run(ip + h, p)
            && src[ip + h..ip + h + p] == lits[..p]
            && At(src, ip + h + p, RunBytes(rb, lits[p..]))
            && |RunBytes(rb, lits)| == h + p + |RunBytes(rb, lits[p..])|
  {
    hide *;
    var p, head := Piece(rb, |lits|), PieceHead(rb, |lits|);
    var more := RunBytes(rb, lits[p..]);
    RunParts(rb, lits);
    AtConcat(src, ip, head + lits[..p], more);
    AtConcat(src, ip, head, lits[..p]);
    AtSlice(src, ip + |head|, lits[..p]);
    ReadHead(rb, src, ip, |lits|);
  }

  /** The match that was written is the match that is read. */
  lemma ReadWrittenMatch(rb: rbits, src: seq<byte>, ip: nat, off: nat, len: nat)
    requires Encodable(rb, off, len) && At(src, ip, MatchBytes(rb, off, len))
    ensures R0Min(rb) <= src[ip] && ReadMatch(rb, src, ip) == Copy(off, len, ip + |MatchBytes(rb, off, len)|)
  {
    var x := MatchBytes(rb, off, len);
    hide Marker, Low, High;
    assert src[ip] == x[0] && src[ip + 1] == x[1];
    if |x| == 3 {
      assert src[ip + 2] == x[2];
    }
  }

  /** Growth: a run takes at most one byte more than its literals, and one more for each R0MIN + 3 of them. */
  lemma {:induction false} RunSize(rb: rbits, lits: seq<byte>)
    ensures |lits| <= |RunBytes(rb, lits)|
    ensures (R0Min(rb) + 3) * (|RunBytes(rb, lits)| - |lits| - 1) <= |lits| + 3
    decreases |lits|
  {
    if lits != [] {
      var p := Piece(rb, |lits|);
      RunSize(rb, lits[p..]);
      Chunks();
    }
  }

  lemma MatchSize(rb: rbits, off: nat, len: nat)
    requires Encodable(rb, off, len)
    ensures |MatchBytes(rb, off, len)| < len
  {
  }

  // ---------- the greedy plan ----------

  /** What a compressor is given: the text and a dictionary, that is, some candidate for each position and attempt. */
  datatype Input = Input(rb: rbits, text: seq<byte>, lookup: (nat, nat) -> int)

  /** The guard: a candidate before the position and within reach. */
  predicate InReach(c: Input, ip: nat, m: int) {
    0 <= m < ip <= m + MaxOffset(c.rb)
  }

  predicate SameThree(c: Input, ip: nat, m: nat)
    requires m < ip && ip + 3 <= |c.text|
  {
    c.text[m] == c.text[ip] && c.text[m + 1] == c.text[ip + 1] && c.text[m + 2] == c.text[ip + 2]
  }

  /** Two attempts; a candidate out of reach ends the search. */
  function Find(c: Input, ip: nat): (r: Option<nat>)
    requires ip + 3 <= |c.text|
    ensures r.Some? ==> InReach(c, ip, r.value) && SameThree(c, ip, r.value)
  {
    var m1 := c.lookup(ip, 1);
    if !InReach(c, ip, m1) then None
    else if SameThree(c, ip, m1) then Some(m1)
    else
      var m2 := c.lookup(ip, 2);
      if InReach(c, ip, m2) && SameThree(c, ip, m2) then Some(m2) else None
  }

  /** The last position where a match may start, plus one. */
  function IpEnd(c: Input): int {
    |c.text| - DVAL_LEN - MinMatchLong(c.rb)
  }

  function MatchLen(c: Input, ip: nat, m: nat): (n: nat)
    requires m < ip < IpEnd(c)
    ensures ip + n <= |c.text| - DVAL_LEN && n <= MaxMatchLong(c.rb)
  {
    var end := if |c.text| - DVAL_LEN <= ip + MaxMatchLong(c.rb) then |c.text| - DVAL_LEN else ip + MaxMatchLong(c.rb);
    CommonLen(c.text, m, ip, end)
  }

  datatype Plan =
    | Rest(lits: seq<byte>)
    | Link(lits: seq<byte>, off: nat, len: nat, next: Plan)

  /** The literals and matches from position `ip` on, when the literals since `ii` are still to be written. */
  function Greedy(c: Input, ii: nat, ip: nat): Plan
    requires ii <= ip <= |c.text|
    decreases |c.text| - ip
  {
    if ip >= IpEnd(c) then Rest(c.text[ii..])
    else
      var m := Find(c, ip);
      if m.None? then Greedy(c, ii, ip + 1)
      else
        MatchLenMin(c, ip, m.value);
        var len := MatchLen(c, ip, m.value);
        Link(c.text[ii..ip], ip - m.value, len, Greedy(c, ip + len, ip + len))
  }

  lemma GreedyNone(c: Input, ii: nat, ip: nat)
    requires ii <= ip < IpEnd(c) && Find(c, ip).None?
    ensures Greedy(c, ii, ip) == Greedy(c, ii, ip + 1)
  {
  }

  lemma GreedySome(c: Input, ii: nat, ip: nat)
    requires ii <= ip < IpEnd(c) && Find(c, ip).Some?
    ensures var m := Find(c, ip).value;
            && 0 < m + MaxOffset(c.rb) && m < ip && SameThree(c, ip, m)
            && MIN_MATCH <= MatchLen(c, ip, m) && ip + MatchLen(c, ip, m) <= |c.text|
            && Encodable(c.rb, ip - m, MatchLen(c, ip, m))
            && var next := ip + MatchLen(c, ip, m);
            && Greedy(c, ii, ip) == Link(c.text[ii..ip], ip - m, MatchLen(c, ip, m), Greedy(c, next, next))
  {
    hide MatchLen;
    MatchLenMin(c, ip, Find(c, ip).value);
  }

  lemma GreedyEnd(c: Input, ii: nat, ip: nat)
    requires ii <= ip <= |c.text| && ip >= IpEnd(c)
    ensures Greedy(c, ii, ip) == Rest(c.text[ii..])
  {
  }

  lemma MatchLenMin(c: Input, ip: nat, m: nat)
    requires m < ip < IpEnd(c) && SameThree(c, ip, m)
    ensures MatchLen(c, ip, m) >= MIN_MATCH
  {
    hide CommonLen;
    var end := if |c.text| - DVAL_LEN <= ip + MaxMatchLong(c.rb) then |c.text| - DVAL_LEN else ip + MaxMatchLong(c.rb);
    AgreeThree(c, ip, m);
    CommonLenAgree(c.text, m, ip, end, MIN_MATCH);
  }

  lemma AgreeThree(c: Input, ip: nat, m: nat)
    requires m < ip && ip + 3 <= |c.text| && SameThree(c, ip, m)
    ensures Agree(c.text, m, ip, MIN_MATCH)
  {
  }

  /** A plan for text[a..] whose matches are real and can be encoded. */
  predicate PlanOf(rb: rbits, text: seq<byte>, a: nat, p: Plan)
    decreases p
  {
    match p
    case Rest(lits) => a + |lits| == |text| && At(text, a, lits)
    case Link(lits, off, len, next) =>
      var m := a + |lits|;
      && Encodable(rb, off, len) && off <= m && m + len <= |text|
      && At(text, a, lits) && Repeats(text, m, m + len, off) && PlanOf(rb, text, m + len, next)
  }

  /** Whatever the dictionary says, the greedy plan is a plan for the text. */
  lemma {:induction false} GreedyPlans(c: Input, ii: nat, ip: nat)
    requires ii <= ip <= |c.text|
    ensures PlanOf(c.rb, c.text, ii, Greedy(c, ii, ip))
    decreases |c.text| - ip
  {
    hide CommonLen, Agree, Repeats;
    if ip < IpEnd(c) {
      var m := Find(c, ip);
      if m.None? {
        GreedyPlans(c, ii, ip + 1);
      } else {
        MatchLenMin(c, ip, m.value);
        MatchIsReal(c, ip, m.value);
        GreedyPlans(c, ip + MatchLen(c, ip, m.value), ip + MatchLen(c, ip, m.value));
      }
    }
  }

  lemma MatchIsReal(c: Input, ip: nat, m: nat)
    requires m < ip < IpEnd(c)
    ensures ip + MatchLen(c, ip, m) <= |c.text| && Repeats(c.text, ip, ip + MatchLen(c, ip, m), ip - m)
  {
    hide CommonLen;
    var end := if |c.text| - DVAL_LEN <= ip + MaxMatchLong(c.rb) then |c.text| - DVAL_LEN else ip + MaxMatchLong(c.rb);
    CommonLenAgree(c.text, m, ip, end, MatchLen(c, ip, m));
  }

  /** The encoder starts at position 1; a text that is too short is only literals. */
  function Choice(c: Input): Plan {
    if |c.text| <= MinMatchLong(c.rb) + DVAL_LEN + 1 then Rest(c.text) else Greedy(c, 0, 1)
  }

  lemma ChoicePlans(c: Input)
    ensures PlanOf(c.rb, c.text, 0, Choice(c))
  {
    if |c.text| > MinMatchLong(c.rb) + DVAL_LEN + 1 {
      GreedyPlans(c, 0, 1);
    }
  }

  // ---------- known bytes ----------

  /** Short and long matches, and runs in one and in several pieces. */
  lemma KnownPieces(a: seq<byte>, b: seq<byte>)
    requires |a| == 40 && |b| == 553
    ensures MatchBytes(5, 34, 3) == [0x21, 1] && MatchBytes(5, 34, 20) == [0xe1, 1, 11]
    ensures MatchBytes(3, 10, 3) == [0x09, 1] && MatchBytes(4, 18, 3) == [0x11, 1]
    ensures RunBytes(5, a) == [0, 8] + a
    ensures RunBytes(5, b) == [0, 249] + b[..512] + ([0, 9] + b[512..])
  {
    OnePiece(5, a);
    OnePiece(5, b[512..]);
    Chunks();
    assert b[512..][..41] == b[512..];
  }

  lemma OnePiece(rb: rbits, lits: seq<byte>)
    requires 0 < |lits| < R0Fast(rb)
    ensures RunBytes(rb, lits) == PieceHead(rb, |lits|) + lits
  {
    assert lits[..|lits|] == lits && lits[|lits|..] == [];
  }

  /** A text of equal bytes, when the lookup always gives the position before. */
  ghost predicate Even(c: Input) {
    && |c.text| == 40 && c.rb == 5 && (forall i :: 0 <= i < 40 ==> c.text[i] == 97)
    && forall ip: nat :: c.lookup(ip, 1) == ip - 1
  }

  /** One literal, one match up to where no match may reach, three literals. */
  lemma KnownChoice(c: Input)
    requires Even(c)
    ensures Choice(c) == Link([97], 1, 36, Rest([97, 97, 97]))
  {
    hide CommonLen, Greedy;
    assert Find(c, 1) == Some(0);
    assert Agree(c.text, 0, 1, 36);
    CommonLenAgree(c.text, 0, 1, 37, 36);
    GreedySome(c, 0, 1);
    GreedyEnd(c, 37, 37);
    assert c.text[0..1] == [97] && c.text[37..] == [97, 97, 97];
  }
}
