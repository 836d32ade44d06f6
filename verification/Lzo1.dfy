/** LZO1: compressor, decompressor, their round trip and the expansion of incompressible data. */
module Lzo1 {
  import opened Bytes
  import opened Lz4Format
  import opened Lz4RoundTrip
  import opened Lz4Emit
  import opened Lz4Match
  import opened LzoFormat
  import opened LzoEmit

  // ---------- the format ----------

  function Encode(rb: rbits, p: Plan): seq<byte> {
    match p
    case Rest(lits) => RunBytes(rb, lits)
    case Link(lits, off, len, next) =>
      if Encodable(rb, off, len) then RunBytes(rb, lits) + MatchBytes(rb, off, len) + Encode(rb, next) else []
  }

  /** Meaning of a compressed block after the bytes `out`; None for a block that is not well formed. */
  function Decode(rb: rbits, src: seq<byte>, ip: nat, out: seq<byte>): Option<seq<byte>>
    requires ip <= |src|
    decreases |src| - ip
  {
    if ip == |src| then Some(out)
    else match ReadUnit(rb, src, ip)
      case Overrun => None
      case Run(from, n) => Decode(rb, src, from + n, out + src[from..from + n])
      case Copy(off, len, next) => if off > |out| then None else Decode(rb, src, next, CopyMatch(out, off, len))
  }

  lemma DecodePiece(rb: rbits, src: seq<byte>, ip: nat, from: nat, n: nat, out: seq<byte>)
    requires ip < |src| && ReadUnit(rb, src, ip) == Run(from, n)
    ensures from + n <= |src| && Decode(rb, src, ip, out) == Decode(rb, src, from + n, out + src[from..from + n])
  {
  }

  /** A run that was split into pieces is put together again. */
  lemma {:induction false} DecodeRun(rb: rbits, src: seq<byte>, ip: nat, lits: seq<byte>, out: seq<byte>)
    requires At(src, ip, RunBytes(rb, lits))
    ensures ip + |RunBytes(rb, lits)| <= |src|
    ensures Decode(rb, src, ip, out) == Decode(rb, src, ip + |RunBytes(rb, lits)|, out + lits)
    decreases |lits|
  {
    hide *;
    AtSlice(src, ip, RunBytes(rb, lits));
    if |lits| == 0 {
      NoRun(rb, lits);
      assert out + lits == out;
    } else {
      ReadPiece(rb, src, ip, lits);
      var p, h := Piece(rb, |lits|), |PieceHead(rb, |lits|)|;
      DecodePiece(rb, src, ip, ip + h, p, out);
      DecodeRun(rb, src, ip + h + p, lits[p..], out + lits[..p]);
      assert out + lits[..p] + lits[p..] == out + lits;
    }
  }

  lemma DecodeMatch(rb: rbits, src: seq<byte>, ip: nat, off: nat, len: nat, text: seq<byte>, m: nat)
    requires Encodable(rb, off, len) && At(src, ip, MatchBytes(rb, off, len))
    requires off <= m && m + len <= |text| && Repeats(text, m, m + len, off)
    ensures Decode(rb, src, ip, text[..m]) == Decode(rb, src, ip + |MatchBytes(rb, off, len)|, text[..m + len])
  {
    hide MatchBytes, ReadMatch, CopyMatch;
    ReadWrittenMatch(rb, src, ip, off, len);
    CopyMatchUnique(text[..m], off, len, text[..m + len]);
  }

  lemma {:induction false} DecodePlan(rb: rbits, src: seq<byte>, ip: nat, text: seq<byte>, a: nat, p: Plan)
    requires PlanOf(rb, text, a, p) && a <= |text|
    requires At(src, ip, Encode(rb, p)) && |src| == ip + |Encode(rb, p)|
    ensures Decode(rb, src, ip, text[..a]) == Some(text)
    decreases p
  {
    hide RunBytes, MatchBytes, ReadUnit, CopyMatch, Repeats;
    match p
    case Rest(lits) =>
      DecodeRun(rb, src, ip, lits, text[..a]);
      assert text[..a] + lits == text;
    case Link(lits, off, len, next) =>
      var m := a + |lits|;
      var run, mb := RunBytes(rb, lits), MatchBytes(rb, off, len);
      AtConcat(src, ip, run + mb, Encode(rb, next));
      AtConcat(src, ip, run, mb);
      DecodeRun(rb, src, ip, lits, text[..a]);
      AtSlice(text, a, lits);
      assert text[..a] + lits == text[..m];
      DecodeMatch(rb, src, ip + |run|, off, len, text, m);
      DecodePlan(rb, src, ip + |run| + |mb|, text, m + len, next);
  }

  /** Round trip, for every input and every dictionary. */
  lemma RoundTrip(c: Input)
    ensures Decode(c.rb, Encode(c.rb, Choice(c)), 0, []) == Some(c.text)
  {
    hide Encode, Choice;
    ChoicePlans(c);
    var src := Encode(c.rb, Choice(c));
    assert At(src, 0, src) && c.text[..0] == [];
    DecodePlan(c.rb, src, 0, c.text, 0, Choice(c));
  }

  // ---------- expansion ----------

  lemma {:induction false} PlanSize(rb: rbits, text: seq<byte>, a: nat, p: Plan)
    requires PlanOf(rb, text, a, p)
    ensures a <= |text|
    ensures (R0Min(rb) + 3) * (|Encode(rb, p)| - (|text| - a) - 1) <= |text| - a + 3
    decreases p
  {
    hide RunBytes, MatchBytes, Repeats, At;
    match p
    case Rest(lits) => RunSize(rb, lits);
    case Link(lits, off, len, next) =>
      RunSize(rb, lits);
      MatchSize(rb, off, len);
      PlanSize(rb, text, a + |lits| + len, next);
  }

  /** One more byte for each R0MIN + 3 bytes of input is the worst. */
  lemma Expansion(c: Input)
    ensures |Encode(c.rb, Choice(c))| <= |c.text| + (|c.text| + 3) / (R0Min(c.rb) + 3) + 1
  {
    hide Encode, Choice, PlanOf;
    ChoicePlans(c);
    PlanSize(c.rb, c.text, 0, Choice(c));
  }

  /** The bound that the test program lzotest allows for. */
  function TestBound(n: nat): nat { n + n / 16 + 64 + 3 }

  /** The dictionary misses nothing: where the same three bytes stand within reach, something is found. */
  ghost predicate MissesNothing(c: Input) {
    forall ip: nat, m: nat :: ip + 3 <= |c.text| && InReach(c, ip, m) && SameThree(c, ip, m) ==> Find(c, ip).Some?
  }

  /** The last earlier position of the same three bytes, as a dictionary without collisions knows it. */
  function LastSame(text: seq<byte>, ip: nat, below: nat): int
    requires below <= ip && ip + 3 <= |text|
  {
    if below == 0 then -1
    else if text[below - 1..below + 2] == text[ip..ip + 3] then below - 1
    else LastSame(text, ip, below - 1)
  }

  function Exact(rb: rbits, text: seq<byte>): Input {
    Input(rb, text, (ip: nat, attempt: nat) => if ip + 3 <= |text| then LastSame(text, ip, ip) else -1)
  }

  lemma {:induction false} LastSameIsLast(text: seq<byte>, ip: nat, below: nat, m: nat)
    requires m < below <= ip && ip + 3 <= |text| && text[m..m + 3] == text[ip..ip + 3]
    ensures var l := LastSame(text, ip, below); m <= l < below && text[l..l + 3] == text[ip..ip + 3]
  {
    if m < below - 1 && text[below - 1..below + 2] != text[ip..ip + 3] {
      LastSameIsLast(text, ip, below - 1, m);
    }
  }

  lemma ThreeBytes(t: seq<byte>, i: nat, j: nat)
    requires i + 3 <= |t| && j + 3 <= |t|
    ensures t[i..i + 3] == t[j..j + 3] <==> t[i] == t[j] && t[i + 1] == t[j + 1] && t[i + 2] == t[j + 2]
  {
    var x, y := t[i..i + 3], t[j..j + 3];
    assert x[0] == t[i] && x[1] == t[i + 1] && x[2] == t[i + 2];
    assert y[0] == t[j] && y[1] == t[j + 1] && y[2] == t[j + 2];
  }

  lemma ExactFinds(rb: rbits, text: seq<byte>, ip: nat, m: nat)
    requires ip + 3 <= |text| && InReach(Exact(rb, text), ip, m) && SameThree(Exact(rb, text), ip, m)
    ensures Find(Exact(rb, text), ip).Some?
  {
    ThreeBytes(text, m, ip);
    LastSameIsLast(text, ip, ip, m);
    ThreeBytes(text, LastSame(text, ip, ip), ip);
    hide LastSame;
  }

  lemma ExactMissesNothing(rb: rbits, text: seq<byte>)
    ensures MissesNothing(Exact(rb, text))
  {
    hide Find, SameThree, LastSame;
    var c := Exact(rb, text);
    forall ip: nat, m: nat | ip + 3 <= |c.text| && InReach(c, ip, m) && SameThree(c, ip, m)
      ensures Find(c, ip).Some?
    {
      ExactFinds(rb, text, ip, m);
    }
  }

  const WORST_SIZE := 4400

  /** Blocks of eleven bytes: eight in which the number of the block stands between marks, and three marks. */
  function WorstByte(i: nat): byte {
    var k, r := i / 11 % 200, i % 11;
    if r == 1 then 200 else if r == 3 then 201 else if r == 5 then 202 else if r == 6 then 203
    else if r >= 8 then 196 + r else k
  }

  function WorstText(): seq<byte> {
    seq(WORST_SIZE, i requires 0 <= i => WorstByte(i))
  }

  predicate Worst(c: Input) {
    c.rb == 3 && c.text == WorstText()
  }

  /** A mark tells the place in the block... */
  lemma SameMark(i: nat, j: nat)
    requires WorstByte(i) == WorstByte(j) >= 200
    ensures i % 11 == j % 11
  {
  }

  /** ...and the number of the block comes again only after 2200 bytes. */
  lemma SameNumber(i: nat, j: nat)
    requires j < i && i % 11 == j % 11 && WorstByte(i) == WorstByte(j) < 200
    ensures i - j >= 2200
  {
    var a, b := i / 11, j / 11;
    assert i - j == 11 * (a - b) && a > b;
    assert (a - b) % 200 == 0;
  }

  /** Within reach, only the three marks at the end of a block are found again. */
  lemma OnlyMarks(c: Input, ip: nat, m: nat)
    requires Worst(c) && ip + 3 <= |c.text| && InReach(c, ip, m) && SameThree(c, ip, m)
    ensures ip % 11 == m % 11 == 8
  {
    hide WorstByte;
    TextBytes(c, ip);
    TextBytes(c, m);
    OneByte(ip, m);
    OneByte(ip + 1, m + 1);
    OneByte(ip + 2, m + 2);
    SameResidue(ip, m, 1);
    SameResidue(ip, m, 2);
    MarkAmong(ip);
  }

  lemma TextBytes(c: Input, i: nat)
    requires Worst(c) && i + 3 <= |c.text|
    ensures c.text[i] == WorstByte(i) && c.text[i + 1] == WorstByte(i + 1) && c.text[i + 2] == WorstByte(i + 2)
  {
  }

  lemma OneByte(i: nat, j: nat)
    requires j < i <= j + 2048 && WorstByte(i) == WorstByte(j)
    ensures WorstByte(i) >= 200 <==> i % 11 == j % 11
  {
    hide WorstByte;
    if WorstByte(i) >= 200 {
      SameMark(i, j);
    } else if i % 11 == j % 11 {
      SameNumber(i, j);
    }
  }

  lemma SameResidue(i: nat, j: nat, d: nat)
    requires d < 3
    ensures (i + d) % 11 == (j + d) % 11 <==> i % 11 == j % 11
  {
  }

  lemma MarkAmong(i: nat)
    ensures WorstByte(i) >= 200 || WorstByte(i + 1) >= 200 || WorstByte(i + 2) >= 200
    ensures WorstByte(i) >= 200 && WorstByte(i + 1) >= 200 && WorstByte(i + 2) >= 200 ==> i % 11 == 8
  {
  }

  /** Between the marks nothing is found, whatever the dictionary... */
  lemma {:induction false} WorstSkip(c: Input, ii: nat, ip: nat, ip': nat)
    requires Worst(c) && ii <= ip <= ip' <= |c.text| && forall i :: ip <= i < ip' ==> i % 11 != 8 || i == 8
    ensures Greedy(c, ii, ip) == Greedy(c, ii, ip')
    decreases ip' - ip
  {
    hide Worst, SameThree, MatchLen;
    if ip < ip' {
      if ip < IpEnd(c) && Find(c, ip).Some? {
        OnlyMarks(c, ip, Find(c, ip).value);
      }
      WorstSkip(c, ii, ip + 1, ip');
    }
  }

  /** ...and the marks are found after the first block... */
  lemma WorstFound(c: Input, k: nat) returns (m: nat)
    requires Worst(c) && MissesNothing(c) && 1 <= k <= 395
    ensures |c.text| == WORST_SIZE && m < 11 * k + 8 <= m + 2048 && m % 11 == 8 && Find(c, 11 * k + 8) == Some(m)
    ensures SameThree(c, 11 * k + 8, m)
  {
    hide WorstByte, Find;
    var ip := 11 * k + 8;
    assert SameThree(c, ip, ip - 11) by {
      BlockMarks(k);
      BlockMarks(k - 1);
    }
    assert Find(c, ip).Some?;
    m := Find(c, ip).value;
    OnlyMarks(c, ip, m);
  }

  /** ...but no byte more. */
  lemma WorstMatch(c: Input, k: nat) returns (m: nat)
    requires Worst(c) && MissesNothing(c) && 1 <= k <= 395
    ensures |c.text| == WORST_SIZE && m < 11 * k + 8 && Find(c, 11 * k + 8) == Some(m)
    ensures MatchLen(c, 11 * k + 8, m) == 3
  {
    hide WorstByte, WorstText, Find, MissesNothing;
    m := WorstFound(c, k);
    var ip := 11 * k + 8;
    NextNumbers(m / 11, k);
    TextBytes(c, m + 1);
    TextBytes(c, ip + 1);
    var end := if |c.text| - DVAL_LEN <= ip + MaxMatchLong(3) then |c.text| - DVAL_LEN else ip + MaxMatchLong(3);
    AgreeThree(c, ip, m);
    CommonLenAgree(c.text, m, ip, end, 3);
    NoMore(c.text, m + 3, ip + 3, end);
  }

  lemma BlockMarks(k: nat)
    ensures WorstByte(11 * k + 8) == 204 && WorstByte(11 * k + 9) == 205 && WorstByte(11 * k + 10) == 206
  {
  }

  lemma NextNumbers(j: nat, k: nat)
    requires j < k <= 395 && k - j < 187
    ensures WorstByte(11 * j + 11) != WorstByte(11 * k + 11)
  {
    assert (11 * j + 11) / 11 == j + 1 && (11 * k + 11) / 11 == k + 1;
  }

  lemma NoMore(text: seq<byte>, m: nat, p: nat, limit: nat)
    requires m <= p < limit <= |text| && text[m] != text[p]
    ensures CommonLen(text, m, p, limit) == 0
  {
  }

  lemma EightLiterals(lits: seq<byte>)
    requires |lits| == 8
    ensures |RunBytes(3, lits)| == 10
  {
    NoRun(3, lits[8..]);
    assert |PieceHead(3, |lits|)| == 2;
  }

  lemma LinkSize(lits: seq<byte>, off: nat, next: Plan)
    requires Encodable(3, off, 3)
    ensures |Encode(3, Link(lits, off, 3, next))| == |RunBytes(3, lits)| + 2 + |Encode(3, next)|
  {
    hide RunBytes;
    assert |MatchBytes(3, off, 3)| == 2;
  }

  /** One block: its literals, and two bytes. */
  lemma WorstLink(c: Input, ii: nat, k: nat)
    requires Worst(c) && MissesNothing(c) && 1 <= k <= 395 && ii <= 11 * k + 8
    ensures |c.text| == WORST_SIZE
    ensures |Encode(3, Greedy(c, ii, 11 * k + 8))|
         == |RunBytes(3, c.text[ii..11 * k + 8])| + 2 + |Encode(3, Greedy(c, 11 * k + 11, 11 * k + 11))|
  {
    hide CommonLen, Find, MatchLen, Encode, RunBytes, Worst, MissesNothing;
    var m := WorstMatch(c, k);
    RbThree(c);
    LinkSize(c.text[ii..11 * k + 8], 11 * k + 8 - m, Greedy(c, 11 * k + 11, 11 * k + 11));
  }

  lemma RbThree(c: Input)
    requires Worst(c)
    ensures c.rb == 3 && IpEnd(c) == 4364 && |c.text| == WORST_SIZE
  {
  }

  /** Eleven bytes become twelve. */
  lemma {:induction false} WorstSize(c: Input, k: nat)
    requires Worst(c) && MissesNothing(c) && 1 <= k <= 396
    ensures |c.text| == WORST_SIZE && |Encode(3, Greedy(c, 11 * k, 11 * k))| >= WORST_SIZE - 11 * k + 396 - k
    decreases 396 - k
  {
    hide RunBytes, Encode, Greedy, Worst, MissesNothing;
    RbThree(c);
    WorstSkip(c, 11 * k, 11 * k, 11 * k + 8);
    if k < 396 {
      WorstLink(c, 11 * k, k);
      WorstSize(c, k + 1);
      EightLiterals(c.text[11 * k..11 * k + 8]);
    } else {
      WorstEnd(c);
      RunSize(3, c.text[4356..]);
    }
  }

  lemma WorstEnd(c: Input)
    requires Worst(c)
    ensures |c.text| == WORST_SIZE && Encode(3, Greedy(c, 4356, 4364)) == RunBytes(3, c.text[4356..])
  {
    hide RunBytes, WorstText;
    RbThree(c);
  }

  /** Whatever a dictionary answers that misses nothing, this text of 4400 bytes grows beyond the test program's
      bound. */
  lemma WorstTotal(c: Input)
    requires Worst(c) && MissesNothing(c)
    ensures |Encode(3, Choice(c))| > TestBound(|c.text|)
  {
    hide RunBytes, Encode, Greedy, Worst, MissesNothing;
    RbThree(c);
    assert Choice(c) == Greedy(c, 0, 1);
    WorstSkip(c, 0, 1, 19);
    WorstLink(c, 0, 1);
    WorstSize(c, 2);
    RunSize(3, c.text[0..19]);
  }

  /** The bound holds for all inputs and dictionaries if and only if RBITS is at least 4; and dictionaries that miss
      nothing make no difference. */
  lemma TestBoundHolds(rb: rbits)
    ensures (forall c: Input :: c.rb == rb ==> |Encode(rb, Choice(c))| <= TestBound(|c.text|)) <==> rb >= 4
    ensures (forall c: Input :: c.rb == rb && MissesNothing(c) ==>
               |Encode(rb, Choice(c))| <= TestBound(|c.text|)) <==> rb >= 4
  {
    hide Encode, Choice, MissesNothing, WorstText;
    if rb >= 4 {
      forall c: Input | c.rb == rb
        ensures |Encode(rb, Choice(c))| <= TestBound(|c.text|)
      {
        Expansion(c);
      }
    } else {
      var c := Exact(3, WorstText());
      ExactMissesNothing(3, WorstText());
      WorstTotal(c);
    }
  }

  // ---------- the code ----------

  /** Pieces of 256 << 7 bytes down to 256 << 1. */
  method StoreLongRuns(rb: rbits, text: seq<byte>, start: nat, end: nat, dst: array<byte>, op: nat, ghost e: seq<byte>,
                       ghost goal: seq<byte>) returns (ii: nat, op': nat, ghost x: seq<byte>)
    requires Storing(rb, text, start, end, dst, op, e, goal)
    modifies dst
    ensures Storing(rb, text, ii, end, dst, op', x, goal) && end < ii + LONG_RUN
  {
    hide Chunk, RunBytes, Storing, Largest;
    ii, op', x := start, op, e;
    StoringRange(rb, text, ii, end, dst, op', x, goal);
    if end - ii < LONG_RUN {
      return;
    }
    Chunks();
    var bits := 7;
    while true
      invariant 1 <= bits <= 7 && ii <= end && (bits < 7 ==> end - ii < Chunk(bits + 1))
      invariant Storing(rb, text, ii, end, dst, op', x, goal)
      decreases bits
    {
      while end - ii >= Chunk(bits)
        invariant ii <= end && (bits < 7 ==> end - ii < Chunk(bits + 1))
        invariant Storing(rb, text, ii, end, dst, op', x, goal)
        decreases end - ii
      {
        var n := Chunk(bits);
        LargestIs(end - ii, bits);
        op', x := StorePiece(rb, text, ii, end, n, [0, R0FAST_CODE + bits], dst, op', x, goal);
        ii := ii + n;
      }
      bits := bits - 1;
      if bits == 0 {
        break;
      }
    }
  }

  /** store_run: long pieces, then pieces of R0FAST, then what remains. */
  method StoreRun(rb: rbits, text: seq<byte>, start: nat, end: nat, dst: array<byte>, op: nat, ghost e: seq<byte>)
    returns (op': nat)
    requires start < end <= |text|
    requires Has(dst, op, e) && op + |RunBytes(rb, text[start..end])| <= dst.Length
    modifies dst
    ensures op' == op + |RunBytes(rb, text[start..end])| && Has(dst, op', e + RunBytes(rb, text[start..end]))
  {
    hide RunBytes;
    ghost var goal := e + RunBytes(rb, text[start..end]);
    var ii;
    ghost var x;
    ii, op', x := StoreLongRuns(rb, text, start, end, dst, op, e, goal);
    while end - ii >= R0Fast(rb)
      invariant ii <= end < ii + LONG_RUN && Storing(rb, text, ii, end, dst, op', x, goal)
    {
      op', x := StorePiece(rb, text, ii, end, R0Fast(rb), [0, R0FAST_CODE], dst, op', x, goal);
      ii := ii + R0Fast(rb);
    }
    if end - ii >= R0Min(rb) {
      op', x := StorePiece(rb, text, ii, end, end - ii, [0, end - ii - R0Min(rb)], dst, op', x, goal);
    } else if end > ii {
      op', x := StorePiece(rb, text, ii, end, end - ii, [end - ii], dst, op', x, goal);
    }
    Stored(rb, text, end, end, dst, op', x, goal);
  }

  /** do_compress; what was found before is written when a match follows, the rest at the end. */
  method Compress(c: Input, dst: array<byte>) returns (n: nat)
    requires |c.text| + (|c.text| + 3) / (R0Min(c.rb) + 3) + 1 <= dst.Length
    modifies dst
    ensures n == |Encode(c.rb, Choice(c))| <= dst.Length && dst[..n] == Encode(c.rb, Choice(c))
  {
    hide Encode, RunBytes, Find, Choice, Greedy, Has;
    ghost var goal := Encode(c.rb, Choice(c));
    Expansion(c);
    Whole(goal);
    HasNothing(dst);
    if |c.text| <= MinMatchLong(c.rb) + DVAL_LEN + 1 {
      ShortChoice(c);
      n := StoreRest(c, 0, dst, 0, []);
    } else {
      StartChoice(c);
      n := CompressLoop(c, dst, goal);
    }
    HasAll(dst, n, goal);
  }

  lemma Whole(goal: seq<byte>)
    ensures [] + goal == goal
  {
  }

  lemma HasNothing(dst: array<byte>)
    ensures Has(dst, 0, [])
  {
  }

  lemma HasAll(dst: array<byte>, n: nat, goal: seq<byte>)
    requires Has(dst, n, goal)
    ensures n == |goal| <= dst.Length && dst[..n] == goal
  {
  }

  lemma ShortChoice(c: Input)
    requires |c.text| <= MinMatchLong(c.rb) + DVAL_LEN + 1
    ensures Encode(c.rb, Choice(c)) == RunBytes(c.rb, c.text[0..])
  {
  }

  lemma StartChoice(c: Input)
    requires |c.text| > MinMatchLong(c.rb) + DVAL_LEN + 1
    ensures Choice(c) == Greedy(c, 0, 1)
  {
  }

  /** The final literal run. */
  method StoreRest(c: Input, ii: nat, dst: array<byte>, op: nat, ghost e: seq<byte>) returns (op': nat)
    requires ii <= |c.text| && Has(dst, op, e) && op + |RunBytes(c.rb, c.text[ii..])| <= dst.Length
    modifies dst
    ensures Has(dst, op', e + RunBytes(c.rb, c.text[ii..]))
  {
    hide RunBytes, Has;
    op' := op;
    assert c.text[ii..|c.text|] == c.text[ii..];
    if ii < |c.text| {
      op' := StoreRun(c.rb, c.text, ii, |c.text|, dst, op, e);
    } else {
      NoRun(c.rb, c.text[ii..]);
      assert e + [] == e;
    }
  }

  method CompressLoop(c: Input, dst: array<byte>, ghost goal: seq<byte>) returns (op: nat)
    requires |c.text| > MinMatchLong(c.rb) + DVAL_LEN + 1
    requires goal == Encode(c.rb, Greedy(c, 0, 1)) && |goal| <= dst.Length
    modifies dst
    ensures Has(dst, op, goal)
  {
    hide Encode, RunBytes, Find, Greedy, Has, MatchLen, Encodable;
    HasNothing(dst);
    Whole(goal);
    op := 0;
    var ii: nat, ip: nat := 0, 1;
    ghost var e := [];
    while ip < IpEnd(c)
      invariant ii <= ip <= |c.text|
      invariant Has(dst, op, e) && e + Encode(c.rb, Greedy(c, ii, ip)) == goal
      decreases |c.text| - ip
    {
      var m := Find(c, ip);
      if m.None? {
        GreedyNone(c, ii, ip);
        ip := ip + 1;
      } else {
        var len := MeasureMatch(c, ip, m.value);
        GreedySome(c, ii, ip);
        LinkEncoded(c.rb, c.text[ii..ip], ip - m.value, len, Greedy(c, ip + len, ip + len), e);
        HasLength(dst, op, e);
        op, e := PutLink(c.rb, c.text, ii, ip, ip - m.value, len, dst, op, e);
        ip := ip + len;
        ii := ip;
      }
    }
    GreedyEnd(c, ii, ip);
    RestEncoded(c.rb, c.text[ii..]);
    HasLength(dst, op, e);
    op := StoreRest(c, ii, dst, op, e);
  }

  lemma LinkEncoded(rb: rbits, lits: seq<byte>, off: nat, len: nat, next: Plan, e: seq<byte>)
    requires Encodable(rb, off, len)
    ensures e + Encode(rb, Link(lits, off, len, next))
         == (e + (RunBytes(rb, lits) + MatchBytes(rb, off, len))) + Encode(rb, next)
  {
    hide RunBytes, MatchBytes;
  }

  lemma RestEncoded(rb: rbits, lits: seq<byte>)
    ensures Encode(rb, Rest(lits)) == RunBytes(rb, lits)
  {
  }

  /** The current literal run, if there is one, and a match. */
  method PutLink(rb: rbits, text: seq<byte>, ii: nat, ip: nat, off: nat, len: nat, dst: array<byte>, op: nat,
                 ghost e: seq<byte>) returns (op': nat, ghost e': seq<byte>)
    requires ii <= ip <= |text| && Encodable(rb, off, len) && Has(dst, op, e)
    requires op + |RunBytes(rb, text[ii..ip]) + MatchBytes(rb, off, len)| <= dst.Length
    modifies dst
    ensures e' == e + (RunBytes(rb, text[ii..ip]) + MatchBytes(rb, off, len)) && Has(dst, op', e')
  {
    hide RunBytes, Has, MatchBytes, Encodable;
    ghost var run := RunBytes(rb, text[ii..ip]);
    op' := op;
    if ip > ii {
      if ip - ii < R0Min(rb) {
        ShortRun(rb, text[ii..ip]);
        op' := PutPiece(text, ii, ip - ii, [ip - ii], dst, op, e);
        assert e + [(ip - ii) as byte] + text[ii..ip] == e + run;
      } else {
        op' := StoreRun(rb, text, ii, ip, dst, op, e);
      }
    } else {
      NoRun(rb, text[ii..ip]);
      assert e + run == e;
    }
    HasLength(dst, op', e + run);
    op' := StoreMatch(rb, off, len, dst, op', e + run);
    e' := e + (run + MatchBytes(rb, off, len));
    assert e' == e + run + MatchBytes(rb, off, len);
  }

  /** lzo1_decompress, of a well-formed block. */
  method Decompress(rb: rbits, src: seq<byte>, dst: array<byte>) returns (n: nat)
    requires Decode(rb, src, 0, []).Some? && |Decode(rb, src, 0, []).value| <= dst.Length
    modifies dst
    ensures n <= dst.Length && Decode(rb, src, 0, []) == Some(dst[..n])
  {
    hide ReadRun, ReadMatch, CopyMatch;
    ghost var goal := Decode(rb, src, 0, []);
    var ip: nat, op: nat := 0, 0;
    assert dst[..0] == [];
    while ip < |src|
      invariant ip <= |src| && op <= dst.Length && Decode(rb, src, ip, dst[..op]) == goal
      decreases |src| - ip
    {
      DecodeGrows(rb, src, ip, dst[..op]);
      var t := src[ip];
      if t < R0Min(rb) {
        var from, length := ReadRunLength(rb, src, ip);
        CopyLiterals(src, from, length, dst, op);
        ip, op := from + length, op + length;
      } else {
        var off, length, next := ReadMatchParts(rb, src, ip);
        CopyBack(dst, op, off, length);
        ip, op := next, op + length;
      }
    }
    n := op;
  }

  /** Where the next unit ends in the output, and that the output has room for it. */
  lemma {:induction false} DecodeGrows(rb: rbits, src: seq<byte>, ip: nat, out: seq<byte>)
    requires ip < |src| && Decode(rb, src, ip, out).Some?
    ensures match ReadUnit(rb, src, ip)
            case Overrun => false
            case Run(from, n) => |out| + n <= |Decode(rb, src, ip, out).value|
            case Copy(off, len, next) => off <= |out| && |out| + len <= |Decode(rb, src, ip, out).value|
  {
    hide ReadUnit;
    match ReadUnit(rb, src, ip)
    case Overrun =>
    case Run(from, n) => DecodeExtends(rb, src, from + n, out + src[from..from + n]);
    case Copy(off, len, next) => DecodeExtends(rb, src, next, CopyMatch(out, off, len));
  }

  lemma {:induction false} DecodeExtends(rb: rbits, src: seq<byte>, ip: nat, out: seq<byte>)
    requires ip <= |src| && Decode(rb, src, ip, out).Some?
    ensures |out| <= |Decode(rb, src, ip, out).value|
    decreases |src| - ip
  {
    if ip < |src| {
      hide ReadUnit;
      match ReadUnit(rb, src, ip)
      case Overrun =>
      case Run(from, n) => DecodeExtends(rb, src, from + n, out + src[from..from + n]);
      case Copy(off, len, next) => DecodeExtends(rb, src, next, CopyMatch(out, off, len));
    }
  }

  /** For every input and every dictionary, what was compressed decompresses to the input. */
  method CompressDecompress(c: Input, out: array<byte>) returns (n: nat)
    requires out.Length == |c.text|
    modifies out
    ensures n == |c.text| && out[..n] == c.text
  {
    hide Encode, Choice, Decode;
    var dst := new byte[|c.text| + (|c.text| + 3) / (R0Min(c.rb) + 3) + 1](_ => 0);
    var k := Compress(c, dst);
    RoundTrip(c);
    n := Decompress(c.rb, dst[..k], out);
  }

  // ---------- known bytes ----------

  /** Forty equal bytes become nine. */
  lemma KnownBlock(c: Input)
    requires Even(c)
    ensures Encode(c.rb, Choice(c)) == [1, 97, 0xe0, 0, 27, 3, 97, 97, 97]
  {
    hide RunBytes, Greedy;
    KnownChoice(c);
    OnePiece(5, [97]);
    OnePiece(5, [97, 97, 97]);
    assert Encode(5, Rest([97, 97, 97])) == [3, 97, 97, 97];
  }
}
