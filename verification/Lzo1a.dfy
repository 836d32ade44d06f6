/** LZO1A, with RBITS 5 and LBITS 8: a short match and the one literal after it may be folded into a context-sensitive
    "R1" match, by patching a marker that was already written. */
module Lzo1a {
  import opened Bytes
  import opened Lz4Format
  import opened Lz4RoundTrip
  import opened Lz4Emit
  import opened LzoFormat
  import opened LzoEmit

  const RBITS: rbits := 5
  const R0MIN := 32
  const R0FAST := 280

  // ---------- the format ----------

  /** A run after which the compressor remembers where the match starts. */
  predicate Short(lits: seq<byte>) {
    0 < |lits| < R0FAST
  }

  /** The literal between two matches can be folded into the first of them. */
  predicate Folds(p: Plan) {
    p.Link? && |p.lits| == 1
  }

  /** Three bytes: offset and a literal. The marker has no match length. */
  function R1Bytes(off: nat, lit: byte): seq<byte>
    requires Encodable(RBITS, off, MIN_MATCH)
  {
    [Low(RBITS, off), High(RBITS, off), lit]
  }

  /** `folded`: the literals of `p` were written as part of an R1 match. */
  function Encode(p: Plan, folded: bool): seq<byte>
    decreases p, 1
  {
    match p
    case Rest(lits) => RunBytes(RBITS, lits)
    case Link(lits, off, len, next) =>
      if !Encodable(RBITS, off, len) then []
      else (if folded then [] else RunBytes(RBITS, lits)) + Body(p, folded)
  }

  /** A match and all that follows it. */
  function Body(p: Plan, folded: bool): seq<byte>
    requires p.Link? && Encodable(RBITS, p.off, p.len)
    decreases p, 0
  {
    if R1(p, folded) then R1Bytes(p.off, p.next.lits[0]) + Encode(p.next, true)
    else MatchBytes(RBITS, p.off, p.len) + Encode(p.next, false)
  }

  /** The match of `p` is written as an R1 match. */
  predicate R1(p: Plan, folded: bool) {
    p.Link? && (folded || Short(p.lits)) && p.len == MIN_MATCH && Folds(p.next)
  }

  /** Positions of R1 markers when the encoding of `p` starts at `pos`. */
  function Patches(p: Plan, folded: bool, pos: nat): set<nat> {
    match p
    case Rest(lits) => {}
    case Link(lits, off, len, next) =>
      var at := pos + if folded then 0 else |RunBytes(RBITS, lits)|;
      if !Encodable(RBITS, off, len) then {}
      else if R1(p, folded) then {at} + Patches(next, true, at + 3)
      else Patches(next, false, at + |MatchBytes(RBITS, off, len)|)
  }

  /** A piece of a literal run, with the context in which the next marker is read: after a long R0 run, any marker may
      follow; after the others, only a match. */
  function LeavesLiteral(src: seq<byte>, ip: nat): bool
    requires ip < |src|
  {
    src[ip] != 0 || (ip + 1 < |src| && src[ip + 1] < R0FAST_CODE)
  }

  /** Meaning of a compressed block after the bytes `out`; `after` is the decoder's after-literal loop. */
  function Decode(src: seq<byte>, ip: nat, out: seq<byte>, after: bool): Option<seq<byte>>
    requires ip <= |src|
    decreases |src| - ip
  {
    if ip == |src| then Some(out)
    else if src[ip] >= R0MIN then
      match ReadMatch(RBITS, src, ip) {
        case Copy(off, len, next) => if off > |out| then None else Decode(src, next, CopyMatch(out, off, len), false)
        case _ => None
      }
    else if !after then
      match ReadRun(RBITS, src, ip) {
        case Run(from, n) => Decode(src, from + n, out + src[from..from + n], LeavesLiteral(src, ip))
        case _ => None
      }
    else if ip + 3 > |src| then None
    else
      var off := 1 + src[ip] + src[ip + 1] * R0MIN;
      if off > |out| then None
      else Decode(src, ip + 3, CopyMatch(out, off, MIN_MATCH) + [src[ip + 2]], true)
  }

  /** Positions of the markers below R0MIN that the decoder reads in its after-literal loop. */
  function R1Reads(src: seq<byte>, ip: nat, after: bool): set<nat>
    requires ip <= |src|
    decreases |src| - ip
  {
    if ip == |src| then {}
    else if src[ip] >= R0MIN then
      var u := ReadMatch(RBITS, src, ip);
      if u.Copy? then R1Reads(src, u.next, false) else {}
    else if !after then
      var u := ReadRun(RBITS, src, ip);
      if u.Run? then R1Reads(src, u.from + u.n, LeavesLiteral(src, ip)) else {}
    else if ip + 3 > |src| then {}
    else {ip} + R1Reads(src, ip + 3, true)
  }

  // ---------- round trip ----------

  /** The last piece of the run is one after which a match must follow. */
  predicate EndsShort(lits: seq<byte>) {
    if lits == [] then false
    else if Piece(RBITS, |lits|) == |lits| then |lits| < R0FAST
    else EndsShort(lits[Piece(RBITS, |lits|)..])
  }

  lemma DecodePiece(src: seq<byte>, ip: nat, from: nat, n: nat, out: seq<byte>)
    requires ip < |src| && src[ip] < R0MIN && ReadRun(RBITS, src, ip) == Run(from, n)
    ensures from + n <= |src| && ip < from + n
    ensures Decode(src, ip, out, false) == Decode(src, from + n, out + src[from..from + n], LeavesLiteral(src, ip))
    ensures R1Reads(src, ip, false) == R1Reads(src, from + n, LeavesLiteral(src, ip))
  {
    hide CopyMatch, ReadMatch, LeavesLiteral;
  }

  lemma PieceLeaves(src: seq<byte>, ip: nat, lits: seq<byte>)
    requires lits != [] && At(src, ip, RunBytes(RBITS, lits))
    ensures ip < |src| && src[ip] < R0MIN
    ensures LeavesLiteral(src, ip) == (|lits| < R0FAST)
  {
    hide Piece, Largest, RunBytes;
    var p, head := Piece(RBITS, |lits|), PieceHead(RBITS, |lits|);
    RunParts(RBITS, lits);
    HeadLength(RBITS, |lits|);
    AtConcat(src, ip, head + lits[..p], RunBytes(RBITS, lits[p..]));
    AtConcat(src, ip, head, lits[..p]);
    assert src[ip] == head[0];
    if |head| == 2 {
      assert src[ip + 1] == head[1];
    }
  }

  lemma PieceIsAll(lits: seq<byte>)
    requires 0 < |lits| < R0FAST
    ensures Piece(RBITS, |lits|) == |lits| && EndsShort(lits)
  {
  }

  lemma EndsShortStep(lits: seq<byte>)
    requires |lits| >= R0FAST
    ensures 0 < Piece(RBITS, |lits|) <= |lits| && EndsShort(lits) == EndsShort(lits[Piece(RBITS, |lits|)..])
  {
    hide Piece;
    var p := Piece(RBITS, |lits|);
    if p == |lits| {
      assert lits[p..] == [];
    }
  }

  /** A run is read piece by piece; whether a match must follow depends on its last piece. */
  lemma {:induction false} DecodeRun(src: seq<byte>, ip: nat, lits: seq<byte>, out: seq<byte>)
    requires At(src, ip, RunBytes(RBITS, lits))
    ensures ip + |RunBytes(RBITS, lits)| <= |src|
    ensures Decode(src, ip, out, false) == Decode(src, ip + |RunBytes(RBITS, lits)|, out + lits, EndsShort(lits))
    ensures R1Reads(src, ip, false) == R1Reads(src, ip + |RunBytes(RBITS, lits)|, EndsShort(lits))
    decreases |lits|
  {
    hide *;
    AtSlice(src, ip, RunBytes(RBITS, lits));
    if |lits| == 0 {
      NoRun(RBITS, lits);
      NoneShort(lits);
      assert out + lits == out;
    } else {
      PieceLeaves(src, ip, lits);
      ReadPiece(RBITS, src, ip, lits);
      var p, h := Piece(RBITS, |lits|), |PieceHead(RBITS, |lits|)|;
      DecodePiece(src, ip, ip + h, p, out);
      assert out + lits[..p] + lits[p..] == out + lits;
      if |lits| < R0FAST {
        PieceIsAll(lits);
        NoRun(RBITS, lits[p..]);
        assert out + lits[..p] == out + lits;
      } else {
        EndsShortStep(lits);
        DecodeRun(src, ip + h + p, lits[p..], out + lits[..p]);
      }
    }
  }

  lemma NoneShort(lits: seq<byte>)
    requires |lits| == 0
    ensures !EndsShort(lits)
  {
  }

  lemma DecodeMatch(src: seq<byte>, ip: nat, off: nat, len: nat, text: seq<byte>, m: nat, after: bool)
    requires Encodable(RBITS, off, len) && At(src, ip, MatchBytes(RBITS, off, len))
    requires off <= m && m + len <= |text| && Repeats(text, m, m + len, off)
    ensures ip + |MatchBytes(RBITS, off, len)| <= |src|
    ensures Decode(src, ip, text[..m], after)
         == Decode(src, ip + |MatchBytes(RBITS, off, len)|, text[..m + len], false)
    ensures R1Reads(src, ip, after) == R1Reads(src, ip + |MatchBytes(RBITS, off, len)|, false)
  {
    hide MatchBytes, ReadMatch, CopyMatch, ReadRun;
    ReadWrittenMatch(RBITS, src, ip, off, len);
    CopyMatchUnique(text[..m], off, len, text[..m + len]);
  }

  /** The patched marker, in the after-literal loop. */
  lemma DecodeR1(src: seq<byte>, ip: nat, off: nat, lit: byte, text: seq<byte>, m: nat)
    requires Encodable(RBITS, off, MIN_MATCH) && At(src, ip, R1Bytes(off, lit))
    requires off <= m && m + 4 <= |text| && Repeats(text, m, m + MIN_MATCH, off) && text[m + 3] == lit
    ensures ip + 3 <= |src|
    ensures Decode(src, ip, text[..m], true) == Decode(src, ip + 3, text[..m + 4], true)
    ensures R1Reads(src, ip, true) == {ip} + R1Reads(src, ip + 3, true)
  {
    hide ReadMatch, CopyMatch, ReadRun, Low, High;
    var x := R1Bytes(off, lit);
    assert src[ip] == x[0] && src[ip + 1] == x[1] && src[ip + 2] == x[2];
    CopyMatchUnique(text[..m], off, MIN_MATCH, text[..m + MIN_MATCH]);
    assert text[..m + MIN_MATCH] + [lit] == text[..m + 4];
  }

  /** The block decodes to the text, and the markers read as R1 are those that were patched. */
  lemma {:induction false} DecodePlan(src: seq<byte>, ip: nat, text: seq<byte>, a: nat, p: Plan, folded: bool)
    requires PlanOf(RBITS, text, a, p) && a <= |text| && (folded ==> Folds(p))
    requires At(src, ip, Encode(p, folded)) && |src| == ip + |Encode(p, folded)|
    ensures Decode(src, ip, text[..if folded then a + 1 else a], folded) == Some(text)
    ensures R1Reads(src, ip, folded) == Patches(p, folded, ip)
    decreases p
  {
    hide RunBytes, MatchBytes, R1Bytes, Decode, Repeats, R1Reads, EndsShort;
    match p
    case Rest(lits) =>
      DecodeRun(src, ip, lits, text[..a]);
      assert text[..a] + lits == text;
      DecodeEnd(src, text, EndsShort(lits));
    case Link(lits, off, len, next) =>
      var m := a + |lits|;
      var run := if folded then [] else RunBytes(RBITS, lits);
      AtConcat(src, ip, run, Body(p, folded));
      AtSlice(text, a, lits);
      assert text[..a] + lits == text[..m];
      if !folded {
        DecodeRun(src, ip, lits, text[..a]);
      }
      if R1(p, folded) {
        AtConcat(src, ip + |run|, R1Bytes(off, next.lits[0]), Encode(next, true));
        if !folded {
          PieceIsAll(lits);
        }
        R1Length(off, next.lits[0]);
        assert text[m + 3] == next.lits[0];
        DecodeR1(src, ip + |run|, off, next.lits[0], text, m);
        DecodePlan(src, ip + |run| + 3, text, m + len, next, true);
      } else {
        AtConcat(src, ip + |run|, MatchBytes(RBITS, off, len), Encode(next, false));
        DecodeMatch(src, ip + |run|, off, len, text, m, folded || EndsShort(lits));
        DecodePlan(src, ip + |run| + |MatchBytes(RBITS, off, len)|, text, m + len, next, false);
      }
  }

  lemma R1Length(off: nat, lit: byte)
    requires Encodable(RBITS, off, MIN_MATCH)
    ensures |R1Bytes(off, lit)| == 3
  {
  }

  lemma DecodeEnd(src: seq<byte>, out: seq<byte>, after: bool)
    ensures Decode(src, |src|, out, after) == Some(out) && R1Reads(src, |src|, after) == {}
  {
  }

  /** Round trip, for every input and every dictionary; a marker is read in the after-literal loop exactly if it was
      patched, so no literal run is ever read there. */
  lemma RoundTrip(c: Input)
    requires c.rb == RBITS
    ensures var src := Encode(Choice(c), false);
            && Decode(src, 0, [], false) == Some(c.text)
            && R1Reads(src, 0, false) == Patches(Choice(c), false, 0)
  {
    hide Encode, Choice;
    ChoicePlans(c);
    var src := Encode(Choice(c), false);
    assert At(src, 0, src) && c.text[..0] == [];
    DecodePlan(src, 0, c.text, 0, Choice(c), false);
  }

  lemma {:induction false} PlanSize(text: seq<byte>, a: nat, p: Plan, folded: bool)
    requires PlanOf(RBITS, text, a, p) && (folded ==> Folds(p))
    ensures a <= |text|
    ensures var n := |text| - a - if folded then 1 else 0; (R0MIN + 3) * (|Encode(p, folded)| - n - 1) <= n + 3
    decreases p
  {
    hide RunBytes, MatchBytes, R1Bytes, Repeats, At;
    match p
    case Rest(lits) => RunSize(RBITS, lits);
    case Link(lits, off, len, next) =>
      RunSize(RBITS, lits);
      if R1(p, folded) {
        R1Length(off, next.lits[0]);
        PlanSize(text, a + |lits| + len, next, true);
      } else {
        MatchSize(RBITS, off, len);
        PlanSize(text, a + |lits| + len, next, false);
      }
  }

  /** One more byte for each 35 bytes of input is the worst. */
  lemma Expansion(c: Input)
    requires c.rb == RBITS
    ensures |Encode(Choice(c), false)| <= |c.text| + (|c.text| + 3) / (R0MIN + 3) + 1
  {
    hide Encode, Choice, PlanOf;
    ChoicePlans(c);
    PlanSize(c.text, 0, Choice(c), false);
  }

  // ---------- the compressor ----------

  /** Pieces of 32768 bytes, then at most one each of 16384 down to 512. */
  method StoreLongRuns(text: seq<byte>, start: nat, end: nat, dst: array<byte>, op: nat, ghost e: seq<byte>,
                       ghost goal: seq<byte>) returns (ii: nat, op': nat, ghost x: seq<byte>)
    requires Storing(RBITS, text, start, end, dst, op, e, goal)
    modifies dst
    ensures Storing(RBITS, text, ii, end, dst, op', x, goal) && end < ii + LONG_RUN
  {
    hide Chunk, RunBytes, Storing, Largest;
    ii, op', x := start, op, e;
    StoringRange(RBITS, text, ii, end, dst, op', x, goal);
    if end - ii < LONG_RUN {
      return;
    }
    Chunks();
    var bits, tt := 6, 32768;
    while end - ii >= tt
      invariant ii <= end && Storing(RBITS, text, ii, end, dst, op', x, goal)
      decreases end - ii
    {
      LargestIs(end - ii, 7);
      op', x := StorePiece(RBITS, text, ii, end, tt, [0, R0FAST_CODE + 7], dst, op', x, goal);
      ii := ii + tt;
    }
    tt := tt / 2;
    while true
      invariant 1 <= bits <= 6 && tt == Chunk(bits) && ii <= end && end - ii < Chunk(bits + 1)
      invariant Storing(RBITS, text, ii, end, dst, op', x, goal)
      decreases bits
    {
      if end - ii >= tt {
        LargestIs(end - ii, bits);
        op', x := StorePiece(RBITS, text, ii, end, tt, [0, R0FAST_CODE + bits], dst, op', x, goal);
        ii := ii + tt;
      }
      tt, bits := tt / 2, bits - 1;
      if bits == 0 {
        break;
      }
    }
  }

  /** store_run of LZO1A: the same bytes as that of LZO1. */
  method StoreRun(text: seq<byte>, start: nat, end: nat, dst: array<byte>, op: nat, ghost e: seq<byte>)
    returns (op': nat)
    requires start < end <= |text|
    requires Has(dst, op, e) && op + |RunBytes(RBITS, text[start..end])| <= dst.Length
    modifies dst
    ensures Has(dst, op', e + RunBytes(RBITS, text[start..end]))
  {
    hide RunBytes;
    ghost var goal := e + RunBytes(RBITS, text[start..end]);
    var ii;
    ghost var x;
    ii, op', x := StoreLongRuns(text, start, end, dst, op, e, goal);
    while end - ii >= R0FAST
      invariant ii <= end < ii + LONG_RUN && Storing(RBITS, text, ii, end, dst, op', x, goal)
    {
      op', x := StorePiece(RBITS, text, ii, end, R0FAST, [0, R0FAST_CODE], dst, op', x, goal);
      ii := ii + R0FAST;
    }
    if end - ii >= R0MIN {
      op', x := StorePiece(RBITS, text, ii, end, end - ii, [0, end - ii - R0MIN], dst, op', x, goal);
    } else if end > ii {
      op', x := StorePiece(RBITS, text, ii, end, end - ii, [end - ii], dst, op', x, goal);
    }
    Stored(RBITS, text, end, end, dst, op', x, goal);
  }

  /** What has been written, with the marker of the last match patched. */
  function Patched(e: seq<byte>): seq<byte>
    requires |e| >= 2
  {
    e[|e| - 2 := e[|e| - 2] % R0MIN]
  }

  /** The whole output, when `e` has been written and `p` is still to come. `open`: `e` ends with a match of three bytes
      that came right after a short run or an R1 match, so that it may still become an R1 match. */
  function Whole(e: seq<byte>, p: Plan, open: bool): seq<byte>
    requires open ==> |e| >= 2
  {
    if open && Folds(p) then Patched(e) + p.lits + Encode(p, true) else e + Encode(p, false)
  }

  /** All positions patched, when `done` have been patched so far. */
  function AllPatches(done: set<nat>, n: nat, p: Plan, open: bool): set<nat>
    requires open ==> n >= 2
  {
    if open && Folds(p) then done + {n - 2} + Patches(p, true, n + 1) else done + Patches(p, false, n)
  }

  /** The literals of `p` have been written, by whatever means: `e1` and `done1` are what they leave. */
  predicate RunDone(e: seq<byte>, done: set<nat>, p: Plan, open: bool, e1: seq<byte>, done1: set<nat>)
    requires p.Link? && (open ==> |e| >= 2)
  {
    if open && Folds(p) then e1 == Patched(e) + p.lits && done1 == done + {|e| - 2}
    else e1 == e + RunBytes(RBITS, p.lits) && done1 == done
  }

  /** With the run done, the match and the rest are to come. */
  lemma RunThenBody(e: seq<byte>, done: set<nat>, p: Plan, open: bool, e1: seq<byte>, done1: set<nat>)
    requires p.Link? && Encodable(RBITS, p.off, p.len) && (open ==> |e| >= 2)
    requires RunDone(e, done, p, open, e1, done1)
    ensures Whole(e, p, open) == e1 + Body(p, open && Folds(p))
  {
    hide RunBytes, MatchBytes, Body, Patches;
    var run := RunBytes(RBITS, p.lits);
    assert [] + Body(p, true) == Body(p, true);
    assert e + (run + Body(p, false)) == e + run + Body(p, false);
  }

  /** And so are the patches. */
  lemma RunThenPatches(e: seq<byte>, done: set<nat>, p: Plan, open: bool, e1: seq<byte>, done1: set<nat>)
    requires p.Link? && Encodable(RBITS, p.off, p.len) && (open ==> |e| >= 2)
    requires RunDone(e, done, p, open, e1, done1)
    ensures var folded := open && Folds(p);
            AllPatches(done, |e|, p, open)
            == done1 + if R1(p, folded) then {|e1|} + Patches(p.next, true, |e1| + 3)
                       else Patches(p.next, false, |e1| + |MatchBytes(RBITS, p.off, p.len)|)
  {
    hide RunBytes, MatchBytes, Body, Encode;
  }

  lemma PatchMatch(e: seq<byte>, off: nat, lit: seq<byte>)
    requires Encodable(RBITS, off, MIN_MATCH) && |lit| == 1
    ensures |MatchBytes(RBITS, off, MIN_MATCH)| == 2
    ensures Patched(e + MatchBytes(RBITS, off, MIN_MATCH)) + lit == e + R1Bytes(off, lit[0])
  {
    hide Low, High;
  }

  /** After the match of `p`, the output will be the same; the match is open if it has three bytes and came after a
      short run or an R1 match. */
  lemma MatchDone(e: seq<byte>, done: set<nat>, p: Plan, open: bool, e1: seq<byte>, done1: set<nat>)
    requires p.Link? && Encodable(RBITS, p.off, p.len) && (open ==> |e| >= 2)
    requires RunDone(e, done, p, open, e1, done1)
    ensures var e2 := e1 + MatchBytes(RBITS, p.off, p.len);
            var open2 := Short(p.lits) && p.len == MIN_MATCH;
            && (open2 ==> |e2| >= 2)
            && Whole(e2, p.next, open2) == Whole(e, p, open)
            && AllPatches(done1, |e2|, p.next, open2) == AllPatches(done, |e|, p, open)
  {
    hide RunDone, Encode, MatchBytes, R1Bytes, Patches, Patched;
    var folded := open && Folds(p);
    var mb := MatchBytes(RBITS, p.off, p.len);
    RunThenBody(e, done, p, open, e1, done1);
    RunThenPatches(e, done, p, open, e1, done1);
    if R1(p, folded) {
      PatchMatch(e1, p.off, p.next.lits);
      R1Length(p.off, p.next.lits[0]);
      assert e1 + R1Bytes(p.off, p.next.lits[0]) + Encode(p.next, true)
          == e1 + (R1Bytes(p.off, p.next.lits[0]) + Encode(p.next, true));
    } else {
      if Short(p.lits) && p.len == MIN_MATCH {
        PatchMatch(e1, p.off, [0]);
      }
      assert e1 + mb + Encode(p.next, false) == e1 + (mb + Encode(p.next, false));
    }
  }

  /** What must be left in the destination for the run of `p`, and for its match after that. */
  lemma Room(e: seq<byte>, p: Plan, open: bool)
    requires p.Link? && Encodable(RBITS, p.off, p.len) && (open ==> |e| >= 2)
    ensures open && Folds(p) ==> |e| + 1 + |MatchBytes(RBITS, p.off, p.len)| <= |Whole(e, p, open)|
    ensures !(open && Folds(p)) ==>
              |e| + |RunBytes(RBITS, p.lits)| + |MatchBytes(RBITS, p.off, p.len)| <= |Whole(e, p, open)|
  {
    hide RunBytes, R1Bytes, MatchBytes, Encode, Whole, AllPatches;
    var folded := open && Folds(p);
    var e1 := if folded then Patched(e) + p.lits else e + RunBytes(RBITS, p.lits);
    RunThenBody(e, {}, p, open, e1, if folded then {|e| - 2} else {});
    if R1(p, folded) {
      PatchMatch([], p.off, [0]);
      R1Length(p.off, p.next.lits[0]);
    }
  }

  /** The literal run before a match: folded into the match before, or a short run, or an R0 run. */
  method PutRun(text: seq<byte>, ii: nat, ip: nat, r1: int, dst: array<byte>, op: nat, ghost e: seq<byte>,
                ghost done: set<nat>, ghost p: Plan)
    returns (op': nat, r1': int, ghost e1: seq<byte>, ghost done1: set<nat>)
    requires ii <= ip <= |text| && (r1 + MIN_MATCH <= ii || ip < r1) && (r1 + MIN_MATCH == ii ==> op >= 2)
    requires p.Link? && p.lits == text[ii..ip] && Encodable(RBITS, p.off, p.len)
    requires Has(dst, op, e) && |Whole(e, p, r1 + MIN_MATCH == ii)| <= dst.Length
    modifies dst
    ensures op == |e| && RunDone(e, done, p, r1 + MIN_MATCH == ii, e1, done1) && Has(dst, op', e1)
    ensures r1' == if Short(p.lits) then ip else r1
  {
    hide RunBytes, Whole, MatchBytes;
    Room(e, p, r1 + MIN_MATCH == ii);
    ghost var run := RunBytes(RBITS, p.lits);
    op', r1', e1, done1 := op, r1, e + run, done;
    var t := ip - ii;
    if t == 0 {
      NoRun(RBITS, p.lits);
      assert e + run == e;
    } else if ip - r1 == MIN_MATCH + 1 {
      dst[op - 2] := dst[op - 2] % R0MIN;
      dst[op] := text[ii];
      op', r1', e1, done1 := op + 1, ip, Patched(e) + p.lits, done + {|e| - 2};
    } else if t < R0MIN {
      ShortRun(RBITS, p.lits);
      op' := PutPiece(text, ii, t, [t], dst, op, e);
      r1' := ip;
      assert e + [t as byte] + text[ii..ip] == e + run;
    } else if t < R0FAST {
      MiddleRun(p.lits);
      op' := PutPiece(text, ii, t, [0, t - R0MIN], dst, op, e);
      r1' := ip;
      assert e + [0, (t - R0MIN) as byte] + text[ii..ip] == e + run;
    } else {
      op' := StoreRun(text, ii, ip, dst, op, e);
    }
  }

  lemma MiddleRun(lits: seq<byte>)
    requires R0MIN <= |lits| < R0FAST
    ensures RunBytes(RBITS, lits) == [0, (|lits| - R0MIN) as byte] + lits
  {
    NoRun(RBITS, lits[|lits|..]);
  }

  lemma WholeAtEnd(e: seq<byte>, done: set<nat>, lits: seq<byte>, open: bool)
    requires open ==> |e| >= 2
    ensures Whole(e, Rest(lits), open) == e + RunBytes(RBITS, lits)
    ensures AllPatches(done, |e|, Rest(lits), open) == done
  {
  }

  lemma WholeAtStart(p: Plan)
    ensures Whole([], p, false) == Encode(p, false) && AllPatches({}, 0, p, false) == Patches(p, false, 0)
  {
  }

  /** The final literal run. */
  method StoreRest(text: seq<byte>, ii: nat, dst: array<byte>, op: nat, ghost e: seq<byte>) returns (op': nat)
    requires ii <= |text| && Has(dst, op, e) && op + |RunBytes(RBITS, text[ii..])| <= dst.Length
    modifies dst
    ensures Has(dst, op', e + RunBytes(RBITS, text[ii..]))
  {
    hide RunBytes, Has;
    op' := op;
    assert text[ii..|text|] == text[ii..];
    if ii < |text| {
      op' := StoreRun(text, ii, |text|, dst, op, e);
    } else {
      NoRun(RBITS, text[ii..]);
      assert e + [] == e;
    }
  }

  /** The current literal run and a match. */
  method PutLink(text: seq<byte>, ii: nat, ip: nat, off: nat, len: nat, r1: int, dst: array<byte>, op: nat,
                 ghost e: seq<byte>, ghost done: set<nat>, ghost p: Plan)
    returns (op': nat, r1': int, ghost e': seq<byte>, ghost done': set<nat>)
    requires ii <= ip <= |text| && (r1 + MIN_MATCH <= ii || ip < r1) && (r1 + MIN_MATCH == ii ==> |e| >= 2)
    requires p.Link? && p.lits == text[ii..ip] && p.off == off && p.len == len && Encodable(RBITS, off, len)
    requires Has(dst, op, e) && |Whole(e, p, r1 + MIN_MATCH == ii)| <= dst.Length
    modifies dst
    ensures Has(dst, op', e') && r1' == if 0 < ip - ii < R0FAST then ip else r1
    ensures var open := 0 < ip - ii < R0FAST && len == MIN_MATCH;
            && (open ==> |e'| >= 2)
            && Whole(e', p.next, open) == Whole(e, p, r1 + MIN_MATCH == ii)
            && AllPatches(done', |e'|, p.next, open) == AllPatches(done, |e|, p, r1 + MIN_MATCH == ii)
  {
    hide RunBytes, MatchBytes, Encodable, Whole, AllPatches, Has;
    HasLength(dst, op, e);
    Room(e, p, r1 + MIN_MATCH == ii);
    ghost var e1;
    op', r1', e1, done' := PutRun(text, ii, ip, r1, dst, op, e, done, p);
    MatchDone(e, done, p, r1 + MIN_MATCH == ii, e1, done');
    HasLength(dst, op', e1);
    op' := StoreMatch(RBITS, off, len, dst, op', e1);
    e' := e1 + MatchBytes(RBITS, off, len);
  }

  /** Whether the last match may still become an R1 match; `r1` is where the match after a short run or an R1 match
      started, and IpEnd when there was none. */
  predicate Open(c: Input, r1: int, ii: nat) {
    r1 + MIN_MATCH == ii && r1 != IpEnd(c)
  }

  /** The loop of do_compress. `done` collects the positions of the markers it patches. */
  method CompressLoop(c: Input, dst: array<byte>, ghost goal: seq<byte>) returns (op: nat, ghost done: set<nat>)
    requires c.rb == RBITS && |c.text| > MinMatchLong(RBITS) + DVAL_LEN + 1
    requires goal == Encode(Greedy(c, 0, 1), false) && |goal| <= dst.Length
    modifies dst
    ensures Has(dst, op, goal) && done == Patches(Greedy(c, 0, 1), false, 0)
  {
    hide Encode, Patches, RunBytes, Find, Greedy, MatchLen, Encodable, Whole, AllPatches, Has;
    ghost var all := Patches(Greedy(c, 0, 1), false, 0);
    WholeAtStart(Greedy(c, 0, 1));
    HasNothing(dst);
    op, done := 0, {};
    var ii: nat, ip: nat, r1 := 0, 1, IpEnd(c);
    ghost var e := [];
    while ip < IpEnd(c)
      invariant ii <= ip <= |c.text| && Has(dst, op, e)
      invariant r1 + MIN_MATCH <= ii || r1 == IpEnd(c)
      invariant Open(c, r1, ii) ==> |e| >= 2
      invariant Whole(e, Greedy(c, ii, ip), Open(c, r1, ii)) == goal
      invariant AllPatches(done, |e|, Greedy(c, ii, ip), Open(c, r1, ii)) == all
      decreases |c.text| - ip
    {
      var m := Find(c, ip);
      if m.None? {
        GreedyNone(c, ii, ip);
        ip := ip + 1;
      } else {
        GreedySome(c, ii, ip);
        var len := MeasureMatch(c, ip, m.value);
        op, r1, e, done := PutLink(c.text, ii, ip, ip - m.value, len, r1, dst, op, e, done, Greedy(c, ii, ip));
        ip := ip + len;
        ii := ip;
      }
    }
    GreedyEnd(c, ii, ip);
    WholeAtEnd(e, done, c.text[ii..], Open(c, r1, ii));
    HasLength(dst, op, e);
    op := StoreRest(c.text, ii, dst, op, e);
  }

  lemma HasNothing(dst: array<byte>)
    ensures Has(dst, 0, [])
  {
  }

  /** lzo1a_compress. `patched` is the set of positions where a marker was written twice. */
  method Compress(c: Input, dst: array<byte>) returns (n: nat, ghost patched: set<nat>)
    requires c.rb == RBITS && |c.text| + (|c.text| + 3) / (R0MIN + 3) + 1 <= dst.Length
    modifies dst
    ensures n == |Encode(Choice(c), false)| <= dst.Length && dst[..n] == Encode(Choice(c), false)
    ensures patched == Patches(Choice(c), false, 0)
  {
    hide Encode, RunBytes, Greedy, Patches;
    Expansion(c);
    if |c.text| <= MinMatchLong(RBITS) + DVAL_LEN + 1 {
      WholeAtEnd([], {}, c.text, false);
      WholeAtStart(Rest(c.text));
      assert c.text[0..] == c.text;
      n := StoreRest(c.text, 0, dst, 0, []);
      patched := {};
    } else {
      n, patched := CompressLoop(c, dst, Encode(Choice(c), false));
    }
  }

  // ---------- the decompressor ----------

  /** lzo1a_decompress, of a well-formed block: at the top of the loop, or in the after-literal loop. */
  method Decompress(src: seq<byte>, dst: array<byte>) returns (n: nat)
    requires Decode(src, 0, [], false).Some? && |Decode(src, 0, [], false).value| <= dst.Length
    modifies dst
    ensures n <= dst.Length && Decode(src, 0, [], false) == Some(dst[..n])
  {
    hide ReadRun, ReadMatch, CopyMatch;
    ghost var goal := Decode(src, 0, [], false);
    var ip: nat, op: nat := 0, 0;
    assert dst[..0] == [];
    while ip < |src|
      invariant ip <= |src| && op <= dst.Length && Decode(src, ip, dst[..op], false) == goal
      decreases |src| - ip
    {
      if src[ip] < R0MIN {
        var short;
        ip, op, short := DecodeLiterals(src, ip, dst, op, goal);
        if !short {
          continue;
        }
        while ip < |src| && src[ip] < R0MIN
          invariant ip <= |src| && op <= dst.Length && Decode(src, ip, dst[..op], true) == goal
          decreases |src| - ip
        {
          op := DecodeOneR1(src, ip, dst, op, goal);
          ip := ip + 3;
        }
        if ip == |src| {
          break;
        }
        ip, op := DecodeOneMatch(src, ip, dst, op, true, goal);
      } else {
        ip, op := DecodeOneMatch(src, ip, dst, op, false, goal);
      }
    }
    n := op;
  }

  lemma {:induction false} DecodeExtends(src: seq<byte>, ip: nat, out: seq<byte>, after: bool)
    requires ip <= |src| && Decode(src, ip, out, after).Some?
    ensures |out| <= |Decode(src, ip, out, after).value|
    decreases |src| - ip
  {
    hide ReadRun, ReadMatch, CopyMatch, LeavesLiteral;
    if ip < |src| {
      if src[ip] >= R0MIN {
        var u := ReadMatch(RBITS, src, ip);
        DecodeExtends(src, u.next, CopyMatch(out, u.off, u.len), false);
      } else if !after {
        var u := ReadRun(RBITS, src, ip);
        DecodeExtends(src, u.from + u.n, out + src[u.from..u.from + u.n], LeavesLiteral(src, ip));
      } else {
        DecodeExtends(src, ip + 3, CopyMatch(out, 1 + src[ip] + src[ip + 1] * R0MIN, MIN_MATCH) + [src[ip + 2]], true);
      }
    }
  }

  /** A literal run; whether it is followed by a match only. */
  method DecodeLiterals(src: seq<byte>, ip: nat, dst: array<byte>, op: nat, ghost goal: Option<seq<byte>>)
    returns (ip': nat, op': nat, short: bool)
    requires ip < |src| && src[ip] < R0MIN && op <= dst.Length
    requires Decode(src, ip, dst[..op], false) == goal && goal.Some? && |goal.value| <= dst.Length
    modifies dst
    ensures ip < ip' <= |src| && op' <= dst.Length && Decode(src, ip', dst[..op'], short) == goal
  {
    hide ReadRun, ReadMatch, CopyMatch;
    assert ReadRun(RBITS, src, ip).Run?;
    var from, n := ReadRunLength(RBITS, src, ip);
    DecodePiece(src, ip, from, n, dst[..op]);
    DecodeExtends(src, from + n, dst[..op] + src[from..from + n], LeavesLiteral(src, ip));
    short := src[ip] != 0 || src[ip + 1] < R0FAST_CODE;
    RunHasLength(src, ip);
    CopyLiterals(src, from, n, dst, op);
    ip', op' := from + n, op + n;
  }

  lemma RunHasLength(src: seq<byte>, ip: nat)
    requires ip < |src| && ReadRun(RBITS, src, ip).Run?
    ensures src[ip] == 0 ==> ip + 1 < |src|
  {
  }

  /** A match. */
  method DecodeOneMatch(src: seq<byte>, ip: nat, dst: array<byte>, op: nat, ghost after: bool,
                        ghost goal: Option<seq<byte>>) returns (ip': nat, op': nat)
    requires ip < |src| && src[ip] >= R0MIN && op <= dst.Length
    requires Decode(src, ip, dst[..op], after) == goal && goal.Some? && |goal.value| <= dst.Length
    modifies dst
    ensures ip < ip' <= |src| && op' <= dst.Length && Decode(src, ip', dst[..op'], false) == goal
  {
    hide ReadRun, ReadMatch, CopyMatch;
    ghost var u := ReadMatch(RBITS, src, ip);
    DecodeExtends(src, u.next, CopyMatch(dst[..op], u.off, u.len), false);
    var off, len, next := ReadMatchParts(RBITS, src, ip);
    CopyBack(dst, op, off, len);
    ip', op' := next, op + len;
  }

  /** An R1 match: three bytes and a literal. */
  method DecodeOneR1(src: seq<byte>, ip: nat, dst: array<byte>, op: nat, ghost goal: Option<seq<byte>>)
    returns (op': nat)
    requires ip < |src| && src[ip] < R0MIN && op <= dst.Length
    requires Decode(src, ip, dst[..op], true) == goal && goal.Some? && |goal.value| <= dst.Length
    modifies dst
    ensures ip + 3 <= |src| && op' <= dst.Length && Decode(src, ip + 3, dst[..op'], true) == goal
  {
    hide ReadRun, ReadMatch, CopyMatch;
    var off := 1 + src[ip] + src[ip + 1] * R0MIN;
    DecodeExtends(src, ip + 3, CopyMatch(dst[..op], off, MIN_MATCH) + [src[ip + 2]], true);
    CopyBack(dst, op, off, MIN_MATCH);
    assert src[ip + 2..ip + 3] == [src[ip + 2]];
    CopyLiterals(src, ip + 2, 1, dst, op + MIN_MATCH);
    op' := op + MIN_MATCH + 1;
  }

  /** For every input and every dictionary, what was compressed decompresses to the input. */
  method CompressDecompress(c: Input, out: array<byte>) returns (n: nat)
    requires c.rb == RBITS && out.Length == |c.text|
    modifies out
    ensures n == |c.text| && out[..n] == c.text
  {
    hide Encode, Choice, Decode, Patches;
    var dst := new byte[|c.text| + (|c.text| + 3) / (R0MIN + 3) + 1](_ => 0);
    var k, patched := Compress(c, dst);
    RoundTrip(c);
    n := Decompress(dst[..k], out);
  }

  // ---------- known bytes ----------

  /** Forty equal bytes become nine. */
  lemma KnownBlock(c: Input)
    requires Even(c)
    ensures Encode(Choice(c), false) == [1, 97, 0xe0, 0, 27, 3, 97, 97, 97]
  {
    hide RunBytes, Greedy;
    KnownChoice(c);
    OnePiece(5, [97]);
    OnePiece(5, [97, 97, 97]);
    assert Encode(Rest([97, 97, 97]), false) == [3, 97, 97, 97];
  }

  /** A match of three bytes and a literal, folded into three bytes. */
  lemma KnownFold()
    ensures Encode(Link([1, 2, 3, 4], 4, 3, Link([9], 34, 3, Rest([]))), false) == [4, 1, 2, 3, 4, 3, 0, 9, 0x21, 1]
  {
    hide RunBytes;
    OnePiece(5, [1, 2, 3, 4]);
    NoRun(5, []);
    var q := Link([9], 34, 3, Rest([]));
    assert Encode(Rest([]), false) == [];
    assert Encode(q, true) == [0x21, 1];
  }
}
