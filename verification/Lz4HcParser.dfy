/** LZ4HC_compress_hashChain: the lazy parser that weighs three overlapping matches. */
module Lz4HcParser {
  import opened Bytes
  import opened Lz4Format
  import opened Lz4RoundTrip
  import opened Lz4Emit
  import opened Lz4Match
  import opened Lz4HcEmit
  import opened Lz4HcIndex
  import Fast = Lz4Fast

  /** OPTIMAL_ML: the longest match whose length needs no extra byte. */
  const OPTIMAL_ML := 18

  // ---------- the parser ----------

  /** Where the parser is: at the head of its loop, or at one of its labels, with the matches it holds there.
      `m0` is the match saved "in case we would skip too much". */
  datatype State =
    | Main(ip: nat)
    | Search2(m1: Match, m0: Match)
    | Search3(m1: Match, m2: Match)

  /** What holds at each label; `next` is the first position that is not in the index. */
  predicate Inv(text: seq<byte>, s: State, anchor: nat, next: int) {
    match s
    case Main(ip) => anchor <= ip <= |text| && next <= ip
    case Search2(m1, m0) =>
      && Usable(text, m1) && Usable(text, m0)
      && anchor <= m0.start <= m1.start <= m0.start + 2 && m0.len <= m1.len
      && next <= m1.End() - 2
    case Search3(m1, m2) =>
      && Usable(text, m1) && Usable(text, m2)
      && anchor <= m1.start && m1.End() + MFLIMIT < |text|
      && MINMATCH < m2.len && m1.start + 2 <= m2.start <= m1.End() + 1
      && 2 * MINMATCH <= m2.End() - m1.start
      && next <= m2.End() - 3
  }

  /** The position of the next search: it grows at every step. */
  function Reach(s: State): int {
    match s
    case Main(ip) => ip
    case Search2(m1, m0) => m1.End() - 2
    case Search3(m1, m2) => m2.End() - 3
  }

  /** A search at `at` for a match longer than `longest` that starts at `iLow` or later. */
  method FindWider(s: Search, ctx: Context, at: nat, iLow: nat, longest: nat) returns (m: Match)
    requires ctx.Indexed(s) && ctx.nextToUpdate <= at + FIRST
    requires iLow <= at <= iLow + longest && at + MFLIMIT < |s.text| && iLow + longest + LASTLITERALS <= |s.text|
    modifies ctx, ctx.hashTable, ctx.chainTable
    ensures ctx.Indexed(s) && ctx.nextToUpdate == at + FIRST
    ensures longest <= m.len
    ensures longest < m.len ==> Usable(s.text, m) && iLow <= m.start <= at && at + MINMATCH <= m.End()
    ensures at == iLow && longest >= MINMATCH - 1 && s.attempts > 0 ==>
              LatestTried(s, ctx.hashTable.Length, at, |s.text| - LASTLITERALS, m.len)
    ensures !(s.patternAnalysis && Uniform(s.text, at)) ==>
              Tried(s, ctx.hashTable.Length, at, iLow, |s.text| - LASTLITERALS, m.len)
  {
    hide Context.Indexed, Search.Indexed, RealMatch, Longest, LatestTried, Tried, Uniform;
    var len, start, ref := ctx.InsertAndGetWiderMatch(s, at, iLow, |s.text| - LASTLITERALS, longest);
    m := Match(start, ref, len);
  }

  method StepMain(s: Search, ctx: Context, ip: nat, anchor: nat) returns (st: State)
    requires ctx.Indexed(s) && Inv(s.text, Main(ip), anchor, ctx.nextToUpdate - FIRST) && ip + MFLIMIT < |s.text|
    modifies ctx, ctx.hashTable, ctx.chainTable
    ensures ctx.Indexed(s) && Inv(s.text, st, anchor, ctx.nextToUpdate - FIRST) && ip < Reach(st)
    ensures st == Main(ip + 1) || (st.Search2? && st.m1 == st.m0 && st.m1.start == ip)
    ensures s.attempts > 0 ==> LatestTried(s, ctx.hashTable.Length, ip, |s.text| - LASTLITERALS,
                                           if st.Main? then MINMATCH - 1 else st.m1.len)
    ensures !(s.patternAnalysis && Uniform(s.text, ip)) ==>
              Tried(s, ctx.hashTable.Length, ip, ip, |s.text| - LASTLITERALS,
                    if st.Main? then MINMATCH - 1 else st.m1.len)
  {
    hide Context.Indexed, Usable, LatestTried, Tried, Uniform;
    var m := FindWider(s, ctx, ip, ip, MINMATCH - 1);
    st := if m.len < MINMATCH then Main(ip + 1) else Search2(m, m);
    UsableFacts(s.text, m);
  }

  /** No longer match covers the end of this one. */
  ghost predicate NoneWider(text: seq<byte>, m1: Match) {
    forall m :: Usable(text, m) && m1.start <= m.start ==> m.len <= m1.len
  }

  method StepSearch2(s: Search, ctx: Context, m1: Match, m0: Match, dst: array<byte>, op: nat, anchor: nat, o: Limit,
                     ghost lim: nat, ghost p: Parse)
    returns (ok: bool, st: State, op': nat, anchor': nat, ghost p': Parse)
    requires ctx.Indexed(s) && Inv(s.text, Search2(m1, m0), anchor, ctx.nextToUpdate - FIRST)
    requires Emitted(s.text, dst, op, p, anchor) && Room(|s.text|, o, lim) && lim <= dst.Length
    modifies ctx, ctx.hashTable, ctx.chainTable, dst
    ensures !ok ==> o.limited && o.olimit < Bound(|s.text|)
    ensures ok ==> ctx.Indexed(s) && Inv(s.text, st, anchor', ctx.nextToUpdate - FIRST)
    ensures ok ==> Reach(Search2(m1, m0)) < Reach(st)
    ensures ok ==> Emitted(s.text, dst, op', p', anchor')
    ensures NoneWider(s.text, m1) ==>
              EncodedOr(s.text, dst[..], op, anchor, m1, o, ok, op') && st == Main(m1.End()) && anchor' == m1.End()
    ensures forall k :: lim <= k < dst.Length ==> dst[k] == old(dst[k])
  {
    hide Context.Indexed, Usable, Emitted, Bound, Room, LiteralsGuard, MatchGuard, RunWritten;
    UsableFacts(s.text, m1);
    UsableFacts(s.text, m0);
    var m2 := m1;
    if m1.End() + MFLIMIT < |s.text| {
      m2 := FindWider(s, ctx, m1.End() - 2, m1.start, m1.len);
    }
    if m2.len == m1.len {
      ok, op', p' := EncodeSequence(s.text, dst, op, anchor, m1, o, lim, p);
      return ok, Main(m1.End()), op', m1.End(), p';
    }
    ok, op', anchor', p' := true, op, anchor, p;
    UsableFacts(s.text, m2);
    var m1' := if m0.start < m1.start && m2.start < m1.start + m0.len then m0 else m1;
    st := if m2.start - m1'.start < 3 then Search2(m2, m0) else Search3(m1', m2);
  }

  /** Length the first of two overlapping matches keeps. */
  function NewLength(m1: Match, m2: Match): int {
    var ml := if m1.len > OPTIMAL_ML then OPTIMAL_ML else m1.len;
    if m1.start + ml > m2.End() - MINMATCH then m2.End() - m1.start - MINMATCH else ml
  }

  /** The correction at label Search3: the second match gives up what the first one keeps. */
  function Correct(m1: Match, m2: Match): Match
    requires MINMATCH <= m2.len
  {
    var correction := NewLength(m1, m2) - (m2.start - m1.start);
    if m2.start - m1.start < OPTIMAL_ML && correction > 0 then m2.Drop(correction) else m2
  }

  lemma CorrectKeeps(text: seq<byte>, m1: Match, m2: Match)
    requires Usable(text, m1) && Usable(text, m2) && m1.End() + MFLIMIT < |text|
    requires m1.start <= m2.start <= m1.End() + 1 && 2 * MINMATCH <= m2.End() - m1.start
    ensures MINMATCH <= m2.len
    ensures var m := Correct(m1, m2);
            && Usable(text, m) && m.End() == m2.End() && m2.start <= m.start && m.len <= m2.len
            && m1.start + MINMATCH <= m.start <= m1.End() + 1
            && (m.start == m1.End() + 1 ==> m == m2)
  {
    hide Usable;
    UsableFacts(text, m1);
    UsableFacts(text, m2);
    var correction := NewLength(m1, m2) - (m2.start - m1.start);
    if m2.start - m1.start < OPTIMAL_ML && correction > 0 {
      DropUsable(text, m2, correction);
    }
  }

  method StepSearch3(s: Search, ctx: Context, m1: Match, m2': Match, dst: array<byte>, op: nat, anchor: nat, o: Limit,
                     ghost lim: nat, ghost p: Parse)
    returns (ok: bool, st: State, op': nat, anchor': nat, ghost p': Parse)
    requires ctx.Indexed(s) && Inv(s.text, Search3(m1, m2'), anchor, ctx.nextToUpdate - FIRST)
    requires Emitted(s.text, dst, op, p, anchor) && Room(|s.text|, o, lim) && lim <= dst.Length
    modifies ctx, ctx.hashTable, ctx.chainTable, dst
    ensures !ok ==> o.limited && o.olimit < Bound(|s.text|)
    ensures ok ==> ctx.Indexed(s) && Inv(s.text, st, anchor', ctx.nextToUpdate - FIRST)
    ensures ok ==> Reach(Search3(m1, m2')) < Reach(st)
    ensures ok ==> Emitted(s.text, dst, op', p', anchor')
    ensures forall k :: lim <= k < dst.Length ==> dst[k] == old(dst[k])
  {
    hide Context.Indexed, Usable, Emitted, Bound, Correct, Room, LiteralsGuard, MatchGuard, RunWritten;
    UsableFacts(s.text, m1);
    CorrectKeeps(s.text, m1, m2');
    var m2 := Correct(m1, m2');
    UsableFacts(s.text, m2);
    var m3 := m2;
    if m2.End() + MFLIMIT < |s.text| {
      m3 := FindWider(s, ctx, m2.End() - 3, m2.start, m2.len);
    }
    if m3.len == m2.len {
      ok, op', p' := EncodeTwo(s.text, dst, op, anchor, m1, m2, o, lim, p);
      return ok, Main(m2.End()), op', m2.End(), p';
    }
    UsableFacts(s.text, m3);
    if m3.start < m1.End() + 3 {
      if m3.start >= m1.End() {
        var m0 := SecondAfterFirst(s.text, m1, m2, m3);
        ok, op', p' := EncodeSequence(s.text, dst, op, anchor, m1, o, lim, p);
        return ok, Search2(m3, m0), op', m1.End(), p';
      }
      return true, Search3(m1, m3), op, anchor, p;
    }
    var first, second := FirstOfThree(s.text, m1, m2);
    ok, op', p' := EncodeSequence(s.text, dst, op, anchor, first, o, lim, p);
    return ok, Search3(second, m3), op', first.End(), p';
  }

  /** Two matches, the first cut where the second starts. */
  method EncodeTwo(text: seq<byte>, dst: array<byte>, op: nat, anchor: nat, m1: Match, m2: Match, o: Limit,
                   ghost lim: nat, ghost p: Parse) returns (ok: bool, op': nat, ghost p': Parse)
    requires Emitted(text, dst, op, p, anchor) && anchor <= m1.start && Room(|text|, o, lim) && lim <= dst.Length
    requires Usable(text, m1) && Usable(text, m2) && m1.start + MINMATCH <= m2.start
    modifies dst
    ensures !ok ==> o.limited && o.olimit < Bound(|text|)
    ensures ok ==> Emitted(text, dst, op', p', m2.End())
    ensures forall k :: lim <= k < dst.Length ==> dst[k] == old(dst[k])
  {
    hide Usable, Emitted, Bound, Room, LiteralsGuard, MatchGuard, RunWritten;
    UsableFacts(text, m1);
    var m := m1;
    if m2.start < m1.End() {
      m := m1.(len := m2.start - m1.start);
      CutUsable(text, m1, m.len);
    }
    ok, op', p' := EncodeSequence(text, dst, op, anchor, m, o, lim, p);
    if ok {
      ok, op', p' := EncodeSequence(text, dst, op', m.End(), m2, o, lim, p');
    }
  }

  /** What remains of the second match when the first is written whole; or the third, when that is too little. */
  method SecondAfterFirst(text: seq<byte>, m1: Match, m2: Match, m3: Match) returns (m0: Match)
    requires Usable(text, m1) && Usable(text, m2) && Usable(text, m3) && m1.End() + MFLIMIT < |text|
    requires m1.End() <= m3.start < m1.End() + 3 && m1.start <= m2.start <= m3.start && m2.len < m3.len
    requires m1.End() <= m2.End()
    ensures Usable(text, m0) && m1.End() <= m0.start <= m3.start && m0.len <= m3.len
  {
    hide Usable;
    m0 := m2;
    if m2.start < m1.End() {
      var correction := m1.End() - m2.start;
      if m2.len < correction + MINMATCH {
        m0 := m3;
      } else {
        m0 := m2.Drop(correction);
        DropUsable(text, m2, correction);
      }
    }
  }

  /** The first of three ascending matches, and the second without what the first keeps. */
  method FirstOfThree(text: seq<byte>, m1: Match, m2: Match) returns (first: Match, second: Match)
    requires Usable(text, m1) && Usable(text, m2) && m1.End() + MFLIMIT < |text| && m1.start + MINMATCH <= m2.start
    ensures Usable(text, first) && first.start == m1.start
    ensures Usable(text, second) && second.End() == m2.End() && first.End() <= second.start
    ensures m2.start < m1.End() ==> second.start <= m1.End()
    ensures m1.End() <= m2.start ==> second == m2
  {
    hide Usable;
    UsableFacts(text, m1);
    UsableFacts(text, m2);
    first, second := m1, m2;
    if m2.start < m1.End() {
      if m2.start - m1.start < ML_MASK {
        var ml := NewLength(m1, m2);
        var correction := ml - (m2.start - m1.start);
        CutUsable(text, m1, ml);
        first := m1.(len := ml);
        if correction > 0 {
          DropUsable(text, m2, correction);
          second := m2.Drop(correction);
        }
      } else {
        CutUsable(text, m1, m2.start - m1.start);
        first := m1.(len := m2.start - m1.start);
      }
    }
  }

  // ---------- beyond the guards ----------

  /** On an input with one or two matches: at the head of the loop before the next of them, or with it. */
  predicate OnTheWay(st: State, a: nat, b: nat, op: nat, anchor: nat) {
    var next := if op == 0 then a else b;
    && (if op == 0 then anchor == 0 else a < b && op == OpBefore(a, b) && anchor == AnchorBefore(a, b))
    && match st
       case Main(ip) => anchor <= ip <= next
       case Search2(m1, m0) => m1.start == next && m1.len == MINMATCH
       case Search3(m1, m2) => false
  }

  /** Where there is no match none is found, and the next one is. */
  lemma AfterMain(s: Search, size: nat, a: nat, b: nat, op: nat, anchor: nat, ip: nat, st: State)
    requires 0 < size && ip + MFLIMIT < |s.text| && 0 < s.attempts
    requires st == Main(ip + 1) || (st.Search2? && st.m1.start == ip && Usable(s.text, st.m1))
    requires LatestTried(s, size, ip, |s.text| - LASTLITERALS, if st.Main? then MINMATCH - 1 else st.m1.len)
    ensures Matchless(s.text) ==> st.Main?
    ensures Sparse(s.text, a, b) && OnTheWay(Main(ip), a, b, op, anchor) ==> OnTheWay(st, a, b, op, anchor)
  {
    hide CommonLen, RealMatch, Usable, MatchlessTo, Latest, LatestTried, OnlyAt, Agree;
    if st.Search2? {
      NotMatchless(s.text, st.m1, |s.text| - MFLIMIT);
      UsableFacts(s.text, st.m1);
    }
    if Sparse(s.text, a, b) {
      if st.Search2? {
        SparseMatch(s.text, a, b, st.m1);
      } else if ip == a || ip == b {
        RepeatFound(s, size, ip, MINMATCH - 1);
      }
    }
  }

  /** The position just before has the same four bytes, and so is the latest candidate. */
  lemma RepeatFound(s: Search, size: nat, ip: nat, len: nat)
    requires 0 < size && 0 < ip && ip + MFLIMIT < |s.text| && Agree(s.text, ip - 1, ip, MINMATCH)
    requires LatestTried(s, size, ip, |s.text| - LASTLITERALS, len)
    ensures MINMATCH <= len
  {
    hide CommonLen, Agree;
    CommonLenAgree(s.text, ip - 1, ip, |s.text| - LASTLITERALS, MINMATCH);
    SameHash(s, ip - 1, ip, |s.text| - LASTLITERALS, size);
    assert Latest(s, size, ip - 1, ip);
  }

  lemma NoneWiderThanFour(text: seq<byte>, a: nat, b: nat, m1: Match)
    requires m1.len == MINMATCH
    ensures Sparse(text, a, b) ==> NoneWider(text, m1)
  {
    hide Usable, Sparse;
    if Sparse(text, a, b) {
      forall m | Usable(text, m)
        ensures m.len <= m1.len
      {
        SparseMatch(text, a, b, m);
      }
    }
  }

  // ---------- repeated text ----------

  /** A text that repeats its first `d` bytes, in which nothing repeats. The chain leads back to the first position
      before the attempts are used up. */
  ghost predicate Repeating(s: Search, size: nat, d: nat)
    requires 0 < size
  {
    && 0 < d <= MAX_DISTANCE && d + MFLIMIT < |s.text| && Repeats(s.text, d, |s.text|, d)
    && (forall ip: nat, m: nat :: ip < d ==> !RealMatch(s.text, ip, m, MINMATCH))
    && Later(s, size, 0, d) < s.attempts && !(s.patternAnalysis && Uniform(s.text, d))
  }

  /** One sequence with all that repeats, if both guards pass. */
  predicate OneMatch(n: nat, d: nat, o: Limit, ok: bool, op: nat, anchor: nat) {
    && d + MFLIMIT < n
    && (ok <==> o.Allows(LiteralsGuard(0, d)) && o.Allows(MatchGuard(Fast.MatchAt(d), n - d - 9)))
    && (ok ==> op == Fast.MatchAt(d) + LenCost(n - d - 9) && anchor == n - LASTLITERALS)
  }

  /** Before the repetition, with the match of all that repeats, or behind it. */
  predicate OnTheRepetition(st: State, n: nat, d: nat, o: Limit, op: nat, anchor: nat)
    requires d + MFLIMIT < n
  {
    match st
    case Main(ip) =>
      if ip <= d then op == 0 && anchor == 0
      else ip == anchor == n - LASTLITERALS && OneMatch(n, d, o, true, op, anchor)
    case Search2(m1, m0) => op == 0 && anchor == 0 && m1.start == d && m1.End() == n - LASTLITERALS
    case Search3(m1, m2) => false
  }

  /** Nothing is found before the repetition, and all of it is found there. */
  lemma RepetitionFound(s: Search, size: nat, d: nat, ip: nat, st: State, o: Limit)
    requires 0 < size && Repeating(s, size, d) && ip <= d
    requires st == Main(ip + 1) || (st.Search2? && st.m1.start == ip && Usable(s.text, st.m1))
    requires !(s.patternAnalysis && Uniform(s.text, ip)) ==>
               Tried(s, size, ip, ip, |s.text| - LASTLITERALS, if st.Main? then MINMATCH - 1 else st.m1.len)
    ensures OnTheRepetition(st, |s.text|, d, o, 0, 0)
  {
    hide CommonLen, Later, Uniform, WideLen;
    var n := |s.text|;
    if st.Search2? {
      ShortenMatch(s.text, ip, st.m1.ref, st.m1.len, 0, MINMATCH);
    }
    if ip == d {
      assert Agree(s.text, 0, d, n - LASTLITERALS - d);
      CommonLenAgree(s.text, 0, d, n - LASTLITERALS, n - LASTLITERALS - d);
      WideAtLow(s.text, d, n - LASTLITERALS, 0);
    }
  }

  lemma SomeSlots(s: Search, ctx: Context, d: nat)
    requires ctx.Indexed(s)
    ensures 0 < ctx.hashTable.Length
    ensures Repeating(s, ctx.hashTable.Length, d) ==> d + MFLIMIT < |s.text|
  {
  }

  /** No match reaches further. */
  lemma NothingWider(text: seq<byte>, m1: Match)
    requires m1.End() + LASTLITERALS == |text|
    ensures NoneWider(text, m1)
  {
  }

  lemma RepetitionEncoded(text: seq<byte>, dd: seq<byte>, d: nat, m1: Match, m0: Match, o: Limit, ok: bool, st: State,
                          op: nat, anchor: nat)
    requires d + MFLIMIT < |text| && OnTheRepetition(Search2(m1, m0), |text|, d, o, 0, 0)
    requires NoneWider(text, m1) ==>
               EncodedOr(text, dd, 0, 0, m1, o, ok, op) && st == Main(m1.End()) && anchor == m1.End()
    ensures OneMatch(|text|, d, o, ok, op, anchor) && (ok ==> OnTheRepetition(st, |text|, d, o, op, anchor))
    ensures ok ==> st == Main(|text| - LASTLITERALS)
  {
    hide RunWritten, LiteralsGuard, MatchGuard, NoneWider, LenCost;
    NothingWider(text, m1);
  }

  /** Both guards pass, and the last literals fit. */
  predicate RepeatedFits(n: nat, d: nat, o: Limit)
    requires d + 9 <= n
  {
    && o.Allows(LiteralsGuard(0, d)) && o.Allows(MatchGuard(Fast.MatchAt(d), n - d - 9))
    && o.Allows(Fast.RepeatedSize(n, d))
  }

  lemma RepeatedResult(n: nat, d: nat, o: Limit, ok: bool, op: nat, anchor: nat, r: nat)
    requires OneMatch(n, d, o, ok, op, anchor)
    requires if !ok then r == 0
             else var need := op + 1 + LenCost(n - anchor) + n - anchor;
                  r == if o.Allows(need) then need else 0
    ensures d + MFLIMIT < n && r == if RepeatedFits(n, d, o) then Fast.RepeatedSize(n, d) else 0
  {
    hide Fast.MatchAt, LiteralsGuard, MatchGuard;
  }

  lemma NothingEmitted(text: seq<byte>, dst: array<byte>)
    ensures Emitted(text, dst, 0, Start, 0)
  {
    assert dst[..0] == [];
  }

  /** The loop, from any state: every path through the labels ends with a parse of the text, or finds the output
      full. */
  method Sequences(s: Search, ctx: Context, dst: array<byte>, o: Limit, ghost lim: nat, ghost a: nat, ghost b: nat)
    returns (ok: bool, op: nat, anchor: nat, ghost p: Parse)
    requires ctx.Indexed(s) && ctx.nextToUpdate == FIRST && Room(|s.text|, o, lim) && lim <= dst.Length
    requires 0 < s.attempts
    modifies ctx, ctx.hashTable, ctx.chainTable, dst
    ensures !ok ==> o.limited && o.olimit < Bound(|s.text|)
    ensures ok ==> Emitted(s.text, dst, op, p, anchor)
    ensures Matchless(s.text) ==> ok && op == 0 && anchor == 0
    ensures Stops(s.text, a, b, o) ==> !ok && StoppedAt(s.text, dst[..], a, b)
    ensures Repeating(s, ctx.hashTable.Length, a) ==> OneMatch(|s.text|, a, o, ok, op, anchor)
    ensures forall k :: lim <= k < dst.Length ==> dst[k] == old(dst[k])
  {
    hide Context.Indexed, Emitted, Bound, Usable, Room, LatestTried, EncodedOr, MatchlessTo, Stops, Sparse, StoppedAt,
         NoneWider, OpBefore, Tried, Uniform, Repeating, OneMatch, LenCost, Fast.MatchAt;
    ok, op, anchor, p := true, 0, 0, Start;
    NothingEmitted(s.text, dst);
    SomeSlots(s, ctx, a);
    ghost var repeats := Repeating(s, ctx.hashTable.Length, a);
    ghost var stops := Stops(s.text, a, b, o);
    var st := Main(0);
    if stops {
      StopsFacts(s.text, a, b, o);
    }
    while true
      invariant ctx.Indexed(s) && Inv(s.text, st, anchor, ctx.nextToUpdate - FIRST)
      invariant Emitted(s.text, dst, op, p, anchor)
      invariant Matchless(s.text) ==> st.Main? && op == 0 && anchor == 0
      invariant stops ==> OnTheWay(st, a, b, op, anchor)
      invariant repeats ==> a + MFLIMIT < |s.text| && OnTheRepetition(st, |s.text|, a, o, op, anchor)
      invariant forall k :: lim <= k < dst.Length ==> dst[k] == old(dst[k])
      decreases |s.text| - Reach(st)
    {
      match st {
        case Main(ip) =>
          if ip + MFLIMIT >= |s.text| {
            return;
          }
          st := StepMain(s, ctx, ip, anchor);
          AfterMain(s, ctx.hashTable.Length, a, b, op, anchor, ip, st);
          if repeats {
            RepetitionFound(s, ctx.hashTable.Length, a, ip, st, o);
          }
          StopsSparse(s.text, a, b, o);
        case Search2(m1, m0) =>
          UsableFacts(s.text, m1);
          ghost var op0, anchor0 := op, anchor;
          ok, st, op, anchor, p := StepSearch2(s, ctx, m1, m0, dst, op, anchor, o, lim, p);
          if stops {
            AfterSearch2(s.text, dst[..], a, b, o, op0, anchor0, m1, m0, ok, st, op, anchor);
          }
          if repeats {
            RepetitionEncoded(s.text, dst[..], a, m1, m0, o, ok, st, op, anchor);
          }
        case Search3(m1, m2) =>
          UsableFacts(s.text, m2);
          ok, st, op, anchor, p := StepSearch3(s, ctx, m1, m2, dst, op, anchor, o, lim, p);
      }
      if !ok {
        return;
      }
    }
  }

  lemma StopsSparse(text: seq<byte>, a: nat, b: nat, o: Limit)
    ensures Stops(text, a, b, o) ==> Sparse(text, a, b)
  {
  }

  lemma AfterSearch2(text: seq<byte>, d: seq<byte>, a: nat, b: nat, o: Limit, op: nat, anchor: nat, m1: Match,
                     m0: Match, ok: bool, st: State, op': nat, anchor': nat)
    requires Stops(text, a, b, o) && OnTheWay(Search2(m1, m0), a, b, op, anchor)
    requires NoneWider(text, m1) ==>
               EncodedOr(text, d, op, anchor, m1, o, ok, op') && st == Main(m1.End()) && anchor' == m1.End()
    ensures if ok then OnTheWay(st, a, b, op', anchor') else StoppedAt(text, d, a, b)
  {
    hide Sparse, EncodedOr, StoppedAt, NoneWider;
    StopsFacts(text, a, b, o);
    StopsSparse(text, a, b, o);
    NoneWiderThanFour(text, a, b, m1);
    StopsNext(text, d, a, b, o, op, m1, ok, op');
  }

  lemma NotMatchless(text: seq<byte>, m: Match, end: int)
    requires Usable(text, m) && m.start < end
    ensures !MatchlessTo(text, end)
  {
    ShortenMatch(text, m.start, m.ref, m.len, 0, MINMATCH);
  }

  /** LZ4HC_compress_hashChain, on the input as a single segment. */
  method CompressHashChain(s: Search, dst: array<byte>, o: Limit, ghost lim: nat, ghost a: nat, ghost b: nat)
    returns (n: nat)
    requires Room(|s.text|, o, lim) && lim <= dst.Length && 0 < s.attempts
    modifies dst
    ensures n == 0 ==> o.limited && o.olimit < Bound(|s.text|)
    ensures n > 0 ==> n <= Bound(|s.text|) && o.Allows(n) && n <= dst.Length && DecodesTo(dst[..n], [], s.text)
    ensures Matchless(s.text) && !o.Allows(|s.text| + 1) ==> n == 0
    ensures Stops(s.text, a, b, o) ==> n == 0 && StoppedAt(s.text, dst[..], a, b)
    ensures Repeating(s, HASH_SIZE, a) ==>
              && a + MFLIMIT < |s.text|
              && n == if RepeatedFits(|s.text|, a, o) then Fast.RepeatedSize(|s.text|, a) else 0
    ensures forall k :: lim <= k < dst.Length ==> dst[k] == old(dst[k])
  {
    hide Bound, DecodesTo, Emitted, MatchlessTo, Stops, StoppedAt, Repeating, OneMatch, LenCost, RepeatedFits;
    var ctx := new Context();
    ghost var repeats := Repeating(s, HASH_SIZE, a);
    var ok, op, anchor, p := Sequences(s, ctx, dst, o, lim, a, b);
    if !ok {
      if repeats {
        RepeatedResult(|s.text|, a, o, ok, op, anchor, 0);
      }
      return 0;
    }
    n := LastLiterals(s.text, dst, op, anchor, o, lim, p);
    if repeats {
      RepeatedResult(|s.text|, a, o, ok, op, anchor, n);
    }
  }
}
