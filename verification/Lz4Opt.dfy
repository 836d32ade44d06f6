/** LZ4HC_compress_optimal: a parser that prices positions and walks back over them. */
module Lz4Opt {
  import opened Bytes
  import opened Lz4Format
  import opened Lz4RoundTrip
  import opened Lz4Emit
  import opened Lz4Match
  import opened Lz4HcEmit
  import opened Lz4HcIndex
  import opened Lz4HcParser
  import Fast = Lz4Fast

  const OPT_NUM := 4096
  const TRAILING_LITERALS := 3
  const OPT_SIZE := OPT_NUM + TRAILING_LITERALS

  /** LZ4HC_optimal_t: the cheapest way known to reach a position. A literal has `mlen` 1. */
  datatype Optimal = Optimal(price: int, off: nat, mlen: nat, litlen: nat)

  // ---------- prices ----------

  function LiteralsPrice(litlen: nat): nat {
    litlen + if litlen >= RUN_MASK then 1 + (litlen - RUN_MASK) / 255 else 0
  }

  function SequencePrice(litlen: nat, mlen: nat): nat
    requires MINMATCH <= mlen
  {
    1 + 2 + LiteralsPrice(litlen)
    + if mlen >= ML_MASK + MINMATCH then 1 + (mlen - (ML_MASK + MINMATCH)) / 255 else 0
  }

  /** The price of a sequence is the number of bytes it is encoded in. */
  lemma SequencePriceIsSize(s: Sequence)
    ensures SequencePrice(|s.lits|, s.len) == |EncodeSeq(s)|
  {
    EncodeSeqSize(s);
  }

  // ---------- what the table says ----------

  /** A step from position `pos` (relative to `ip`): one literal, or a match that may be encoded there. */
  predicate Step(text: seq<byte>, ip: nat, pos: nat, mlen: nat, off: nat) {
    mlen == 1 || (0 < off <= ip + pos && Usable(text, Match(ip + pos, ip + pos - off, mlen)))
  }

  /** The entry of a position records a step that ends there. */
  predicate Entry(text: seq<byte>, ip: nat, pos: nat, e: Optimal) {
    1 <= e.mlen <= pos && Step(text, ip, pos - e.mlen, e.mlen, e.off)
  }

  /** The table is filled up to three positions after the last match. */
  predicate Filled(text: seq<byte>, ip: nat, opt: seq<Optimal>, last: nat) {
    && |opt| == OPT_SIZE && last < OPT_NUM && opt[0].mlen == 1
    && forall pos :: 1 <= pos <= last + TRAILING_LITERALS ==> Entry(text, ip, pos, opt[pos])
  }

  /** LZ4HC_FindLongerMatch: offset and length, or length 0. */
  method FindLongerMatch(s: Search, ctx: Context, at: nat, minLen: nat) returns (off: nat, len: nat)
    requires ctx.Indexed(s) && ctx.nextToUpdate <= at + FIRST
    requires at + MFLIMIT < |s.text| && at + minLen + LASTLITERALS <= |s.text|
    modifies ctx, ctx.hashTable, ctx.chainTable
    ensures ctx.Indexed(s) && ctx.nextToUpdate == at + FIRST
    ensures len == 0 || (minLen < len && 0 < off <= at && Usable(s.text, Match(at, at - off, len)))
    ensures minLen == MINMATCH - 1 && s.attempts > 0 ==>
              LatestTried(s, ctx.hashTable.Length, at, |s.text| - LASTLITERALS, if len == 0 then minLen else len)
    ensures !(s.patternAnalysis && Uniform(s.text, at)) ==>
              Tried(s, ctx.hashTable.Length, at, at, |s.text| - LASTLITERALS, if len == 0 then minLen else len)
  {
    hide Context.Indexed, LatestTried, Tried, Uniform;
    var m := FindWider(s, ctx, at, at, minLen);
    off, len := if m.len <= minLen then 0 else at - m.ref, if m.len <= minLen then 0 else m.len;
  }

  // ---------- filling the table ----------

  /** `n` literals after an entry that ends a match. */
  function LiteralsFrom(e: Optimal, n: nat): Optimal {
    Optimal(e.price + LiteralsPrice(n), 0, 1, n)
  }

  /** Three literals after the last match. */
  method TrailingLiterals(text: seq<byte>, ip: nat, opt: array<Optimal>, last: nat)
    requires opt.Length == OPT_SIZE && last < OPT_NUM && opt[0].mlen == 1
    requires forall pos :: 1 <= pos <= last ==> Entry(text, ip, pos, opt[pos])
    modifies opt
    ensures Filled(text, ip, opt[..], last)
    ensures opt[..last + 1] == old(opt[..last + 1])
    ensures forall n :: 1 <= n <= TRAILING_LITERALS ==> opt[last + n] == LiteralsFrom(opt[last], n)
  {
    for addLit := 1 to TRAILING_LITERALS + 1
      invariant opt[..last + 1] == old(opt[..last + 1])
      invariant forall n :: 1 <= n < addLit ==> opt[last + n] == LiteralsFrom(opt[last], n)
      invariant forall pos :: 1 <= pos < last + addLit ==> Entry(text, ip, pos, opt[pos])
    {
      opt[last + addLit] := Optimal(opt[last].price + LiteralsPrice(addLit), 0, 1, addLit);
    }
  }

  /** Before the first search: literals only where no match is possible, else all of the first match. */
  function FirstEntry(llen: nat, off: nat, pos: nat): Optimal {
    if pos < MINMATCH then Optimal(LiteralsPrice(llen + pos), 0, 1, llen + pos)
    else Optimal(SequencePrice(llen, pos), off, pos, llen)
  }

  /** Prices of the first positions, from the first match. */
  method FirstPrices(text: seq<byte>, ip: nat, opt: array<Optimal>, llen: nat, off: nat, len: nat)
    requires opt.Length == OPT_SIZE && MINMATCH <= len < OPT_NUM
    requires 0 < off <= ip && Usable(text, Match(ip, ip - off, len))
    modifies opt
    ensures Filled(text, ip, opt[..], len)
    ensures forall pos :: 0 <= pos <= len ==> opt[pos] == FirstEntry(llen, off, pos)
    ensures forall n :: 1 <= n <= TRAILING_LITERALS ==> opt[len + n] == LiteralsFrom(opt[len], n)
  {
    for rPos := 0 to MINMATCH
      invariant forall pos :: 0 <= pos < rPos ==> opt[pos] == FirstEntry(llen, off, pos)
    {
      opt[rPos] := Optimal(LiteralsPrice(llen + rPos), 0, 1, llen + rPos);
    }
    for mlen := MINMATCH to len + 1
      invariant forall pos :: 0 <= pos < mlen ==> opt[pos] == FirstEntry(llen, off, pos)
      invariant forall pos :: 1 <= pos < mlen ==> Entry(text, ip, pos, opt[pos])
    {
      CutUsable(text, Match(ip, ip - off, len), mlen);
      opt[mlen] := Optimal(SequencePrice(llen, mlen), off, mlen, llen);
    }
    ghost var first := opt[..len + 1];
    TrailingLiterals(text, ip, opt, len);
    assert forall pos :: 0 <= pos <= len ==> opt[pos] == first[pos];
  }

  function Cheaper(e: Optimal, candidate: Optimal): Optimal {
    if candidate.price < e.price then candidate else e
  }

  /** `n` more literals after the ones an entry ends with. */
  function MoreLiterals(e: Optimal, n: nat): Optimal {
    Optimal(e.price - LiteralsPrice(e.litlen) + LiteralsPrice(e.litlen + n), 0, 1, e.litlen + n)
  }

  /** One, two or three literals after position `cur`, where that is cheaper. */
  method LiteralsAfter(text: seq<byte>, ip: nat, opt: array<Optimal>, cur: nat, last: nat)
    requires opt.Length == OPT_SIZE && Filled(text, ip, opt[..], last) && 0 < cur < last
    modifies opt
    ensures Filled(text, ip, opt[..], last)
    ensures forall n :: 1 <= n < MINMATCH ==> opt[cur + n] == Cheaper(old(opt[cur + n]), MoreLiterals(old(opt[cur]), n))
    ensures forall pos :: 0 <= pos < OPT_SIZE && (pos <= cur || cur + MINMATCH <= pos) ==> opt[pos] == old(opt[pos])
  {
    hide LiteralsPrice, Usable;
    var base, basePrice := opt[cur].litlen, opt[cur].price;
    for litlen := 1 to MINMATCH
      invariant opt[0].mlen == 1
      invariant forall n :: 1 <= n < litlen ==>
                  opt[cur + n] == Cheaper(old(opt[cur + n]), MoreLiterals(old(opt[cur]), n))
      invariant forall pos :: 0 <= pos < OPT_SIZE && (pos <= cur || cur + litlen <= pos) ==> opt[pos] == old(opt[pos])
      invariant forall pos :: 1 <= pos <= last + TRAILING_LITERALS ==> Entry(text, ip, pos, opt[pos])
    {
      var price := basePrice - LiteralsPrice(base) + LiteralsPrice(base + litlen);
      var pos := cur + litlen;
      if price < opt[pos].price {
        opt[pos] := Optimal(price, 0, 1, base + litlen);
      }
    }
  }

  /** A match of length `ml` at `cur`: the literals before it are priced anew together with the match. */
  function MatchEntry(opt: seq<Optimal>, cur: nat, off: nat, ml: nat): Optimal
    requires cur < |opt| && MINMATCH <= ml
  {
    if opt[cur].mlen == 1 then
      var ll := opt[cur].litlen;
      Optimal((if cur > ll then opt[cur - ll].price else 0) + SequencePrice(ll, ml), off, ml, ll)
    else Optimal(opt[cur].price + SequencePrice(0, ml), off, ml, 0)
  }

  /** Price of that match, and the literals before it. */
  method MatchPrice(opt: array<Optimal>, cur: nat, off: nat, ml: nat) returns (price: int, ll: nat)
    requires cur < opt.Length && MINMATCH <= ml
    ensures Optimal(price, off, ml, ll) == MatchEntry(opt[..], cur, off, ml)
  {
    if opt[cur].mlen == 1 {
      ll := opt[cur].litlen;
      price := (if cur > ll then opt[cur - ll].price else 0) + SequencePrice(ll, ml);
    } else {
      ll := 0;
      price := opt[cur].price + SequencePrice(0, ml);
    }
  }

  /** Position `cur + ml` after a match of that length was considered: taken where it reaches a new position or costs no
      more. */
  function Considered(before: seq<Optimal>, cur: nat, off: nat, ml: nat, last: nat): Optimal
    requires cur + ml < |before| && MINMATCH <= ml
  {
    var e := MatchEntry(before, cur, off, ml);
    if cur + ml > last + TRAILING_LITERALS || e.price <= before[cur + ml].price then e else before[cur + ml]
  }

  method OneMatchPrice(text: seq<byte>, ip: nat, opt: array<Optimal>, cur: nat, off: nat, ml: nat, last: nat)
    returns (taken: bool)
    requires cur + ml < opt.Length && MINMATCH <= ml && 0 < off <= ip + cur
    requires Usable(text, Match(ip + cur, ip + cur - off, ml))
    requires cur + ml <= last + TRAILING_LITERALS ==> Entry(text, ip, cur + ml, opt[cur + ml])
    modifies opt
    ensures opt[..] == old(opt[..])[cur + ml := Considered(old(opt[..]), cur, off, ml, last)]
    ensures Entry(text, ip, cur + ml, opt[cur + ml])
    ensures cur + ml > last + TRAILING_LITERALS ==> taken
  {
    hide SequencePrice, LiteralsPrice, Usable, MatchEntry;
    var price, ll := MatchPrice(opt, cur, off, ml);
    taken := cur + ml > last + TRAILING_LITERALS || price <= opt[cur + ml].price;
    if taken {
      opt[cur + ml] := Optimal(price, off, ml, ll);
    }
  }

  /** All lengths of a match found at position `cur`, where that is cheaper or reaches new positions. */
  method MatchPrices(text: seq<byte>, ip: nat, opt: array<Optimal>, cur: nat, off: nat, len: nat, last: nat)
    returns (last': nat)
    requires opt.Length == OPT_SIZE && Filled(text, ip, opt[..], last) && 0 < cur < last
    requires cur + len < OPT_NUM && MINMATCH <= len
    requires 0 < off <= ip + cur && Usable(text, Match(ip + cur, ip + cur - off, len))
    modifies opt
    ensures Filled(text, ip, opt[..], last')
    ensures last' == last || last < last' == cur + len
    ensures cur + len > last + TRAILING_LITERALS ==> last' == cur + len
    ensures forall ml :: MINMATCH <= ml <= len && cur + ml <= last' ==>
              opt[cur + ml] == Considered(old(opt[..]), cur, off, ml, last)
    ensures forall pos :: 0 <= pos <= last' && (pos < cur + MINMATCH || cur + len < pos) ==> opt[pos] == old(opt[pos])
    ensures forall n :: 1 <= n <= TRAILING_LITERALS ==> opt[last' + n] == LiteralsFrom(opt[last'], n)
  {
    hide SequencePrice, LiteralsPrice, Usable, MatchEntry, Considered, Entry;
    last' := last;
    for ml := MINMATCH to len + 1
      invariant opt[0].mlen == 1
      invariant forall pos :: 1 <= pos <= last + TRAILING_LITERALS || 1 <= pos < cur + ml ==>
                  pos < OPT_SIZE && Entry(text, ip, pos, opt[pos])
      invariant last' == last || (ml == len + 1 && last < last' == cur + len)
      invariant ml == len + 1 && cur + len > last + TRAILING_LITERALS ==> last' == cur + len
      invariant forall n :: MINMATCH <= n < ml ==> opt[cur + n] == Considered(old(opt[..]), cur, off, n, last)
      invariant forall pos :: 0 <= pos < OPT_SIZE && (pos < cur + MINMATCH || cur + ml <= pos) ==>
                  opt[pos] == old(opt[pos])
    {
      SameMatchEntry(old(opt[..]), opt[..], cur, off, ml, last);
      CutUsable(text, Match(ip + cur, ip + cur - off, len), ml);
      var taken := OneMatchPrice(text, ip, opt, cur, off, ml, last');
      if taken && ml == len && last' < cur + ml {
        last' := cur + ml;
      }
    }
    ghost var done := opt[..last' + 1];
    TrailingLiterals(text, ip, opt, last');
    assert forall pos :: 0 <= pos <= last' ==> opt[pos] == done[pos];
  }

  /** What a match at `cur` costs depends on nothing after `cur`. */
  lemma SameMatchEntry(opt: seq<Optimal>, opt': seq<Optimal>, cur: nat, off: nat, ml: nat, last: nat)
    requires cur + ml < |opt| == |opt'| && MINMATCH <= ml && opt[cur + ml] == opt'[cur + ml]
    requires forall pos :: 0 <= pos <= cur ==> opt[pos] == opt'[pos]
    ensures MatchEntry(opt, cur, off, ml) == MatchEntry(opt', cur, off, ml)
    ensures Considered(opt, cur, off, ml, last) == Considered(opt', cur, off, ml, last)
  {
  }

  // ---------- the reverse walk ----------

  /** `visited` is the chain of `before` that leads back from `cur` to position 0, and in `after` each of its positions
      holds the step to the one visited just before it, the first of them the step to `to`. */
  predicate Walked(before: seq<Optimal>, after: seq<Optimal>, visited: seq<nat>, cur: nat, to: nat, off: nat) {
    && |before| == |after| && 0 < |visited| && visited[0] == cur && visited[|visited| - 1] == 0
    && (forall i :: 0 <= i < |visited| ==> visited[i] < |before|)
    && (forall i :: 0 < i < |visited| ==> visited[i] == visited[i - 1] - before[visited[i - 1]].mlen)
    && Turned(before, after, visited, to, off)
  }

  predicate Turned(before: seq<Optimal>, after: seq<Optimal>, visited: seq<nat>, to: nat, off: nat)
    requires |before| == |after| && forall i :: 0 <= i < |visited| ==> visited[i] < |before|
  {
    forall i :: 0 <= i < |visited| ==> TurnedAt(before, after, visited, i, to, off)
  }

  predicate TurnedAt(before: seq<Optimal>, after: seq<Optimal>, visited: seq<nat>, i: nat, to: nat, off: nat)
    requires |before| == |after| && i < |visited| && forall i :: 0 <= i < |visited| ==> visited[i] < |before|
  {
    && after[visited[i]].mlen == (if i == 0 then to else visited[i - 1]) - visited[i]
    && after[visited[i]].off == if i == 0 then off else before[visited[i - 1]].off
  }

  /** Following the steps of `opt` from position `pos` leads to `to`; every step may be encoded. */
  predicate Path(text: seq<byte>, ip: nat, opt: seq<Optimal>, pos: nat, to: nat)
    decreases to - pos
  {
    && pos <= to
    && (pos < to ==>
          && pos < |opt| && 1 <= opt[pos].mlen <= to - pos && Step(text, ip, pos, opt[pos].mlen, opt[pos].off)
          && Path(text, ip, opt, pos + opt[pos].mlen, to))
  }

  /** What was written above `pos` stays on the path when something is written below. */
  lemma {:induction false} PathFrame(text: seq<byte>, ip: nat, opt: seq<Optimal>, opt': seq<Optimal>, pos: nat, to: nat)
    requires Path(text, ip, opt, pos, to) && |opt| == |opt'|
    requires forall k :: pos <= k < |opt| ==> opt[k] == opt'[k]
    ensures Path(text, ip, opt', pos, to)
    decreases if pos < to then to - pos else 0
  {
    hide Step;
    if pos < to {
      PathFrame(text, ip, opt, opt', pos + opt[pos].mlen, to);
    }
  }

  lemma PathEnd(text: seq<byte>, ip: nat, opt: seq<Optimal>, to: nat)
    ensures Path(text, ip, opt, to, to)
  {
  }

  lemma PathStep(text: seq<byte>, ip: nat, opt: seq<Optimal>, pos: nat, to: nat)
    requires pos < |opt| && 1 <= opt[pos].mlen <= to - pos && Step(text, ip, pos, opt[pos].mlen, opt[pos].off)
    requires Path(text, ip, opt, pos + opt[pos].mlen, to)
    ensures Path(text, ip, opt, pos, to)
  {
  }

  lemma TurnNone(opt: seq<Optimal>, to: nat, off: nat)
    ensures Turned(opt, opt, [], to, off)
  {
  }

  /** The positions visited so far, all above `cand`, lead back from `cur` to `cand`; the last of them held the step
      that is now carried along. */
  predicate Back(before: seq<Optimal>, visited: seq<nat>, cur: nat, mlen: nat, off: nat, cand: nat, selLength: nat,
                 selOff: nat)
  {
    && cur < |before|
    && (forall i :: 0 <= i < |visited| ==> cand < visited[i] < |before|)
    && (forall i :: 0 < i < |visited| ==> visited[i] == visited[i - 1] - before[visited[i - 1]].mlen)
    && if |visited| == 0 then cand == cur && selLength == mlen && selOff == off
       else var last := visited[|visited| - 1];
         && visited[0] == cur && cand == last - before[last].mlen
         && selLength == before[last].mlen && selOff == before[last].off
  }

  lemma BackStart(before: seq<Optimal>, cur: nat, mlen: nat, off: nat)
    requires cur < |before|
    ensures Back(before, [], cur, mlen, off, cur, mlen, off)
  {
  }

  lemma BackBelow(before: seq<Optimal>, visited: seq<nat>, cur: nat, mlen: nat, off: nat, cand: nat, selLength: nat,
                  selOff: nat)
    requires Back(before, visited, cur, mlen, off, cand, selLength, selOff)
    ensures cur < |before| && forall i :: 0 <= i < |visited| ==> cand < visited[i] < |before|
    ensures cand + selLength == if |visited| == 0 then cur + mlen else visited[|visited| - 1]
    ensures selOff == if |visited| == 0 then off else before[visited[|visited| - 1]].off
    ensures if |visited| == 0 then cand == cur else visited[0] == cur
    ensures cand < |before| && 1 <= before[cand].mlen <= cand ==>
              Back(before, visited + [cand], cur, mlen, off, cand - before[cand].mlen, before[cand].mlen,
                   before[cand].off)
    ensures cand == 0 && cand < |before| ==>
              forall after :: |after| == |before| && Turned(before, after, visited + [cand], cur + mlen, off) ==>
                Walked(before, after, visited + [cand], cur, cur + mlen, off)
  {
    hide Turned;
  }

  /** One more position of the chain turned round. */
  lemma TurnOne(before: seq<Optimal>, above: seq<Optimal>, after: seq<Optimal>, visited: seq<nat>, to: nat, off: nat,
                cand: nat, selLength: nat, selOff: nat)
    requires |before| == |above| && cand < |before| && forall i :: 0 <= i < |visited| ==> cand < visited[i] < |before|
    requires Turned(before, above, visited, to, off)
    requires after == above[cand := above[cand].(mlen := selLength, off := selOff)]
    requires cand + selLength == if |visited| == 0 then to else visited[|visited| - 1]
    requires selOff == if |visited| == 0 then off else before[visited[|visited| - 1]].off
    ensures Turned(before, after, visited + [cand], to, off)
  {
    var visited' := visited + [cand];
    forall i | 0 <= i < |visited'|
      ensures TurnedAt(before, after, visited', i, to, off)
    {
      if i < |visited| {
        assert TurnedAt(before, above, visited, i, to, off);
      }
    }
  }

  /** The loop at label encode: the chain that ends at `cur` is turned round in place. */
  method ReverseWalk(text: seq<byte>, ip: nat, opt: array<Optimal>, cur: nat, mlen: nat, off: nat)
    returns (ghost visited: seq<nat>)
    requires opt.Length == OPT_SIZE && cur < OPT_NUM && opt[0].mlen == 1
    requires forall pos :: 1 <= pos <= cur ==> Entry(text, ip, pos, opt[pos])
    requires 1 <= mlen && Step(text, ip, cur, mlen, off)
    modifies opt
    ensures Walked(old(opt[..]), opt[..], visited, cur, cur + mlen, off)
    ensures Path(text, ip, opt[..], 0, cur + mlen)
  {
    hide Step, Turned, Path, Back, Walked;
    PathEnd(text, ip, opt[..], cur + mlen);
    TurnNone(opt[..], cur + mlen, off);
    BackStart(opt[..], cur, mlen, off);
    ghost var before, to := opt[..], cur + mlen;
    var cand: nat, selLength: nat, selOff: nat := cur, mlen, off;
    visited := [];
    while true
      invariant cand <= cur && 1 <= selLength && Step(text, ip, cand, selLength, selOff)
      invariant forall pos :: 0 <= pos <= cand ==> opt[pos] == before[pos]
      invariant Back(before, visited, cur, mlen, off, cand, selLength, selOff)
      invariant forall i :: 0 <= i < |visited| ==> visited[i] < |before|
      invariant Turned(before, opt[..], visited, to, off)
      invariant cand + selLength <= to && Path(text, ip, opt[..], cand + selLength, to)
      decreases cand
    {
      var nextLength, nextOff := opt[cand].mlen, opt[cand].off;
      ghost var above := opt[..];
      opt[cand] := opt[cand].(mlen := selLength, off := selOff);
      assert opt[..] == above[cand := above[cand].(mlen := selLength, off := selOff)];
      BackBelow(before, visited, cur, mlen, off, cand, selLength, selOff);
      TurnOne(before, above, opt[..], visited, to, off, cand, selLength, selOff);
      visited := visited + [cand];
      PathFrame(text, ip, above, opt[..], cand + selLength, to);
      PathStep(text, ip, opt[..], cand, to);
      selLength, selOff := nextLength, nextOff;
      if nextLength > cand {
        break;
      }
      cand := cand - nextLength;
    }
  }

  // ---------- the parser ----------

  /** What the scan of the table decides: walk back from `cur`, where a step of `len` bytes starts, and encode up to
      position `bound`. */
  datatype Choice = Choice(cur: nat, len: nat, off: nat, bound: nat)

  predicate Chosen(text: seq<byte>, ip: nat, opt: seq<Optimal>, c: Choice) {
    && |opt| == OPT_SIZE && c.cur < OPT_NUM && c.cur < c.bound <= c.cur + c.len && opt[0].mlen == 1
    && (forall pos :: 1 <= pos <= c.cur ==> Entry(text, ip, pos, opt[pos]))
    && Step(text, ip, c.cur, c.len, c.off) && ip + c.cur + c.len <= |text|
  }

  /** "Not useful to search here". */
  predicate Skip(opt: seq<Optimal>, cur: nat, fullUpdate: bool)
    requires |opt| == OPT_SIZE && cur + MINMATCH < OPT_SIZE
  {
    && opt[cur + 1].price <= opt[cur].price
    && (fullUpdate ==> opt[cur + MINMATCH].price < opt[cur].price + 3)
  }

  /** No match starts inside this one. */
  ghost predicate Alone(text: seq<byte>, ip: nat, len: nat) {
    forall m :: Usable(text, m) && ip < m.start ==> ip + len <= m.start
  }

  lemma NotAlone(text: seq<byte>, ip: nat, len: nat, m: Match)
    requires Usable(text, m) && ip < m.start < ip + len
    ensures !Alone(text, ip, len)
  {
  }

  /** At `at`, a candidate that the attempts reach gives a match of more than `len` bytes. */
  ghost predicate LongerAt(s: Search, size: nat, at: nat, len: nat)
    requires at + MFLIMIT < |s.text| && 0 < size
  {
    && !(s.patternAnalysis && Uniform(s.text, at))
    && exists q: nat :: q < at <= q + MAX_DISTANCE && Later(s, size, q, at) < s.attempts
                        && len < WideLen(s.text, at, at, |s.text| - LASTLITERALS, q)
  }

  /** The search at the second position finds such a match, and it is long enough to be encoded at once. */
  ghost predicate LongAtOnce(s: Search, size: nat, ip: nat, opt: seq<Optimal>, last: nat, sufficient: nat,
                             fullUpdate: bool)
    requires |opt| == OPT_SIZE && 0 < size
  {
    && MINMATCH <= sufficient && 1 < last <= sufficient && ip + 1 + MFLIMIT < |s.text| && !Skip(opt, 1, fullUpdate)
    && LongerAt(s, size, ip + 1, sufficient)
  }

  lemma LongFound(s: Search, size: nat, ip: nat, opt: seq<Optimal>, last: nat, sufficient: nat, fullUpdate: bool,
                  len: nat)
    requires |opt| == OPT_SIZE && 0 < size && LongAtOnce(s, size, ip, opt, last, sufficient, fullUpdate)
    requires var minLen := if fullUpdate then MINMATCH - 1 else last - 1;
             !(s.patternAnalysis && Uniform(s.text, ip + 1)) ==>
               Tried(s, size, ip + 1, ip + 1, |s.text| - LASTLITERALS, if len == 0 then minLen else len)
    ensures sufficient < len
  {
    hide Later, WideLen, Uniform;
  }

  lemma LongFacts(s: Search, size: nat, ip: nat, opt: seq<Optimal>, last: nat, sufficient: nat, fullUpdate: bool)
    requires |opt| == OPT_SIZE && 0 < size && LongAtOnce(s, size, ip, opt, last, sufficient, fullUpdate)
    ensures 1 < last && ip + 1 + MFLIMIT < |s.text| && !Skip(opt, 1, fullUpdate)
  {
    hide Later, WideLen, Uniform;
  }

  /** No entry has become dearer. */
  predicate NoDearer(before: seq<Optimal>, after: seq<Optimal>, last: nat)
    requires last < |before| == |after|
  {
    forall pos :: 0 <= pos <= last ==> after[pos].price <= before[pos].price
  }

  lemma SomeIndexed(s: Search, ctx: Context)
    requires ctx.Indexed(s)
    ensures 0 < ctx.hashTable.Length
  {
  }

  lemma SamePrices(opt: seq<Optimal>, last: nat)
    ensures last < |opt| ==> NoDearer(opt, opt, last)
  {
  }

  lemma LiteralsCheaper(before: seq<Optimal>, after: seq<Optimal>, cur: nat, last: nat)
    requires last < |before| == |after| && cur + MINMATCH <= |before|
    requires forall n :: 1 <= n < MINMATCH ==> after[cur + n] == Cheaper(before[cur + n], MoreLiterals(before[cur], n))
    requires forall pos :: 0 <= pos < |before| && (pos <= cur || cur + MINMATCH <= pos) ==> after[pos] == before[pos]
    ensures NoDearer(before, after, last)
  {
    hide MoreLiterals;
    forall pos | 0 <= pos <= last
      ensures after[pos].price <= before[pos].price
    {
      if cur < pos < cur + MINMATCH {
        assert after[cur + (pos - cur)] == Cheaper(before[cur + (pos - cur)], MoreLiterals(before[cur], pos - cur));
      }
    }
  }

  lemma MatchesCheaper(before: seq<Optimal>, after: seq<Optimal>, cur: nat, off: nat, len: nat, last: nat, to: nat)
    requires to <= last < |before| == |after| && cur + len < |before|
    requires forall ml :: MINMATCH <= ml <= len && cur + ml <= to ==>
               after[cur + ml] == Considered(before, cur, off, ml, last)
    requires forall pos :: 0 <= pos <= to && (pos < cur + MINMATCH || cur + len < pos) ==> after[pos] == before[pos]
    ensures NoDearer(before, after, to)
  {
    hide MatchEntry;
    forall pos | 0 <= pos <= to
      ensures after[pos].price <= before[pos].price
    {
      if cur + MINMATCH <= pos <= cur + len {
        assert after[cur + (pos - cur)] == Considered(before, cur, off, pos - cur, last);
      }
    }
  }

  lemma StillCheaper(a: seq<Optimal>, b: seq<Optimal>, c: seq<Optimal>, d: seq<Optimal>, last: nat)
    requires last < |a| == |b| == |c| == |d|
    requires NoDearer(a, b, last) && NoDearer(b, c, last) && NoDearer(c, d, last)
    ensures NoDearer(a, d, last)
  {
  }

  /** The positions after the first match, up to the last one a match reaches. No price rises; a match that is found at
      the second position and is long enough is chosen at once. */
  method ScanPositions(s: Search, ctx: Context, ip: nat, opt: array<Optimal>, last0: nat, sufficient: nat,
                       fullUpdate: bool) returns (c: Choice)
    requires ctx.Indexed(s) && ctx.nextToUpdate <= ip + FIRST
    requires opt.Length == OPT_SIZE && Filled(s.text, ip, opt[..], last0) && 0 < last0
    requires ip + last0 + LASTLITERALS <= |s.text|
    modifies ctx, ctx.hashTable, ctx.chainTable, opt
    ensures ctx.Indexed(s) && ctx.nextToUpdate <= ip + c.bound + FIRST
    ensures Chosen(s.text, ip, opt[..], c)
    ensures Alone(s.text, ip, last0) ==>
              var e := old(opt[last0]); c == Choice(last0 - e.mlen, e.mlen, e.off, last0) && opt[..] == old(opt[..])
    ensures NoDearer(old(opt[..]), opt[..], last0)
    ensures LongAtOnce(s, ctx.hashTable.Length, ip, old(opt[..]), last0, sufficient, fullUpdate) ==>
              c.cur == 1 && c.bound == 2 && sufficient < c.len && opt[..] == old(opt[..])
  {
    hide Context.Indexed, Step, Usable, Alone, LatestTried, Tried, Uniform, LongAtOnce, Skip, NoDearer;
    SomeIndexed(s, ctx);
    var cur, last := 1, last0;
    ghost var before, size := opt[..], ctx.hashTable.Length;
    ghost var long := LongAtOnce(s, size, ip, before, last0, sufficient, fullUpdate);
    SamePrices(before, last0);
    if long {
      LongFacts(s, size, ip, before, last0, sufficient, fullUpdate);
    }
    while cur < last && ip + cur + MFLIMIT < |s.text|
      invariant ctx.Indexed(s) && ctx.nextToUpdate <= ip + cur + FIRST
      invariant 1 <= cur <= last && Filled(s.text, ip, opt[..], last) && ip + last + LASTLITERALS <= |s.text|
      invariant Alone(s.text, ip, last0) ==> last == last0 && opt[..] == old(opt[..])
      invariant last0 <= last && NoDearer(before, opt[..], last0)
      invariant long ==> cur == 1 && last == last0 && opt[..] == before
      decreases |s.text| - cur
    {
      if !Skip(opt[..], cur, fullUpdate) {
        var minLen := if fullUpdate then MINMATCH - 1 else last - cur;
        var off, len := FindLongerMatch(s, ctx, ip + cur, minLen);
        if long {
          LongFound(s, size, ip, before, last0, sufficient, fullUpdate, len);
        }
        if len > 0 {
          UsableFacts(s.text, Match(ip + cur, ip + cur - off, len));
          NotAlone(s.text, ip, last, Match(ip + cur, ip + cur - off, len));
          if len > sufficient || len + cur >= OPT_NUM {
            StepMatch(s.text, ip, cur, len, off);
            return Choice(cur, len, off, cur + 1);
          }
          ghost var was, end := opt[..], last;
          LiteralsAfter(s.text, ip, opt, cur, last);
          ghost var mid := opt[..];
          LiteralsCheaper(was, mid, cur, last0);
          last := MatchPrices(s.text, ip, opt, cur, off, len, last);
          MatchesCheaper(mid, opt[..], cur, off, len, end, last0);
          StillCheaper(before, was, mid, opt[..], last0);
        }
      }
      cur := cur + 1;
    }
    assert Entry(s.text, ip, last, opt[last]);
    c := Choice(last - opt[last].mlen, opt[last].mlen, opt[last].off, last);
  }

  lemma StepMatch(text: seq<byte>, ip: nat, pos: nat, len: nat, off: nat)
    requires 0 < off <= ip + pos && Usable(text, Match(ip + pos, ip + pos - off, len))
    ensures Step(text, ip, pos, len, off)
  {
  }

  lemma StepIsMatch(text: seq<byte>, ip: nat, pos: nat, len: nat, off: nat)
    requires Step(text, ip, pos, len, off) && len != 1
    ensures 0 < off <= ip + pos && Usable(text, Match(ip + pos, ip + pos - off, len))
  {
  }

  /** What the recorded steps say: the matches among them, each with the literals since the one before. */
  function Recorded(text: seq<byte>, ip: nat, opt: seq<Optimal>, pos: nat, bound: nat, to: nat, anchor: nat,
                    p: Parse): Parse
    requires Path(text, ip, opt, pos, to) && bound <= to && ip + to <= |text| && anchor <= ip + pos
    decreases if pos < bound then bound - pos else 0
  {
    if pos >= bound then p
    else if opt[pos].mlen == 1 then Recorded(text, ip, opt, pos + 1, bound, to, anchor, p)
    else
      var m := Match(ip + pos, ip + pos - opt[pos].off, opt[pos].mlen);
      Recorded(text, ip, opt, pos + opt[pos].mlen, bound, to, m.End(), Then(p, SequenceOf(text, anchor, m)))
  }

  lemma RecordedStep(text: seq<byte>, ip: nat, opt: seq<Optimal>, pos: nat, bound: nat, to: nat, anchor: nat, p: Parse)
    requires Path(text, ip, opt, pos, to) && pos < bound <= to && ip + to <= |text| && anchor <= ip + pos
    ensures var next := pos + opt[pos].mlen;
            && Path(text, ip, opt, next, to)
            && Recorded(text, ip, opt, pos, bound, to, anchor, p)
               == if opt[pos].mlen == 1 then Recorded(text, ip, opt, next, bound, to, anchor, p)
                  else
                    var m := Match(ip + pos, ip + pos - opt[pos].off, opt[pos].mlen);
                    Recorded(text, ip, opt, next, bound, to, m.End(), Then(p, SequenceOf(text, anchor, m)))
  {
    hide Usable;
  }

  /** The prices of those sequences. */
  function RecordedPrice(text: seq<byte>, ip: nat, opt: seq<Optimal>, pos: nat, bound: nat, to: nat, anchor: nat): nat
    requires Path(text, ip, opt, pos, to) && bound <= to && ip + to <= |text| && anchor <= ip + pos
    decreases if pos < bound then bound - pos else 0
  {
    if pos >= bound then 0
    else if opt[pos].mlen == 1 then RecordedPrice(text, ip, opt, pos + 1, bound, to, anchor)
    else
      SequencePrice(ip + pos - anchor, opt[pos].mlen)
      + RecordedPrice(text, ip, opt, pos + opt[pos].mlen, bound, to, ip + pos + opt[pos].mlen)
  }

  /** The bytes that are emitted for the path are exactly its price. */
  lemma {:induction false} PriceIsSize(text: seq<byte>, ip: nat, opt: seq<Optimal>, pos: nat, bound: nat, to: nat,
                                       anchor: nat, p: Parse)
    requires Path(text, ip, opt, pos, to) && bound <= to && ip + to <= |text| && anchor <= ip + pos
    ensures |EncodeSeqs(Recorded(text, ip, opt, pos, bound, to, anchor, p))|
         == |EncodeSeqs(p)| + RecordedPrice(text, ip, opt, pos, bound, to, anchor)
    decreases if pos < bound then bound - pos else 0
  {
    hide Usable, EncodeSeq, SequencePrice;
    if pos < bound {
      if opt[pos].mlen == 1 {
        PriceIsSize(text, ip, opt, pos + 1, bound, to, anchor, p);
      } else {
        StepIsMatch(text, ip, pos, opt[pos].mlen, opt[pos].off);
        var m := Match(ip + pos, ip + pos - opt[pos].off, opt[pos].mlen);
        UsableFacts(text, m);
        var s := SequenceOf(text, anchor, m);
        SequencePriceIsSize(s);
        PriceIsSize(text, ip, opt, pos + opt[pos].mlen, bound, to, m.End(), Then(p, s));
      }
    }
  }

  /** All recorded sequences, in order. */
  method EncodePath(text: seq<byte>, dst: array<byte>, op: nat, anchor: nat, ip: nat, opt: array<Optimal>,
                    ghost to: nat, bound: nat, o: Limit, ghost lim: nat, ghost p: Parse)
    returns (ok: bool, op': nat, anchor': nat, ip': nat, ghost p': Parse)
    requires Emitted(text, dst, op, p, anchor) && anchor <= ip && ip + to <= |text|
    requires Room(|text|, o, lim) && lim <= dst.Length
    requires bound <= to && Path(text, ip, opt[..], 0, to)
    modifies dst
    ensures !ok ==> o.limited && o.olimit < Bound(|text|)
    ensures ok ==> Emitted(text, dst, op', p', anchor') && anchor' <= ip' && ip + bound <= ip' <= |text|
    ensures ok ==> p' == Recorded(text, ip, opt[..], 0, bound, to, anchor, p)
    ensures 0 < bound <= opt[0].mlen != 1 && opt[0].off <= ip ==>
              && EncodedOr(text, dst[..], op, anchor, Match(ip, ip - opt[0].off, opt[0].mlen), o, ok, op')
              && (ok ==> anchor' == ip' == ip + opt[0].mlen)
    ensures forall k :: lim <= k < dst.Length ==> dst[k] == old(dst[k])
  {
    hide Emitted, Bound, Usable, Step, Recorded, Room, EncodedOr;
    ghost var table := opt[..];
    ok, op', anchor', ip', p' := true, op, anchor, ip, p;
    var rPos := 0;
    while rPos < bound
      invariant Emitted(text, dst, op', p', anchor') && anchor' <= ip + rPos <= |text|
      invariant opt[..] == table && Path(text, ip, table, rPos, to)
      invariant if rPos == 0 then op' == op && anchor' == anchor && p' == p
                else 0 < bound <= opt[0].mlen != 1 && opt[0].off <= ip ==>
                  && EncodedOr(text, dst[..], op, anchor, Match(ip, ip - opt[0].off, opt[0].mlen), o, true, op')
                  && rPos == opt[0].mlen && anchor' == ip + rPos
      invariant Recorded(text, ip, table, rPos, bound, to, anchor', p')
             == Recorded(text, ip, table, 0, bound, to, anchor, p)
      invariant forall k :: lim <= k < dst.Length ==> dst[k] == old(dst[k])
      decreases |text| - rPos
    {
      assert table[rPos] == opt[rPos];
      RecordedStep(text, ip, table, rPos, bound, to, anchor', p');
      var ml, off := opt[rPos].mlen, opt[rPos].off;
      if ml != 1 {
        StepIsMatch(text, ip, rPos, ml, off);
        ok, op', p' := EncodeSequence(text, dst, op', anchor', Match(ip + rPos, ip + rPos - off, ml), o, lim, p');
        if !ok {
          return;
        }
        anchor' := ip + rPos + ml;
      }
      rPos := rPos + ml;
    }
    ip' := ip + rPos;
    RecordedEnd(text, ip, table, rPos, bound, to, anchor', p');
  }

  lemma RecordedEnd(text: seq<byte>, ip: nat, opt: seq<Optimal>, pos: nat, bound: nat, to: nat, anchor: nat, p: Parse)
    requires Path(text, ip, opt, pos, to) && bound <= to && ip + to <= |text| && anchor <= ip + pos && bound <= pos
    ensures Recorded(text, ip, opt, pos, bound, to, anchor, p) == p
  {
  }

  /** From position 0 there is nothing to turn round. */
  lemma OneStep(before: seq<Optimal>, after: seq<Optimal>, visited: seq<nat>, cur: nat, len: nat, off: nat)
    requires Walked(before, after, visited, cur, cur + len, off)
    ensures cur == 0 ==> 0 < |after| && after[0].mlen == len && after[0].off == off
  {
    assert TurnedAt(before, after, visited, 0, cur + len, off);
  }

  /** One round of the main loop, from a match: price the positions it covers, choose, walk back, encode. */
  method Round(s: Search, ctx: Context, opt: array<Optimal>, dst: array<byte>, op: nat, anchor: nat, ip: nat, off: nat,
               len: nat, sufficient: nat, fullUpdate: bool, o: Limit, ghost lim: nat, ghost p: Parse)
    returns (ok: bool, op': nat, anchor': nat, ip': nat, ghost p': Parse)
    requires ctx.Indexed(s) && ctx.nextToUpdate <= ip + FIRST && opt.Length == OPT_SIZE
    requires Emitted(s.text, dst, op, p, anchor) && anchor <= ip && Room(|s.text|, o, lim) && lim <= dst.Length
    requires len <= sufficient < OPT_NUM && 0 < off <= ip && Usable(s.text, Match(ip, ip - off, len))
    modifies ctx, ctx.hashTable, ctx.chainTable, opt, dst
    ensures !ok ==> o.limited && o.olimit < Bound(|s.text|)
    ensures ok ==> ctx.Indexed(s) && ctx.nextToUpdate <= ip' + FIRST
    ensures ok ==> Emitted(s.text, dst, op', p', anchor') && anchor' <= ip' && ip < ip' <= |s.text|
    ensures Alone(s.text, ip, len) ==>
              && EncodedOr(s.text, dst[..], op, anchor, Match(ip, ip - off, len), o, ok, op')
              && (ok ==> anchor' == ip' == ip + len)
    ensures forall k :: lim <= k < dst.Length ==> dst[k] == old(dst[k])
  {
    hide Context.Indexed, Emitted, Bound, Usable, Filled, Step, Path, Walked, Room, Recorded, Alone, EncodedOr;
    UsableFacts(s.text, Match(ip, ip - off, len));
    FirstPrices(s.text, ip, opt, ip - anchor, off, len);
    var c := ScanPositions(s, ctx, ip, opt, len, sufficient, fullUpdate);
    ghost var before := opt[..];
    ghost var visited := ReverseWalk(s.text, ip, opt, c.cur, c.len, c.off);
    OneStep(before, opt[..], visited, c.cur, c.len, c.off);
    ok, op', anchor', ip', p' := EncodePath(s.text, dst, op, anchor, ip, opt, c.cur + c.len, c.bound, o, lim, p);
  }

  /** What follows when a match is found: a long one is "good enough" at once. */
  method EncodeFound(s: Search, ctx: Context, opt: array<Optimal>, dst: array<byte>, op: nat, anchor: nat, ip: nat,
                     off: nat, len: nat, sufficient: nat, fullUpdate: bool, o: Limit, ghost lim: nat, ghost p: Parse)
    returns (ok: bool, op': nat, anchor': nat, ip': nat, ghost p': Parse)
    requires ctx.Indexed(s) && ctx.nextToUpdate <= ip + FIRST && opt.Length == OPT_SIZE && sufficient < OPT_NUM
    requires Emitted(s.text, dst, op, p, anchor) && anchor <= ip && Room(|s.text|, o, lim) && lim <= dst.Length
    requires 0 < off <= ip && Usable(s.text, Match(ip, ip - off, len))
    modifies ctx, ctx.hashTable, ctx.chainTable, opt, dst
    ensures !ok ==> o.limited && o.olimit < Bound(|s.text|)
    ensures ok ==> ctx.Indexed(s) && ctx.nextToUpdate <= ip' + FIRST
    ensures ok ==> Emitted(s.text, dst, op', p', anchor') && anchor' <= ip' && ip < ip' <= |s.text|
    ensures Alone(s.text, ip, len) ==>
              && EncodedOr(s.text, dst[..], op, anchor, Match(ip, ip - off, len), o, ok, op')
              && (ok ==> anchor' == ip' == ip + len)
    ensures len > sufficient ==>
              && EncodedOr(s.text, dst[..], op, anchor, Match(ip, ip - off, len), o, ok, op')
              && anchor' == ip' == ip + len
    ensures forall k :: lim <= k < dst.Length ==> dst[k] == old(dst[k])
  {
    hide Context.Indexed, Emitted, Bound, Usable, Room, Alone, EncodedOr;
    UsableFacts(s.text, Match(ip, ip - off, len));
    if len > sufficient {
      ok, op', p' := EncodeSequence(s.text, dst, op, anchor, Match(ip, ip - off, len), o, lim, p);
      ip' := ip + len;
      anchor' := ip';
    } else {
      ok, op', anchor', ip', p' := Round(s, ctx, opt, dst, op, anchor, ip, off, len, sufficient, fullUpdate, o, lim, p);
    }
  }

  /** The main loop. */
  method OptimalSequences(s: Search, ctx: Context, opt: array<Optimal>, dst: array<byte>, sufficient: nat,
                          fullUpdate: bool, o: Limit, ghost lim: nat, ghost a: nat, ghost b: nat)
    returns (ok: bool, op: nat, anchor: nat, ghost p: Parse)
    requires ctx.Indexed(s) && ctx.nextToUpdate == FIRST && opt.Length == OPT_SIZE && 0 < s.attempts
    requires sufficient < OPT_NUM && Room(|s.text|, o, lim) && lim <= dst.Length
    modifies ctx, ctx.hashTable, ctx.chainTable, opt, dst
    ensures !ok ==> o.limited && o.olimit < Bound(|s.text|)
    ensures ok ==> Emitted(s.text, dst, op, p, anchor)
    ensures Matchless(s.text) ==> ok && op == 0 && anchor == 0
    ensures Stops(s.text, a, b, o) ==> !ok && StoppedAt(s.text, dst[..], a, b)
    ensures Repeating(s, ctx.hashTable.Length, a) && a + sufficient + LASTLITERALS < |s.text| ==>
              OneMatch(|s.text|, a, o, ok, op, anchor)
    ensures forall k :: lim <= k < dst.Length ==> dst[k] == old(dst[k])
  {
    hide Context.Indexed, Emitted, Bound, Usable, Room, EncodedOr, MatchlessTo, LatestTried, Stops, StoppedAt, OnTheWay,
         Alone, Tried, Uniform, Repeating, OneMatch, OnTheRepetition;
    ok, op, anchor, p := true, 0, 0, Start;
    NothingEmitted(s.text, dst);
    SomeSlots(s, ctx, a);
    ghost var stops := Stops(s.text, a, b, o);
    ghost var repeats := Repeating(s, ctx.hashTable.Length, a) && a + sufficient + LASTLITERALS < |s.text|;
    RepetitionAhead(|s.text|, a, o);
    var ip := 0;
    StopsStart(s.text, a, b, o);
    while ip + MFLIMIT < |s.text|
      invariant ctx.Indexed(s) && ctx.nextToUpdate <= ip + FIRST
      invariant Emitted(s.text, dst, op, p, anchor) && anchor <= ip <= |s.text|
      invariant Matchless(s.text) ==> op == 0 && anchor == 0
      invariant stops ==> OnTheWay(Main(ip), a, b, op, anchor)
      invariant repeats ==> a + MFLIMIT < |s.text| && OnTheRepetition(Main(ip), |s.text|, a, o, op, anchor)
      invariant forall k :: lim <= k < dst.Length ==> dst[k] == old(dst[k])
    {
      var off, len := FindLongerMatch(s, ctx, ip, MINMATCH - 1);
      FoundOrNot(s, ctx.hashTable.Length, a, b, o, op, anchor, ip, off, len);
      if repeats {
        RepeatedOrNot(s, ctx.hashTable.Length, a, o, op, anchor, ip, off, len);
      }
      if len == 0 {
        ip := ip + 1;
      } else {
        NotMatchless(s.text, Match(ip, ip - off, len), |s.text| - MFLIMIT);
        ghost var m, op0, anchor0 := Match(ip, ip - off, len), op, anchor;
        ok, op, anchor, ip, p := EncodeFound(s, ctx, opt, dst, op, anchor, ip, off, len, sufficient, fullUpdate, o,
                                             lim, p);
        if stops {
          AfterMatch(s.text, dst[..], a, b, o, op0, anchor0, m, ok, op, anchor);
        }
        if repeats {
          RepetitionEncoded(s.text, dst[..], a, m, m, o, ok, Main(ip), op, anchor);
        }
        if !ok {
          return;
        }
      }
    }
    StopsNotAtEnd(s.text, a, b, o, op, anchor, ip);
    if repeats {
      RepetitionDone(|s.text|, a, o, op, anchor, ip);
    }
  }

  lemma RepetitionAhead(n: nat, d: nat, o: Limit)
    ensures d + MFLIMIT < n ==> OnTheRepetition(Main(0), n, d, o, 0, 0)
  {
  }

  lemma RepetitionDone(n: nat, d: nat, o: Limit, op: nat, anchor: nat, ip: nat)
    requires d + MFLIMIT < n <= ip + MFLIMIT && OnTheRepetition(Main(ip), n, d, o, op, anchor)
    ensures OneMatch(n, d, o, true, op, anchor)
  {
  }

  /** A search before the repetition finds nothing, or all of it. */
  lemma RepeatedOrNot(s: Search, size: nat, d: nat, o: Limit, op: nat, anchor: nat, ip: nat, off: nat, len: nat)
    requires 0 < size && Repeating(s, size, d) && d + MFLIMIT < |s.text| && ip + MFLIMIT < |s.text|
    requires OnTheRepetition(Main(ip), |s.text|, d, o, op, anchor)
    requires len == 0 || (0 < off <= ip && Usable(s.text, Match(ip, ip - off, len)))
    requires !(s.patternAnalysis && Uniform(s.text, ip)) ==>
               Tried(s, size, ip, ip, |s.text| - LASTLITERALS, if len == 0 then MINMATCH - 1 else len)
    ensures op == 0 && anchor == 0
    ensures if len == 0 then OnTheRepetition(Main(ip + 1), |s.text|, d, o, 0, 0)
            else && OnTheRepetition(Search2(Match(ip, ip - off, len), Match(ip, ip - off, len)), |s.text|, d, o, 0, 0)
                 && len == |s.text| - LASTLITERALS - d
  {
    hide Repeating, Usable, Tried, Uniform, OneMatch;
    var m := Match(ip, if len == 0 then 0 else ip - off, len);
    RepetitionFound(s, size, d, ip, if len == 0 then Main(ip + 1) else Search2(m, m), o);
  }

  lemma StopsStart(text: seq<byte>, a: nat, b: nat, o: Limit)
    ensures Stops(text, a, b, o) ==> OnTheWay(Main(0), a, b, 0, 0)
  {
  }

  /** Both matches lie before the end. */
  lemma StopsNotAtEnd(text: seq<byte>, a: nat, b: nat, o: Limit, op: nat, anchor: nat, ip: nat)
    requires ip + MFLIMIT >= |text|
    ensures !(Stops(text, a, b, o) && OnTheWay(Main(ip), a, b, op, anchor))
  {
    if Stops(text, a, b, o) {
      StopsFacts(text, a, b, o);
    }
  }

  /** A search on the way finds nothing, or the next match. */
  lemma FoundOrNot(s: Search, size: nat, a: nat, b: nat, o: Limit, op: nat, anchor: nat, ip: nat, off: nat, len: nat)
    requires 0 < size && ip + MFLIMIT < |s.text| && 0 < s.attempts
    requires len == 0 || (0 < off <= ip && Usable(s.text, Match(ip, ip - off, len)))
    requires LatestTried(s, size, ip, |s.text| - LASTLITERALS, if len == 0 then MINMATCH - 1 else len)
    ensures Stops(s.text, a, b, o) && OnTheWay(Main(ip), a, b, op, anchor) ==>
              if len == 0 then OnTheWay(Main(ip + 1), a, b, op, anchor)
              else OnTheWay(Search2(Match(ip, ip - off, len), Match(ip, ip - off, len)), a, b, op, anchor)
                   && Alone(s.text, ip, len)
  {
    hide CommonLen, RealMatch, Usable, Latest, LatestTried, Sparse, LiteralsGuard, MatchGuard;
    StopsSparse(s.text, a, b, o);
    if Stops(s.text, a, b, o) && OnTheWay(Main(ip), a, b, op, anchor) {
      var st := if len == 0 then Main(ip + 1) else Search2(Match(ip, ip - off, len), Match(ip, ip - off, len));
      AfterMain(s, size, a, b, op, anchor, ip, st);
      StopsFacts(s.text, a, b, o);
      if len > 0 {
        AloneInSparse(s.text, a, b, Match(ip, ip - off, len));
      }
    }
  }

  lemma AloneInSparse(text: seq<byte>, a: nat, b: nat, m: Match)
    requires Sparse(text, a, b) && Usable(text, m)
    ensures Alone(text, m.start, m.len)
  {
    hide Usable, Sparse;
    SparseMatch(text, a, b, m);
    SparseApart(text, a, b);
    forall m' | Usable(text, m') && m.start < m'.start
      ensures m.End() <= m'.start
    {
      SparseMatch(text, a, b, m');
    }
  }

  lemma SparseApart(text: seq<byte>, a: nat, b: nat)
    requires Sparse(text, a, b)
    ensures a == b || a + MINMATCH <= b
  {
  }

  lemma AfterMatch(text: seq<byte>, d: seq<byte>, a: nat, b: nat, o: Limit, op: nat, anchor: nat, m: Match, ok: bool,
                   op': nat, anchor': nat)
    requires Stops(text, a, b, o) && OnTheWay(Search2(m, m), a, b, op, anchor)
    requires EncodedOr(text, d, op, anchor, m, o, ok, op') && (ok ==> anchor' == m.End())
    ensures if ok then OnTheWay(Main(m.End()), a, b, op', anchor') else StoppedAt(text, d, a, b)
  {
    AfterSearch2(text, d, a, b, o, op, anchor, m, m, ok, Main(m.End()), op', if ok then anchor' else m.End());
  }

  /** LZ4HC_compress_optimal, on the input as a single segment. */
  method CompressOptimal(s: Search, dst: array<byte>, sufficientLen: nat, fullUpdate: bool, o: Limit, ghost lim: nat,
                         ghost a: nat, ghost b: nat) returns (n: nat)
    requires Room(|s.text|, o, lim) && lim <= dst.Length && 0 < s.attempts
    modifies dst
    ensures n == 0 ==> o.limited && o.olimit < Bound(|s.text|)
    ensures n > 0 ==> n <= Bound(|s.text|) && o.Allows(n) && n <= dst.Length && DecodesTo(dst[..n], [], s.text)
    ensures Matchless(s.text) && !o.Allows(|s.text| + 1) ==> n == 0
    ensures Stops(s.text, a, b, o) ==> n == 0 && StoppedAt(s.text, dst[..], a, b)
    ensures Repeating(s, HASH_SIZE, a) && a + sufficientLen + LASTLITERALS < |s.text| ==>
              && a + MFLIMIT < |s.text|
              && n == if RepeatedFits(|s.text|, a, o) then Fast.RepeatedSize(|s.text|, a) else 0
    ensures forall k :: lim <= k < dst.Length ==> dst[k] == old(dst[k])
  {
    hide Bound, DecodesTo, Emitted, MatchlessTo, Stops, StoppedAt, Repeating, OneMatch, LenCost, RepeatedFits;
    ghost var repeats := Repeating(s, HASH_SIZE, a) && a + sufficientLen + LASTLITERALS < |s.text|;
    var opt := new Optimal[OPT_SIZE](_ => Optimal(0, 0, 1, 0));
    var ctx := new Context();
    var sufficient := if sufficientLen >= OPT_NUM then OPT_NUM - 1 else sufficientLen;
    var ok, op, anchor, p := OptimalSequences(s, ctx, opt, dst, sufficient, fullUpdate, o, lim, a, b);
    if !ok {
      if repeats {
        RepeatedResult(|s.text|, a, o, ok, op, anchor, 0);
      }
      return 0;
    }
    n := LastLiterals(s.text, dst, op, anchor, o, lim, p);
    if repeats {
      RepeatedResult(|s.text|, a, o, ok, op, anchor, n);
    }
  }
}
