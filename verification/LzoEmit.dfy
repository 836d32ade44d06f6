/** Writing literal runs and matches, and reading them back: what the two LZO codecs do alike. */
module LzoEmit {
  import opened Bytes
  import opened Lz4Format
  import opened Lz4Emit
  import opened Lz4Match
  import opened LzoFormat

  /** One piece of a run: its header of one or two bytes, then its literals. */
  method PutPiece(text: seq<byte>, ii: nat, n: nat, head: seq<byte>, dst: array<byte>, op: nat, ghost e: seq<byte>)
    returns (op': nat)
    requires ii + n <= |text| && 1 <= |head| <= 2
    requires Has(dst, op, e) && op + |head| + n <= dst.Length
    modifies dst
    ensures op' == op + |head| + n && Has(dst, op', e + head + text[ii..ii + n])
  {
    dst[op] := head[0];
    if |head| == 2 {
      dst[op + 1] := head[1];
    }
    op' := op + |head|;
    assert dst[..op'] == e + head;
    forall i | 0 <= i < n {
      dst[op' + i] := text[ii + i];
    }
    op' := op' + n;
  }

  /** The bytes of a run from `ii` on are those of its first piece and those of the rest. */
  lemma PieceThenRun(rb: rbits, text: seq<byte>, ii: nat, end: nat, e: seq<byte>, p: nat, head: seq<byte>)
    requires ii < end <= |text| && p == Piece(rb, end - ii) && head == PieceHead(rb, end - ii)
    ensures e + RunBytes(rb, text[ii..end]) == (e + head + text[ii..ii + p]) + RunBytes(rb, text[ii + p..end])
    ensures |RunBytes(rb, text[ii..end])| == |head| + p + |RunBytes(rb, text[ii + p..end])|
  {
    hide *;
    var lits := text[ii..end];
    RunParts(rb, lits);
    assert lits[..p] == text[ii..ii + p] && lits[p..] == text[ii + p..end];
  }

  /** A run is stored up to `ii`; `x` is what stands in the destination, and with the rest of the run it is `goal`. */
  ghost predicate Storing(rb: rbits, text: seq<byte>, ii: nat, end: nat, dst: array<byte>, op: nat, x: seq<byte>,
                          goal: seq<byte>)
    reads dst
  {
    && ii <= end <= |text| && Has(dst, op, x)
    && x + RunBytes(rb, text[ii..end]) == goal && |goal| <= dst.Length
  }

  /** The first piece of what remains. */
  method StorePiece(rb: rbits, text: seq<byte>, ii: nat, end: nat, n: nat, head: seq<byte>, dst: array<byte>, op: nat,
                    ghost x: seq<byte>, ghost goal: seq<byte>) returns (op': nat, ghost x': seq<byte>)
    requires Storing(rb, text, ii, end, dst, op, x, goal) && ii < end
    requires n == Piece(rb, end - ii) && head == PieceHead(rb, end - ii)
    modifies dst
    ensures Storing(rb, text, ii + n, end, dst, op', x', goal)
  {
    hide RunBytes, Piece, PieceHead;
    PieceThenRun(rb, text, ii, end, x, n, head);
    HeadLength(rb, end - ii);
    op' := PutPiece(text, ii, n, head, dst, op, x);
    x' := x + head + text[ii..ii + n];
  }

  lemma HeadLength(rb: rbits, n: nat)
    requires n > 0
    ensures 1 <= |PieceHead(rb, n)| <= 2
  {
  }

  lemma StoringRange(rb: rbits, text: seq<byte>, ii: nat, end: nat, dst: array<byte>, op: nat, x: seq<byte>,
                     goal: seq<byte>)
    requires Storing(rb, text, ii, end, dst, op, x, goal)
    ensures ii <= end <= |text|
  {
  }

  lemma Stored(rb: rbits, text: seq<byte>, ii: nat, end: nat, dst: array<byte>, op: nat, x: seq<byte>, goal: seq<byte>)
    requires Storing(rb, text, ii, end, dst, op, x, goal) && ii == end
    ensures Has(dst, op, goal)
  {
  }

  lemma ShortRun(rb: rbits, lits: seq<byte>)
    requires 0 < |lits| < R0Min(rb)
    ensures RunBytes(rb, lits) == [|lits| as byte] + lits
  {
    NoRun(rb, lits[|lits|..]);
  }

  lemma HasLength(dst: array<byte>, op: nat, e: seq<byte>)
    requires Has(dst, op, e)
    ensures op == |e|
  {
  }

  /** Length of the match at `ip`: up to a long match, and then as far as it goes. */
  method MeasureMatch(c: Input, ip: nat, m: nat) returns (len: nat)
    requires m < ip < IpEnd(c) && SameThree(c, ip, m)
    ensures len == MatchLen(c, ip, m)
  {
    hide CommonLen, Agree;
    var inEnd := |c.text| - DVAL_LEN;
    var end := if inEnd <= ip + MaxMatchLong(c.rb) then inEnd else ip + MaxMatchLong(c.rb);
    AgreeThree(c, ip, m);
    len := MIN_MATCH;
    while len < MinMatchLong(c.rb) && c.text[m + len] == c.text[ip + len]
      invariant len <= MinMatchLong(c.rb) && Agree(c.text, m, ip, len)
    {
      AgreeMore(c.text, m, ip, len);
      len := len + 1;
    }
    if len == MinMatchLong(c.rb) {
      while ip + len < end && c.text[m + len] == c.text[ip + len]
        invariant ip + len <= end && Agree(c.text, m, ip, len)
      {
        AgreeMore(c.text, m, ip, len);
        len := len + 1;
      }
    }
    CommonLenAgree(c.text, m, ip, end, len);
    CommonLenStops(c.text, m + len, ip + len, end);
  }

  lemma AgreeMore(text: seq<byte>, m: nat, p: nat, w: nat)
    requires m <= p && p + w < |text| && Agree(text, m, p, w) && text[m + w] == text[p + w]
    ensures Agree(text, m, p, w + 1)
  {
  }

  lemma CommonLenStops(text: seq<byte>, m: nat, p: nat, limit: nat)
    requires m <= p <= limit <= |text| && (p < limit ==> text[m] != text[p])
    ensures CommonLen(text, m, p, limit) == 0
  {
  }

  /** Marker, high offset bits, and the length of a long match. */
  method StoreMatch(rb: rbits, off: nat, len: nat, dst: array<byte>, op: nat, ghost e: seq<byte>) returns (op': nat)
    requires Encodable(rb, off, len) && Has(dst, op, e) && op + |MatchBytes(rb, off, len)| <= dst.Length
    modifies dst
    ensures Has(dst, op', e + MatchBytes(rb, off, len))
  {
    hide Marker, Low, High;
    if len < MinMatchLong(rb) {
      dst[op], dst[op + 1] := Marker(rb, len - THRESHOLD, Low(rb, off)), High(rb, off);
      op' := op + 2;
    } else {
      dst[op], dst[op + 1] := Marker(rb, MSize(rb) - 1, Low(rb, off)), High(rb, off);
      dst[op + 2] := len - MinMatchLong(rb);
      op' := op + 3;
    }
  }

  // ---------- reading ----------

  /** A literal run's length and where its literals start. */
  method ReadRunLength(rb: rbits, src: seq<byte>, ip: nat) returns (from: nat, n: nat)
    requires ip < |src| && src[ip] < R0Min(rb) && ReadRun(rb, src, ip).Run?
    ensures ReadRun(rb, src, ip) == Run(from, n)
  {
    var t := src[ip];
    from := ip + 1;
    if t == 0 {
      t := src[from];
      from := from + 1;
      if t >= R0FAST_CODE {
        n := LongRunLength(rb, t - R0FAST_CODE);
      } else {
        n := t + R0Min(rb);
      }
    } else {
      n := t;
    }
  }

  /** 256 shifted left `t` times, or R0FAST. */
  method LongRunLength(rb: rbits, t: nat) returns (n: nat)
    requires t <= 7
    ensures n == R0Length(rb, R0FAST_CODE + t)
  {
    if t == 0 {
      return R0Fast(rb);
    }
    var tt, k := 256, 0;
    while k < t
      invariant k <= t && tt == Chunk(k)
    {
      tt, k := 2 * tt, k + 1;
    }
    n := tt;
  }

  /** Offset and length of a match. */
  method ReadMatchParts(rb: rbits, src: seq<byte>, ip: nat) returns (off: nat, len: nat, next: nat)
    requires ip < |src| && R0Min(rb) <= src[ip] && ReadMatch(rb, src, ip).Copy?
    ensures ReadMatch(rb, src, ip) == Copy(off, len, next)
  {
    var t := src[ip];
    off := 1 + t % R0Min(rb) + src[ip + 1] * R0Min(rb);
    if t >= (MSize(rb) - 1) * R0Min(rb) {
      len, next := THRESHOLD + (MinMatchLong(rb) - THRESHOLD) + src[ip + 2], ip + 3;
    } else {
      len, next := THRESHOLD + t / R0Min(rb), ip + 2;
    }
  }

  /** MEMCPY_DS from the source. */
  method CopyLiterals(src: seq<byte>, from: nat, n: nat, dst: array<byte>, op: nat)
    requires from + n <= |src| && op + n <= dst.Length
    modifies dst
    ensures dst[..op + n] == old(dst[..op]) + src[from..from + n]
  {
    forall i | 0 <= i < n {
      dst[op + i] := src[from + i];
    }
  }

  /** MEMCPY_DS from the output, byte by byte, overlapping what it writes. */
  method CopyBack(dst: array<byte>, op: nat, off: nat, len: nat)
    requires 0 < off <= op && op + len <= dst.Length
    modifies dst
    ensures dst[..op + len] == CopyMatch(old(dst[..op]), off, len)
  {
    hide CopyMatch;
    for i := 0 to len
      invariant dst[..op] == old(dst[..op]) && Repeats(dst[..op + i], op, op + i, off)
    {
      ghost var before := dst[..op + i];
      dst[op + i] := dst[op + i - off];
      assert dst[..op + i + 1] == before + [before[op + i - off]];
    }
    CopyMatchUnique(old(dst[..op]), off, len, dst[..op + len]);
  }
}
