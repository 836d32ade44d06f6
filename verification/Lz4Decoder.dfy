/**
 LZ4_decompress_generic, in its safe and complete form (endOnInputSize, full), with the history taken from nothing,
 from a prefix or from an external dictionary. The destination is a range of an array: every write is in it.
 */
module Lz4Decoder {
  import opened Bytes
  import opened Lz4Format

  // ---------- copies ----------

  /** LZ4_copy8 inside one buffer: eight bytes are read, then written. */
  method Copy8(buf: array<byte>, d: nat, s: nat)
    requires d + 8 <= buf.Length && s + 8 <= buf.Length
    modifies buf
    ensures forall k :: 0 <= k < buf.Length ==> buf[k] == if d <= k < d + 8 then old(buf[s + (k - d)]) else old(buf[k])
  {
    forall i | 0 <= i < 8 {
      buf[d + i] := buf[s + i];
    }
  }

  /** The cells [from, to) of the buffer hold what `t` says, cell `k` being `t[k + z]`. */
  ghost predicate Holds(buf: array<byte>, from: int, to: int, t: seq<byte>, z: int)
    reads buf
  {
    && 0 <= from && to <= buf.Length && 0 <= from + z && to + z <= |t|
    && forall k :: from <= k < to ==> buf[k] == t[k + z]
  }

  /** From `from` on, `t` repeats what stands `dist` bytes before. */
  ghost predicate Periodic(t: seq<byte>, from: int, dist: nat) {
    dist <= from && forall k :: from <= k < |t| ==> t[k] == t[k - dist]
  }

  /** LZ4_wildCopy inside one buffer: may write up to seven bytes past `e`. */
  method WildCopy(buf: array<byte>, d: nat, s: nat, e: nat, ghost t: seq<byte>, ghost z: int)
    requires s + 8 <= d && d + 8 <= buf.Length && e + 7 <= buf.Length
    requires Holds(buf, s, d, t, z) && d + 8 + z <= |t| && e + 7 + z <= |t|
    requires Periodic(t, d + z, d - s)
    modifies buf
    ensures Holds(buf, s, if d < e then e else d + 8, t, z)
    ensures forall k :: 0 <= k < buf.Length && (k < d || k >= d + 8) && (k < d || k >= e + 7) ==> buf[k] == old(buf[k])
  {
    var i, j := d, s;
    while true
      invariant d <= i && j == i - (d - s) && (i == d || i < e)
      invariant Holds(buf, s, i, t, z)
      invariant forall k :: 0 <= k < buf.Length && (k < d || k >= i) ==> buf[k] == old(buf[k])
      decreases e - i
    {
      Copy8(buf, i, j);
      i, j := i + 8, j + 8;
      if i >= e {
        break;
      }
    }
  }

  /** LZ4_wildCopy of literals: reads and writes whole groups of eight. */
  method WildCopyLiterals(src: seq<byte>, ip: nat, buf: array<byte>, op: nat, length: nat)
    requires ip + length + 8 <= |src| && op + length + 8 <= buf.Length
    modifies buf
    ensures buf[op..op + length] == src[ip..ip + length]
    ensures forall k :: 0 <= k < buf.Length && (k < op || k >= op + length + 8) ==> buf[k] == old(buf[k])
  {
    var i := 0;
    while true
      invariant 0 <= i < length || i == 0
      invariant forall k :: op <= k < op + i && k < buf.Length ==> buf[k] == src[ip + (k - op)]
      invariant forall k :: 0 <= k < buf.Length && (k < op || k >= op + i) ==> buf[k] == old(buf[k])
      decreases length - i
    {
      forall k | 0 <= k < 8 {
        buf[op + i + k] := src[ip + i + k];
      }
      i := i + 8;
      if i >= length {
        break;
      }
    }
  }

  method CopyBytes(src: seq<byte>, ip: nat, buf: array<byte>, op: nat, length: nat)
    requires ip + length <= |src| && op + length <= buf.Length
    modifies buf
    ensures buf[op..op + length] == src[ip..ip + length]
    ensures forall k :: 0 <= k < buf.Length && (k < op || k >= op + length) ==> buf[k] == old(buf[k])
  {
    forall k | 0 <= k < length {
      buf[op + k] := src[ip + k];
    }
  }

  // ---------- overlapping matches ----------

  lemma {:induction false} RepeatsMultiple(t: seq<byte>, h: nat, off: nat, m: nat, k: nat)
    requires 1 <= m && off <= h <= k < |t| && Repeats(t, h, |t|, off) && 0 < off
    requires h - off <= k - m * off
    ensures t[k] == t[k - m * off]
    decreases m
  {
    if m > 1 {
      assert (m - 1) * off == m * off - off;
      assert k - off >= h by {
        assert (m - 2) * off >= 0;
        assert (m - 2) * off == m * off - 2 * off;
      }
      RepeatsMultiple(t, h, off, m - 1, k - off);
    } else {
      assert m * off == off;
    }
  }

  /** A repetition at distance `off` is one at any multiple of it. */
  lemma PeriodicMultiple(t: seq<byte>, h: nat, off: nat, m: nat, from: nat)
    requires 1 <= m && 0 < off <= h && Repeats(t, h, |t|, off)
    requires h <= from && h - off <= from - m * off
    ensures Periodic(t, from, m * off)
  {
    forall k | from <= k < |t|
      ensures t[k] == t[k - m * off]
    {
      RepeatsMultiple(t, h, off, m, k);
    }
  }

  function Inc32(off: nat): nat
    requires off < 8
  {
    [0, 1, 2, 1, 0, 4, 4, 4][off]
  }

  function Dec64(off: nat): int
    requires off < 8
  {
    [0, 0, 0, -1, -4, 1, 2, 3][off]
  }

  /** What the two tables are for: after four bytes, and after eight, the distance is a multiple of the offset. */
  lemma TableDistances(t: seq<byte>, h: nat, off: nat)
    requires off < 8 && off <= h && h + 8 <= |t| && Repeats(t, h, |t|, off)
    ensures var d4 := 4 + off - Inc32(off);
            var d8 := 4 + d4 + Dec64(off);
            && 4 <= d4 <= 4 + off
            && (forall k :: h + 4 <= k < h + 8 ==> t[k] == t[k - d4])
            && 8 <= d8 <= 8 + off && Periodic(t, h + 8, d8)
  {
    if off == 0 {
      assert Periodic(t, h + 8, 8);
    } else {
      var m4 := [0, 4, 2, 2, 2, 1, 1, 1][off];
      var m8 := [0, 8, 4, 3, 2, 2, 2, 2][off];
      PeriodicMultiple(t, h, off, m4, h + 4);
      PeriodicMultiple(t, h, off, m8, h + 8);
    }
  }

  /** History and output up to `op`: the external dictionary, then the buffer from its lowest prefix byte. */
  ghost function Out(dict: seq<byte>, buf: array<byte>, lo: nat, op: nat): seq<byte>
    requires lo <= op <= buf.Length
    reads buf
  {
    dict + buf[lo..op]
  }

  /** One byte of a match. */
  method CopyByte(buf: array<byte>, from: nat, op: nat, off: nat, ghost t: seq<byte>, ghost z: int)
    requires from + off <= op < buf.Length
    requires Holds(buf, from, op, t, z) && op + z < |t|
    requires t[op + z] == if off == 0 then 0 else t[op + z - off]
    requires off == 0 ==> buf[op] == 0
    modifies buf
    ensures Holds(buf, from, op + 1, t, z)
    ensures forall k :: 0 <= k < buf.Length && k != op ==> buf[k] == old(buf[k])
  {
    buf[op] := buf[op - off];
  }

  /** Four single bytes, each of which may be the source of the next. */
  method CopyFirst4(buf: array<byte>, op: nat, off: nat, ghost t: seq<byte>, ghost z: int)
    requires off <= op && op + 4 <= buf.Length
    requires Holds(buf, op - off, op, t, z) && off <= op + z && op + 4 + z <= |t|
    requires Repeats(t, op + z, |t|, off)
    requires off == 0 ==> forall k :: op <= k < op + 4 ==> buf[k] == 0
    modifies buf
    ensures Holds(buf, op - off, op + 4, t, z)
    ensures forall k :: 0 <= k < buf.Length && (k < op || k >= op + 4) ==> buf[k] == old(buf[k])
  {
    CopyByte(buf, op - off, op, off, t, z);
    CopyByte(buf, op - off, op + 1, off, t, z);
    CopyByte(buf, op - off, op + 2, off, t, z);
    CopyByte(buf, op - off, op + 3, off, t, z);
  }

  /** The first eight bytes of a match inside the buffer, and the place to go on copying from. */
  method CopyFirst8(buf: array<byte>, op: nat, off: nat, ghost t: seq<byte>, ghost z: int) returns (match_: nat)
    requires off <= op && op + 8 <= buf.Length
    requires Holds(buf, op - off, op, t, z) && off <= op + z && op + 8 + z <= |t|
    requires Repeats(t, op + z, |t|, off)
    requires off == 0 ==> forall k :: op <= k < op + 4 ==> buf[k] == 0
    modifies buf
    ensures op - off <= match_ <= op && Periodic(t, op + 8 + z, op + 8 - match_)
    ensures Holds(buf, op - off, op + 8, t, z)
    ensures forall k :: 0 <= k < buf.Length && (k < op || k >= op + 8) ==> buf[k] == old(buf[k])
  {
    match_ := op - off;
    if off < 8 {
      CopyFirst4(buf, op, off, t, z);
      TableDistances(t, op + z, off);
      match_ := match_ + Inc32(off);
      forall i | 0 <= i < 4 {
        buf[op + 4 + i] := buf[match_ + i];
      }
      assert Holds(buf, op - off, op + 8, t, z);
      match_ := match_ - Dec64(off);
    } else {
      Copy8(buf, op, match_);
      match_ := match_ + 8;
    }
  }

  /** The rest of a match inside the buffer, once its first eight bytes are there. */
  method CopyRest(buf: array<byte>, op: nat, match0: nat, cpy: nat, oend: nat, ghost t: seq<byte>, ghost z: int)
    returns (ok: bool)
    requires match0 + 8 <= op && op < cpy + 5 && op + 4 <= oend <= buf.Length
    requires Holds(buf, match0, op, t, z) && oend + z <= |t| && Periodic(t, op + z, op - match0)
    modifies buf
    ensures ok == (cpy + LASTLITERALS <= oend)
    ensures ok && op < cpy ==> Holds(buf, op, cpy, t, z)
    ensures forall k :: 0 <= k < buf.Length && (k < op || k >= oend) ==> buf[k] == old(buf[k])
  {
    if cpy > oend - 12 {
      var oCopyLimit := oend - 7;
      if cpy > oend - LASTLITERALS {
        return false;
      }
      var o, m := op, match0;
      if op < oCopyLimit {
        WildCopy(buf, op, match0, oCopyLimit, t, z);
        o, m := oCopyLimit, match0 + (oCopyLimit - op);
      }
      while o < cpy
        invariant m == o - (op - match0) && op <= o
        invariant Holds(buf, match0, o, t, z)
        invariant forall k :: 0 <= k < buf.Length && (k < op || k >= oend) ==> buf[k] == old(buf[k])
      {
        buf[o] := buf[m];
        o, m := o + 1, m + 1;
      }
    } else {
      Copy8(buf, op, match0);
      if cpy > op + 8 {
        WildCopy(buf, op + 8, match0 + 8, cpy, t, z);
      }
    }
    return true;
  }

  /** Once the buffer holds the target, the output is the naive copy. */
  lemma HoldsSlice(dict: seq<byte>, buf: array<byte>, lo: nat, cpy: nat, h: seq<byte>, off: nat, len: nat, t: seq<byte>)
    requires lo <= cpy <= buf.Length && off <= |h| && |h| + len == |dict| + (cpy - lo) <= |t|
    requires h <= t && Repeats(t, |h|, |t|, off) && forall k :: 0 <= k < |dict| ==> t[k] == dict[k]
    requires Holds(buf, lo, cpy, t, |dict| - lo)
    ensures Out(dict, buf, lo, cpy) == CopyMatch(h, off, len)
  {
    var r := Out(dict, buf, lo, cpy);
    forall k | 0 <= k < |r|
      ensures r[k] == t[k]
    {
      if k >= |dict| {
        assert r[k] == buf[k - |dict| + lo];
      }
    }
    CopyMatchUnique(h, off, len, r);
  }

  /** What the buffer should hold once a match of `len` bytes is copied. */
  ghost function Target(dict: seq<byte>, buf: array<byte>, lo: nat, op: nat, off: nat, len: nat): (t: seq<byte>)
    requires lo <= op <= buf.Length && lo + off <= op + |dict|
    reads buf
  {
    CopyMatch(Out(dict, buf, lo, op), off, len)
  }

  lemma TargetProps(dict: seq<byte>, buf: array<byte>, lo: nat, op: nat, off: nat, len: nat)
    requires lo <= op <= buf.Length && lo + off <= op + |dict|
    ensures var t := Target(dict, buf, lo, op, off, len);
            var h := |dict| + (op - lo);
            && |t| == h + len && Out(dict, buf, lo, op) <= t
            && Repeats(t, h, |t|, off)
            && Holds(buf, lo, op, t, |dict| - lo)
            && (forall k :: 0 <= k < |dict| ==> t[k] == dict[k])
  {
    var h := Out(dict, buf, lo, op);
    CopyMatchProps(h, off, len);
    var t := CopyMatch(h, off, len);
    forall k | lo <= k < op
      ensures buf[k] == t[k + (|dict| - lo)]
    {
      assert t[k + (|dict| - lo)] == h[k + (|dict| - lo)];
    }
    forall k | 0 <= k < |dict|
      ensures t[k] == dict[k]
    {
      assert t[k] == h[k];
    }
  }

  lemma OutSize(dict: seq<byte>, buf: array<byte>, lo: nat, op: nat)
    requires lo <= op <= buf.Length
    ensures |Out(dict, buf, lo, op)| == |dict| + (op - lo)
  {
  }

  lemma PeriodicFrom(t: seq<byte>, h: nat, off: nat, from: int)
    requires 0 < off <= h <= from && h <= |t| && Repeats(t, h, |t|, off)
    ensures Periodic(t, from, off)
  {
  }

  /** A match that starts inside the buffer. */
  method CopyMatchInside(ghost dict: seq<byte>, buf: array<byte>, lo: nat, op: nat, off: nat, length: nat, oend: nat)
    returns (ok: bool)
    requires lo + off <= op && op + 12 <= oend <= buf.Length && length >= MINMATCH
    requires off == 0 ==> forall k :: op <= k < op + 4 ==> buf[k] == 0
    modifies buf
    ensures ok == (op + length + LASTLITERALS <= oend)
    ensures ok ==> Out(dict, buf, lo, op + length) == CopyMatch(old(Out(dict, buf, lo, op)), off, length)
    ensures forall k :: 0 <= k < buf.Length && (k < op || k >= oend) ==> buf[k] == old(buf[k])
  {
    hide CopyMatch;
    ghost var h := Out(dict, buf, lo, op);
    ghost var t := Target(dict, buf, lo, op, off, oend - op);
    ghost var z := |dict| - lo;
    TargetProps(dict, buf, lo, op, off, oend - op);
    var m := CopyFirst8(buf, op, off, t, z);
    ok := CopyRest(buf, op + 8, m, op + length, oend, t, z);
    if ok {
      assert Holds(buf, lo, op + length, t, z);
      HoldsSlice(dict, buf, lo, op + length, h, off, length, t);
    }
  }

  /** The part of a match that stands `back` bytes before the end of the external dictionary. */
  method CopyMatchHead(dict: seq<byte>, buf: array<byte>, lo: nat, op: nat, back: nat, n: nat, ghost t: seq<byte>)
    requires lo <= op && n <= back <= |dict| && op + n <= buf.Length
    requires Holds(buf, lo, op, t, |dict| - lo) && |dict| + (op - lo) + n <= |t|
    requires forall k :: 0 <= k < |dict| ==> t[k] == dict[k]
    requires Periodic(t, |dict| + (op - lo), op - lo + back)
    modifies buf
    ensures Holds(buf, lo, op + n, t, |dict| - lo)
    ensures forall k :: 0 <= k < buf.Length && (k < op || k >= op + n) ==> buf[k] == old(buf[k])
  {
    forall i | 0 <= i < n {
      buf[op + i] := dict[|dict| - back + i];
    }
    forall k | op <= k < op + n
      ensures buf[k] == t[k + (|dict| - lo)]
    {
      var j := k + (|dict| - lo);
      assert t[j] == t[j - (op - lo + back)] == dict[j - (op - lo + back)];
    }
  }

  /** The part of a match that continues from the external dictionary into the buffer. */
  method CopyMatchTail(buf: array<byte>, lo: nat, op: nat, end: nat, ghost t: seq<byte>, ghost z: int)
    requires lo < op <= end <= buf.Length
    requires Holds(buf, lo, op, t, z) && end + z <= |t| && Periodic(t, op + z, op - lo)
    modifies buf
    ensures Holds(buf, lo, end, t, z)
    ensures forall k :: 0 <= k < buf.Length && (k < op || k >= end) ==> buf[k] == old(buf[k])
  {
    var restSize := end - op;
    if restSize > op - lo {
      var o, copyFrom := op, lo;
      while o < end
        invariant op <= o <= end && copyFrom == lo + (o - op)
        invariant Holds(buf, lo, o, t, z)
        invariant forall k :: 0 <= k < buf.Length && (k < op || k >= end) ==> buf[k] == old(buf[k])
      {
        buf[o] := buf[copyFrom];
        o, copyFrom := o + 1, copyFrom + 1;
      }
    } else {
      forall i | 0 <= i < restSize {
        buf[op + i] := buf[lo + i];
      }
    }
  }

  /** A match that starts in the external dictionary, and may run into the buffer. */
  method CopyMatchFromDict(dict: seq<byte>, buf: array<byte>, lo: nat, op: nat, off: nat, length: nat, oend: nat)
    returns (ok: bool)
    requires lo <= op < lo + off <= op + |dict| && op <= oend <= buf.Length && length >= MINMATCH
    modifies buf
    ensures ok == (op + length + LASTLITERALS <= oend)
    ensures ok ==> Out(dict, buf, lo, op + length) == CopyMatch(old(Out(dict, buf, lo, op)), off, length)
    ensures forall k :: 0 <= k < buf.Length && (k < op || k >= oend) ==> buf[k] == old(buf[k])
  {
    if op + length > oend - LASTLITERALS {
      return false;
    }
    hide *;
    ghost var h := Out(dict, buf, lo, op);
    ghost var t := Target(dict, buf, lo, op, off, length);
    ghost var z := |dict| - lo;
    TargetProps(dict, buf, lo, op, off, length);
    OutSize(dict, buf, lo, op);
    var copySize := lo + off - op;
    PeriodicFrom(t, |h|, off, |h|);
    if length <= copySize {
      CopyMatchHead(dict, buf, lo, op, copySize, length, t);
    } else {
      CopyMatchHead(dict, buf, lo, op, copySize, copySize, t);
      PeriodicFrom(t, |h|, off, op + copySize + z);
      CopyMatchTail(buf, lo, op + copySize, op + length, t, z);
    }
    HoldsSlice(dict, buf, lo, op + length, h, off, length, t);
    ok := true;
  }

  // ---------- lengths ----------

  /** A byte of the source; past its end, memory is arbitrary. */
  function ByteAt(src: seq<byte>, beyond: nat -> byte, i: nat): byte {
    if i < |src| then src[i] else beyond(i)
  }

  /** Length of a literal run: it may be cut short, but only when it runs past the source anyway. */
  method ReadLiteralLength(src: seq<byte>, beyond: nat -> byte, token: byte, ip: nat) returns (length: nat, next: nat)
    requires ip <= |src| + 1
    ensures ip <= next && (ip > |src| ==> next > |src|)
    ensures ip <= |src| ==>
      || (next <= |src| && ReadLen(src, token / 16, ip) == Some((length, next)))
      || (next + length > |src| && match ReadLen(src, token / 16, ip)
                                   case None => true
                                   case Some(r) => r.0 + r.1 > |src|)
  {
    length, next := token / 16, ip;
    if length == RUN_MASK {
      ghost var r := ReadExt(src, ip);
      while true
        invariant (ip <= next <= |src| || ip == next) && length >= RUN_MASK + 255 * (next - ip)
        invariant r == match ReadExt(src, next)
                       case None => None
                       case Some(x) => Some((x.0 + (length - RUN_MASK), x.1))
        decreases |src| - next
      {
        var s := ByteAt(src, beyond, next);
        next, length := next + 1, length + s;
        if !(next + RUN_MASK < |src| && s == 255) {
          break;
        }
      }
    }
  }

  /** Length of a match: its bytes must leave room for the last literals. */
  method ReadMatchLength(src: seq<byte>, token: byte, ip: nat) returns (ok: bool, length: nat, next: nat)
    requires ip + LASTLITERALS < |src|
    ensures ip <= next <= |src|
    ensures ok ==> next + LASTLITERALS <= |src| &&
                   ReadLen(src, token % 16, ip) == Some((length - MINMATCH, next)) && length >= MINMATCH
    ensures !ok ==> match ReadLen(src, token % 16, ip)
                    case None => true
                    case Some(r) => r.1 + LASTLITERALS > |src|
  {
    length, next := token % 16, ip;
    if length == ML_MASK {
      ghost var r := ReadExt(src, ip);
      while true
        invariant ip <= next && next + LASTLITERALS <= |src| && length >= ML_MASK
        invariant r == match ReadExt(src, next)
                       case None => None
                       case Some(x) => Some((x.0 + (length - ML_MASK), x.1))
        decreases |src| - next
      {
        var s := src[next];
        next := next + 1;
        if next + LASTLITERALS > |src| {
          return false, length, next;
        }
        length := length + s;
        if s != 255 {
          break;
        }
      }
    }
    return true, length + MINMATCH, next;
  }

  // ---------- one sequence ----------

  datatype Status = Error | Done | More

  /** Which tokens announce a small sequence. */
  lemma ParseShort(src: seq<byte>, ip: nat)
    requires ip < |src|
    ensures var (token, s) := (src[ip], ParseSeq(src, ip));
            && (ip + 17 <= |src| && token < 240 && token % 16 != 15 ==>
                  var ll := token / 16;
                  s == Seq(ip + 1, ll, ReadLE16(src[ip + 1 + ll], src[ip + 2 + ll]), token % 16 + MINMATCH,
                       ip + 3 + ll))
            && (s.Seq? && s.ll < 15 && s.len < 19 ==> token < 240 && token % 16 != 15)
  {
  }

  /** Small sequences, decoded with fixed-size copies. */
  method TryShortcut(src: seq<byte>, ghost dict: seq<byte>, buf: array<byte>, ip: nat, lo: nat, op: nat, oend: nat)
    returns (taken: bool, ip': nat, op': nat)
    requires ip < |src| && lo <= op <= oend <= buf.Length
    modifies buf
    ensures var s := ParseSeq(src, ip);
            var dn := |dict| - lo;
            && taken == (s.Seq? && Shortcut(src, s, ip, op + dn, |dict|, oend + dn))
            && (taken ==> ip' == s.next && op' == op + s.ll + s.len && op' <= oend
                          && s.off <= |dict| + (op - lo) + s.ll
                          && Out(dict, buf, lo, op')
                          == CopyMatch(old(Out(dict, buf, lo, op)) + src[s.lit..s.lit + s.ll], s.off, s.len))
    ensures !taken ==> Out(dict, buf, lo, op) == old(Out(dict, buf, lo, op))
    ensures forall k :: 0 <= k < buf.Length && (k < op || k >= oend) ==> buf[k] == old(buf[k])
  {
    hide CopyMatch;
    ParseShort(src, ip);
    hide ParseSeq;
    var token := src[ip];
    if ip + 1 + 14 + 2 <= |src| && op + 14 + 18 <= oend && token < 15 * 16 && token % 16 != 15 {
      var ll := token / 16;
      var off := ReadLE16(src[ip + 1 + ll], src[ip + 2 + ll]);
      if off >= 18 && op + ll >= lo + off {
        var ml := token % 16 + MINMATCH;
        CopySixteen(src, ip + 1, dict, buf, lo, op, ll);
        CopyShortMatch(dict, buf, lo, op + ll, off, ml);
        return true, ip + 1 + ll + 2, op + ll + ml;
      }
    }
    return false, ip, op;
  }

  /** memcpy of 16 literals, of which `len` count. */
  method CopySixteen(src: seq<byte>, ip: nat, ghost dict: seq<byte>, buf: array<byte>, lo: nat, op: nat, len: nat)
    requires ip + 16 <= |src| && lo <= op && op + 16 <= buf.Length && len <= 16
    modifies buf
    ensures Out(dict, buf, lo, op + len) == old(Out(dict, buf, lo, op)) + src[ip..ip + len]
    ensures forall k :: 0 <= k < buf.Length && (k < op || k >= op + 16) ==> buf[k] == old(buf[k])
  {
    forall i | 0 <= i < 16 {
      buf[op + i] := src[ip + i];
    }
    assert buf[lo..op + len] == buf[lo..op] + buf[op..op + len];
    assert buf[op..op + len] == src[ip..ip + len];
    assert buf[lo..op] == old(buf[lo..op]);
  }

  /** memcpy of 18 bytes from at least 18 bytes back, of which `len` count. */
  method CopyShortMatch(ghost dict: seq<byte>, buf: array<byte>, lo: nat, op: nat, off: nat, len: nat)
    requires lo + off <= op && 18 <= off && len <= 18 && op + 18 <= buf.Length
    modifies buf
    ensures Out(dict, buf, lo, op + len) == CopyMatch(old(Out(dict, buf, lo, op)), off, len)
    ensures forall k :: 0 <= k < buf.Length && (k < op || k >= op + 18) ==> buf[k] == old(buf[k])
  {
    hide CopyMatch;
    ghost var h := Out(dict, buf, lo, op);
    ghost var t := Target(dict, buf, lo, op, off, 18);
    TargetProps(dict, buf, lo, op, off, 18);
    forall i | 0 <= i < 18 {
      buf[op + i] := buf[op - off + i];
    }
    HoldsSlice(dict, buf, lo, op + len, h, off, len, t);
  }

  method CopyAnyMatch(dict: seq<byte>, buf: array<byte>, lo: nat, op: nat, off: nat, length: nat, oend: nat)
    returns (ok: bool)
    requires lo <= op && lo + off <= op + |dict| && op + MFLIMIT <= oend <= buf.Length && length >= MINMATCH
    requires off == 0 ==> forall k :: op <= k < op + 4 ==> buf[k] == 0
    modifies buf
    ensures ok == (op + length + LASTLITERALS <= oend)
    ensures ok ==> Out(dict, buf, lo, op + length) == CopyMatch(old(Out(dict, buf, lo, op)), off, length)
    ensures forall k :: 0 <= k < buf.Length && (k < op || k >= oend) ==> buf[k] == old(buf[k])
  {
    if op < lo + off {
      ok := CopyMatchFromDict(dict, buf, lo, op, off, length, oend);
    } else {
      ok := CopyMatchInside(dict, buf, lo, op, off, length, oend);
    }
  }

  /** Literals of a sequence, and the four bytes that are written before the match. */
  method CopyLiteralsAndOffset(src: seq<byte>, ip: nat, dict: seq<byte>, buf: array<byte>, lo: nat, op: nat,
                               length: nat, oend: nat) returns (off: nat)
    requires ip + length + 8 <= |src| && lo <= op && op + length + MFLIMIT <= oend <= buf.Length
    modifies buf
    ensures off == ReadLE16(src[ip + length], src[ip + length + 1])
    ensures Out(dict, buf, lo, op + length) == old(Out(dict, buf, lo, op)) + src[ip..ip + length]
    ensures off == 0 ==> forall k :: op + length <= k < op + length + 4 ==> buf[k] == 0
    ensures forall k :: 0 <= k < buf.Length && (k < op || k >= oend) ==> buf[k] == old(buf[k])
  {
    WildCopyLiterals(src, ip, buf, op, length);
    var cpy := op + length;
    assert buf[lo..cpy] == buf[lo..op] + buf[op..cpy];
    assert buf[lo..op] == old(buf[lo..op]);
    ghost var h := Out(dict, buf, lo, cpy);
    off := ReadLE16(src[ip + length], src[ip + length + 1]);
    buf[cpy] := off % 256;
    buf[cpy + 1] := off / 256;
    buf[cpy + 2] := 0;
    buf[cpy + 3] := 0;
    assert Out(dict, buf, lo, cpy) == h;
  }

  /** The last literals of a block. */
  method CopyLastLiterals(src: seq<byte>, ip: nat, ghost dict: seq<byte>, buf: array<byte>, lo: nat, op: nat)
    requires ip <= |src| && lo <= op && op + |src| - ip <= buf.Length
    modifies buf
    ensures Out(dict, buf, lo, op + |src| - ip) == old(Out(dict, buf, lo, op)) + src[ip..]
    ensures forall k :: 0 <= k < buf.Length && (k < op || k >= op + |src| - ip) ==> buf[k] == old(buf[k])
  {
    CopyBytes(src, ip, buf, op, |src| - ip);
    var end := op + |src| - ip;
    assert buf[lo..end] == buf[lo..op] + buf[op..end];
    assert buf[lo..op] == old(buf[lo..op]);
  }

  /** What decoding the sequence at `ip` without the shortcut must do. */
  ghost predicate SlowStep(src: seq<byte>, s: Parsed, h: seq<byte>, dn: int, oend: int, st: Status, ip': nat, op': nat,
                           out: seq<byte>)
    requires 0 <= oend + dn
    requires s.Last? ==> s.lit <= |src|
    requires s.Seq? ==> s.lit + s.ll <= |src|
  {
    match s
    case Malformed => st == Error
    case Last(lit) =>
      if |h| + |src| - lit <= oend + dn then st == Done && out == h + src[lit..] else st == Error
    case Seq(lit, ll, off, len, next) =>
      if off <= |h| + ll && Strict(src, s, |h| + ll, oend + dn)
      then st == More && ip' == next && op' == |h| + ll + len - dn
           && out == CopyMatch(h + src[lit..lit + ll], off, len)
      else st == Error
  }

  /** A sequence that is not the last, once the length of its literals is read. */
  method DecodeLiteralsAndMatch(src: seq<byte>, ip: nat, lit: nat, length: nat, dict: seq<byte>, buf: array<byte>,
                                lo: nat, op: nat, oend: nat) returns (st: Status, ip': nat, op': nat)
    requires ip < lit && lit + length + 8 <= |src| && ReadLen(src, src[ip] / 16, ip + 1) == Some((length, lit))
    requires lo <= op && op + length + MFLIMIT <= oend <= buf.Length
    modifies buf
    ensures ip <= ip' && op <= op' <= oend
    ensures SlowStep(src, ParseSeq(src, ip), old(Out(dict, buf, lo, op)), |dict| - lo, oend, st, ip', op',
                     Out(dict, buf, lo, op'))
    ensures forall k :: 0 <= k < buf.Length && (k < op || k >= oend) ==> buf[k] == old(buf[k])
  {
    hide CopyMatch, ReadLen;
    var cpy := op + length;
    var off := CopyLiteralsAndOffset(src, lit, dict, buf, lo, op, length, oend);
    if |dict| < 0x1_0000 && cpy + |dict| < lo + off {
      return Error, ip, op;
    }
    var ok, ml, next := ReadMatchLength(src, src[ip], lit + length + 2);
    if !ok {
      return Error, ip, op;
    }
    ok := CopyAnyMatch(dict, buf, lo, cpy, off, ml, oend);
    if ok {
      return More, next, cpy + ml;
    }
    return Error, ip, op;
  }

  method DecodeSequence(src: seq<byte>, beyond: nat -> byte, dict: seq<byte>, buf: array<byte>, ip: nat, lo: nat,
                        op: nat, oend: nat) returns (st: Status, ip': nat, op': nat)
    requires ip <= |src| && lo <= op <= oend <= buf.Length
    modifies buf
    ensures ip <= ip' && op <= op' <= oend
    ensures SlowStep(src, ParseSeq(src, ip), old(Out(dict, buf, lo, op)), |dict| - lo, oend, st, ip', op',
                     Out(dict, buf, lo, op'))
    ensures forall k :: 0 <= k < buf.Length && (k < op || k >= oend) ==> buf[k] == old(buf[k])
  {
    hide CopyMatch;
    var token := ByteAt(src, beyond, ip);
    var length, lit := ReadLiteralLength(src, beyond, token, ip + 1);
    var cpy := op + length;
    if cpy + MFLIMIT > oend || lit + length + 8 > |src| {
      if lit + length != |src| || cpy > oend {
        return Error, ip, op;
      }
      CopyLastLiterals(src, lit, dict, buf, lo, op);
      return Done, |src|, cpy;
    }
    st, ip', op' := DecodeLiteralsAndMatch(src, ip, lit, length, dict, buf, lo, op, oend);
  }

  /** A step without the shortcut does what the specification does, when the shortcut was not possible. */
  lemma SlowStepMeaning(src: seq<byte>, ip: nat, h: seq<byte>, lo: nat, dn: int, oend: int, st: Status, ip': nat,
                        op': nat, out: seq<byte>)
    requires 0 <= oend + dn && SlowStep(src, ParseSeq(src, ip), h, dn, oend, st, ip', op', out)
    requires var s := ParseSeq(src, ip); s.Seq? ==> !Shortcut(src, s, ip, |h|, lo, oend + dn)
    ensures match st
            case Error => BlockDecode(src, ip, h, lo, oend + dn).None?
            case Done => BlockDecode(src, ip, h, lo, oend + dn) == Some(out)
            case More =>
                ip < ip' <= |src| && BlockDecode(src, ip, h, lo, oend + dn) == BlockDecode(src, ip', out, lo, oend + dn)
  {
    hide CopyMatch;
  }

  lemma NothingLeft(src: seq<byte>, ip: nat)
    requires ip >= |src|
    ensures ParseSeq(src, ip) == Malformed
  {
  }

  lemma ShortStepMeaning(src: seq<byte>, ip: nat, h: seq<byte>, lo: nat, oend: nat)
    requires var s := ParseSeq(src, ip);
             s.Seq? && Shortcut(src, s, ip, |h|, lo, oend) && s.off <= |h| + s.ll
    ensures var s := ParseSeq(src, ip);
            ip < s.next <= |src| &&
            BlockDecode(src, ip, h, lo, oend) ==
            BlockDecode(src, s.next, CopyMatch(h + src[s.lit..s.lit + s.ll], s.off, s.len), lo, oend)
  {
    hide CopyMatch;
  }

  /** One turn of the decoding loop. */
  method DecodeOne(src: seq<byte>, beyond: nat -> byte, dict: seq<byte>, buf: array<byte>, ip: nat, lo: nat, op: nat,
                   oend: nat) returns (st: Status, ip': nat, op': nat)
    requires ip <= |src| && lo <= op <= oend <= buf.Length
    modifies buf
    ensures ip <= ip' && op <= op' <= oend
    ensures var end := oend + |dict| - lo;
            var r := old(BlockDecode(src, ip, Out(dict, buf, lo, op), |dict|, end));
            match st
            case Error => r.None?
            case Done => r == Some(Out(dict, buf, lo, op'))
            case More => ip < ip' <= |src| && r == BlockDecode(src, ip', Out(dict, buf, lo, op'), |dict|, end)
    ensures forall k :: 0 <= k < buf.Length && (k < op || k >= oend) ==> buf[k] == old(buf[k])
  {
    hide *;
    ghost var h := Out(dict, buf, lo, op);
    ghost var end := oend + |dict| - lo;
    OutSize(dict, buf, lo, op);
    if ip < |src| {
      var taken;
      taken, ip', op' := TryShortcut(src, dict, buf, ip, lo, op, oend);
      if taken {
        ShortStepMeaning(src, ip, h, |dict|, end);
        return More, ip', op';
      }
    } else {
      NothingLeft(src, ip);
    }
    st, ip', op' := DecodeSequence(src, beyond, dict, buf, ip, lo, op, oend);
    SlowStepMeaning(src, ip, h, |dict|, |dict| - lo, oend, st, ip', op', Out(dict, buf, lo, op'));
  }

  method DecodeLoop(src: seq<byte>, beyond: nat -> byte, dict: seq<byte>, buf: array<byte>, lo: nat, start: nat,
                    oend: nat) returns (n: int)
    requires lo <= start <= oend <= buf.Length
    modifies buf
    ensures var r := old(BlockDecode(src, 0, Out(dict, buf, lo, start), |dict|, oend + |dict| - lo));
            if r.Some? then 0 <= n <= oend - start && r == Some(Out(dict, buf, lo, start + n)) else n < 0
    ensures forall k :: 0 <= k < buf.Length && (k < start || k >= oend) ==> buf[k] == old(buf[k])
  {
    hide *;
    var ip, op := 0, start;
    while true
      invariant ip <= |src| && start <= op <= oend
      invariant old(BlockDecode(src, 0, Out(dict, buf, lo, start), |dict|, oend + |dict| - lo))
             == BlockDecode(src, ip, Out(dict, buf, lo, op), |dict|, oend + |dict| - lo)
      invariant forall k :: 0 <= k < buf.Length && (k < start || k >= oend) ==> buf[k] == old(buf[k])
      decreases |src| - ip
    {
      var st, ip', op' := DecodeOne(src, beyond, dict, buf, ip, lo, op, oend);
      match st {
        case Error => return -ip - 1;
        case Done => return op' - start;
        case More => ip, op := ip', op';
      }
    }
  }

  /** LZ4_decompress_generic. `buf[lo..start]` is the prefix, `dict` the external dictionary before it, `cap` the room
      for output. `beyond` stands for the memory after the source, on which nothing depends. */
  method DecompressGeneric(src: seq<byte>, beyond: nat -> byte, dict: seq<byte>, buf: array<byte>, lo: nat, start: nat,
                           cap: nat) returns (n: int)
    requires lo <= start && start + cap <= buf.Length
    modifies buf
    ensures var r := SafeDecode(src, old(Out(dict, buf, lo, start)), |dict|, cap);
            if r.Some? then 0 <= n <= cap && Out(dict, buf, lo, start + n) == r.value else n < 0
    ensures forall k :: 0 <= k < buf.Length && (k < start || k >= start + cap) ==> buf[k] == old(buf[k])
  {
    if cap == 0 {
      return if |src| == 1 && src[0] == 0 then 0 else -1;
    }
    n := DecodeLoop(src, beyond, dict, buf, lo, start, start + cap);
  }
}
