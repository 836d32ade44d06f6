/** The buffers of the frame decoder: memcpy between the user's buffer and the internal one, and the history that lies
    in one of them. */
module FrameWindow {
  import opened Bytes
  import opened Lz4Format
  import opened FrameFormat
  import opened FrameHistory
  import Decoder = Lz4Decoder

  // ---------- memcpy ----------

  /** memcpy: the two areas must not overlap. */
  method Memcpy(to: array<byte>, at: nat, from: array<byte>, pos: nat, n: nat)
    requires at + n <= to.Length && pos + n <= from.Length && (to != from || at + n <= pos)
    modifies to
    ensures to[..at] == old(to[..at]) && to[at..at + n] == old(from[pos..pos + n])
    ensures to[at + n..] == old(to[at + n..])
  {
    forall i | 0 <= i < n {
      to[at + i] := from[pos + i];
    }
  }

  lemma SliceHead(s: seq<byte>, i: nat, j: nat, m: nat)
    requires i <= i + m <= j <= |s|
    ensures s[i..j][..m] == s[i..i + m]
  {
  }

  // ---------- decompression with a history ----------

  /** LZ4_decompress_safe_usingDict: the dictionary ends where the output starts, or lies elsewhere. */
  method DecompressUsingDict(src: seq<byte>, beyond: nat -> byte, out: array<byte>, dest: nat, cap: nat,
                             contiguous: bool, dictSize: nat, dict: seq<byte>, ghost h: seq<byte>) returns (n: int)
    requires dest + cap <= out.Length && 0 < cap && |dict| == dictSize && Recent(dict, h)
    requires contiguous ==> dictSize <= dest && out[dest - dictSize..dest] == dict
    modifies out
    ensures n >= 0 ==> n <= cap && Decoded(src, h) == Some(out[dest..dest + n])
    ensures n < 0 ==> !Robust(src, h, cap)
    ensures out[..dest] == old(out[..dest])
  {
    hide SafeDecode, Recent, Decoded, Robust, NaiveDecode;
    if dictSize == 0 || !contiguous {
      NoPrefix(dict, out[dest..dest]);
      n := DecodeAfter(src, beyond, dict, out, dest, dest, cap, dict, h);
    } else {
      var k := if dictSize >= KB64 then KB64 else dictSize;
      LastIsRecent(dict, h, k);
      LastOf(out[..], dest, dictSize, k, dict);
      n := DecodeAfter(src, beyond, [], out, dest - k, dest, cap, dict[|dict| - k..], h);
    }
  }

  lemma LastIsRecent(d: seq<byte>, h: seq<byte>, k: nat)
    requires Recent(d, h) && k == Min(KB64, |d|)
    ensures Recent(d[|d| - k..], h)
  {
    hide Recent;
    if |d| >= KB64 {
      RecentLast(d, h);
    } else {
      assert d[|d| - k..] == d;
    }
  }

  lemma NoPrefix(dict: seq<byte>, x: seq<byte>)
    requires |x| == 0
    ensures dict + x == dict
  {
  }

  lemma LastOf(s: seq<byte>, dest: nat, n: nat, k: nat, d: seq<byte>)
    requires k <= n <= dest <= |s| && s[dest - n..dest] == d
    ensures [] + s[dest - k..dest] == d[|d| - k..]
  {
  }

  method DecodeAfter(src: seq<byte>, beyond: nat -> byte, dict: seq<byte>, out: array<byte>, lo: nat, dest: nat,
                     cap: nat, ghost w: seq<byte>, ghost h: seq<byte>) returns (n: int)
    requires lo <= dest && dest + cap <= out.Length && 0 < cap
    requires w == dict + out[lo..dest] && Recent(w, h)
    modifies out
    ensures n >= 0 ==> n <= cap && Decoded(src, h) == Some(out[dest..dest + n])
    ensures n < 0 ==> !Robust(src, h, cap)
    ensures out[..dest] == old(out[..dest])
  {
    hide SafeDecode, Recent, Decoded;
    n := Decoder.DecompressGeneric(src, beyond, dict, out, lo, dest, cap);
    if n >= 0 {
      assert dict + out[lo..dest + n] == w + out[dest..dest + n];
      SafeIsDecoded(src, w, |dict|, cap, out[dest..dest + n]);
      DecodedRecent(src, w, h);
    } else {
      assert SafeDecode(src, w, |dict|, cap).None?;
    }
  }

  lemma SafeIsDecoded(src: seq<byte>, w: seq<byte>, lo: nat, cap: nat, x: seq<byte>)
    requires 0 < cap && SafeDecode(src, w, lo, cap) == Some(w + x)
    ensures Decoded(src, w) == Some(x)
  {
    hide BlockDecode, NaiveDecode;
    BlockRefinesNaive(src, 0, w, lo, |w| + cap);
  }

  /** The buffers and what is kept in them. */
  class Window {
    /** tmpOutBuffer. */
    var buf: array<byte>
    var dict: Where
    var dictSize: nat
    var tmpOut: nat
    var tmpOutSize: nat
    var tmpOutStart: nat

    constructor ()
      ensures fresh(buf) && buf.Length == 0 && dict == Nowhere && dictSize == 0
    {
      buf := new byte[0];
      dict, dictSize, tmpOut, tmpOutSize, tmpOutStart := Nowhere, 0, 0, 0, 0;
    }

    function V(): View
      reads `dict, `dictSize, `tmpOut, `tmpOutSize
    {
      View(dict, dictSize, tmpOut, tmpOutSize)
    }

    /** All that was written to `dst` in this call, `pos` bytes, is the end of what was decoded, `h`. */
    ghost predicate OnDst(dst: array<byte>, pos: nat, h: seq<byte>)
      reads `buf, dst
    {
      buf != dst && pos <= dst.Length && EndsWith(h, dst[..pos])
    }

    /** Between linked blocks: the last 64 KB of the history are the last 64 KB decoded, or all of it. */
    ghost predicate Idle(dst: array<byte>, pos: nat, h: seq<byte>)
      reads `buf, `dict, `dictSize, `tmpOut, `tmpOutSize, buf, dst
    {
      OnDst(dst, pos, h) && Current(V(), buf[..], dst[..pos], h)
    }

    /** While a linked block is flushed. */
    ghost predicate Draining(dst: array<byte>, pos: nat, h: seq<byte>, p: seq<byte>, start: nat)
      reads `buf, `dict, `dictSize, `tmpOut, `tmpOutSize, buf, dst
    {
      OnDst(dst, pos, h) && Flushing(V(), buf[..], dst[..pos], h, p, start)
    }

    /** LZ4F_updateDict: `n` bytes were written at `pos`, decoded there or flushed from the internal buffer. */
    method UpdateDict(dst: array<byte>, pos: nat, n: nat, withinTmp: bool, ghost h: seq<byte>, ghost p: seq<byte>)
      requires pos + n <= dst.Length
      requires if withinTmp then Draining(dst, pos, h, p, tmpOutStart) && n <= |p| && dst[pos..pos + n] == p[..n]
               else Idle(dst, pos, h)
      modifies this`dict, this`dictSize, buf
      ensures withinTmp ==> buf[..] == old(buf[..])
      ensures var x := dst[pos..pos + n];
              if withinTmp then Draining(dst, pos + n, h + x, p[n..], tmpOutStart + n) else Idle(dst, pos + n, h + x)
    {
      hide Current, Flushing, EndsWith;
      ghost var v, b, u, x := V(), buf[..], dst[..pos], dst[pos..pos + n];
      assert dst[..pos + n] == u + x;
      EndsWithMore(h, u, x);
      FlushingFacts(v, b, u, h, p, tmpOutStart);
      if dictSize == 0 {
        NothingDecoded(v, b, u, h, p, tmpOutStart);
        dict := InDst(pos);
        Started(v, b, u);
      }
      if dict.InDst? && dict.start + dictSize == pos {
        Extended(V(), b, u, h, x);
        dictSize := dictSize + n;
      } else if pos + n >= KB64 {
        dict, dictSize := InDst(0), pos + n;
        Restarted(v, b, u + x, h + x);
      } else if withinTmp && dict == InTmp {
        dictSize := dictSize + n;
        FlushedInTmp(v, b, u, h, p, tmpOutStart, n, u + x);
        return;
      } else {
        // Without a preset dictionary, the history can only be in the internal buffer here.
        AppendToTmp(dst, pos, n, h);
      }
      if withinTmp {
        FlushedInDst(v, b, u, h, p, tmpOutStart, n, V(), u + x);
      }
    }

    /** Room for `n` bytes after the history in the internal buffer: if there is none, only its end is kept, `k`
        bytes. */
    method MakeRoom(n: nat) returns (k: nat)
      requires dictSize <= buf.Length && 3 * KB64 <= buf.Length && n < KB64
      modifies buf
      ensures k <= dictSize && k + n <= buf.Length && (KB64 <= k + n || k == dictSize)
      ensures buf[..k] == old(buf[..])[dictSize - k..dictSize]
    {
      k := dictSize;
      if dictSize + n > buf.Length {
        k := KB64 - n;
        Memcpy(buf, 0, buf, dictSize - k, k);
        assert buf[0..0 + k] == buf[..k];
      } else {
        assert buf[..k] == buf[..][0..k];
      }
    }

    /** The user's bytes after the history in the internal buffer. */
    method AppendToTmp(dst: array<byte>, pos: nat, n: nat, ghost h: seq<byte>)
      requires buf != dst && pos + n <= dst.Length && n < KB64 && dict == InTmp
      requires Current(V(), buf[..], dst[..pos], h)
      modifies this`dictSize, buf
      ensures Current(V(), buf[..], dst[..pos] + dst[pos..pos + n], h + dst[pos..pos + n])
    {
      hide Current;
      ghost var v, b, u, x := V(), buf[..], dst[..pos], dst[pos..pos + n];
      CurrentFacts(v, b, u, h);
      var k := MakeRoom(n);
      Memcpy(buf, k, dst, pos, n);
      dictSize := k + n;
      Appended(v, b, u, h, x, k, buf[..]);
    }

    // ---------- decoding blocks ----------

    /** Ready for a block: with independent blocks there is no history. */
    ghost predicate Ready(linked: bool, dst: array<byte>, pos: nat, h: seq<byte>)
      reads `buf, `dict, `dictSize, `tmpOut, `tmpOutSize, buf, dst
    {
      if linked then Idle(dst, pos, h) else dict == Nowhere && dictSize == 0 && OnDst(dst, pos, h)
    }

    /** A decoded block is being flushed; `p` is left of it. */
    ghost predicate Busy(linked: bool, dst: array<byte>, pos: nat, h: seq<byte>, p: seq<byte>, start: nat)
      reads `buf, `dict, `dictSize, `tmpOut, `tmpOutSize, buf, dst
    {
      if linked then Draining(dst, pos, h, p, start)
      else Ready(linked, dst, pos, h) && Pending(V(), buf[..], p, start)
    }

    lemma BusyFacts(linked: bool, dst: array<byte>, pos: nat, h: seq<byte>, p: seq<byte>, start: nat)
      requires Busy(linked, dst, pos, h, p, start)
      ensures buf != dst && pos <= dst.Length && start <= tmpOutSize && tmpOut + tmpOutSize <= buf.Length
      ensures p == buf[tmpOut + start..tmpOut + tmpOutSize] && |p| == tmpOutSize - start
    {
    }

    lemma BusyDone(linked: bool, dst: array<byte>, pos: nat, h: seq<byte>)
      requires Busy(linked, dst, pos, h, [], tmpOutSize)
      ensures Ready(linked, dst, pos, h)
    {
      hide Current, Flushing;
      if linked {
        FlushDone(V(), buf[..], dst[..pos], h);
      }
    }

    /** The dictionary as the block decoder is given it, wherever it is. */
    method Dictionary(dst: array<byte>, linked: bool, pos: nat, ghost h: seq<byte>) returns (d: seq<byte>)
      requires Ready(linked, dst, pos, h)
      ensures |d| == dictSize && Recent(d, FrameFormat.History(linked, h))
      ensures dict == InTmp ==> dictSize <= buf.Length && d == buf[..dictSize]
      ensures dict.InDst? ==> dict.start + dictSize == pos && d == dst[dict.start..pos]
    {
      hide Recent;
      RecentNothing();
      d := if dict == InTmp then buf[..dictSize] else if dict.InDst? then dst[dict.start..pos] else [];
      if linked && dict.InDst? {
        assert dst[..pos][dict.start..] == d;
      }
    }

    /** A block decoded straight into the user's buffer. */
    method DecodeToDst(src: seq<byte>, beyond: nat -> byte, dst: array<byte>, pos: nat, maxBlock: nat, linked: bool,
                       ghost h: seq<byte>) returns (n: int)
      requires Ready(linked, dst, pos, h) && 0 < maxBlock && pos + maxBlock <= dst.Length
      modifies this`dict, this`dictSize, buf, dst
      ensures dst[..pos] == old(dst[..pos])
      ensures n < 0 ==> !Robust(src, FrameFormat.History(linked, h), maxBlock)
      ensures n >= 0 ==> n <= maxBlock && Decoded(src, FrameFormat.History(linked, h)) == Some(dst[pos..pos + n])
      ensures n >= 0 ==> Ready(linked, dst, pos + n, h + dst[pos..pos + n])
    {
      hide Current, EndsWith, Recent, Robust, Decoded;
      var d := Dictionary(dst, linked, pos, h);
      ghost var u := dst[..pos];
      n := DecompressUsingDict(src, beyond, dst, pos, maxBlock, dict.InDst?, dictSize, d,
                               FrameFormat.History(linked, h));
      if n < 0 {
        return;
      }
      if linked {
        UpdateDict(dst, pos, n, false, h, []);
      } else {
        EndsWithMore(h, u, dst[pos..pos + n]);
        assert dst[..pos + n] == u + dst[pos..pos + n];
      }
    }

    /** Part of an uncompressed block, straight into the user's buffer. */
    method CopyDirect(src: seq<byte>, ip: nat, n: nat, dst: array<byte>, pos: nat, linked: bool, ghost h: seq<byte>)
      requires Ready(linked, dst, pos, h) && ip + n <= |src| && pos + n <= dst.Length
      modifies this`dict, this`dictSize, buf, dst
      ensures dst[..pos] == old(dst[..pos]) && dst[pos..pos + n] == src[ip..ip + n]
      ensures Ready(linked, dst, pos + n, h + src[ip..ip + n])
    {
      hide Current, EndsWith;
      ghost var u, b := dst[..pos], buf[..];
      forall i | 0 <= i < n {
        dst[pos + i] := src[ip + i];
      }
      assert dst[..pos] == u && dst[pos..pos + n] == src[ip..ip + n] && buf[..] == b;
      if linked {
        UpdateDict(dst, pos, n, false, h, []);
      } else {
        EndsWithMore(h, u, src[ip..ip + n]);
        assert dst[..pos + n] == u + src[ip..ip + n];
      }
    }

    /** Where a block is decoded in the internal buffer: after the history if it is there, else after room for it. */
    method PlaceTmpOut(dst: array<byte>, pos: nat, ghost h: seq<byte>)
      requires Idle(dst, pos, h)
      modifies this`dictSize, this`tmpOut, buf
      ensures Idle(dst, pos, h) && tmpOut <= 2 * KB64
      ensures Min(KB64, |h|) <= tmpOut <= |h| && (dict == InTmp ==> tmpOut == dictSize)
    {
      hide Current, EndsWith;
      ghost var v, b, u := V(), buf[..], dst[..pos];
      CurrentFacts(v, b, u, h);
      CurrentSize(v, b, u, h);
      if dict == InTmp {
        if dictSize > 2 * KB64 {
          Memcpy(buf, 0, buf, dictSize - KB64, KB64);
          assert buf[0..0 + KB64] == buf[..][..KB64];
          Moved(v, b, u, h, buf[..]);
          dictSize := KB64;
        }
        tmpOut := dictSize;
      } else {
        tmpOut := Min(dictSize, KB64);
      }
      CurrentAnywhere(v.(dictSize := dictSize), tmpOut, buf[..], u, h);
    }

    /** LZ4_decompress_safe_usingDict into the internal buffer. */
    method IntoTmp(src: seq<byte>, beyond: nat -> byte, dst: array<byte>, pos: nat, maxBlock: nat, linked: bool,
                   ghost h: seq<byte>) returns (n: int)
      requires Ready(linked, dst, pos, h) && 0 < maxBlock && tmpOut + maxBlock <= buf.Length
      requires dict == InTmp ==> tmpOut == dictSize
      modifies buf
      ensures buf[..][..tmpOut] == old(buf[..])[..tmpOut]
      ensures n < 0 ==> !Robust(src, FrameFormat.History(linked, h), maxBlock)
      ensures n >= 0 ==> n <= maxBlock && Decoded(src, FrameFormat.History(linked, h)) == Some(buf[tmpOut..tmpOut + n])
    {
      hide Current, EndsWith, Recent, Robust, Decoded;
      var d := Dictionary(dst, linked, pos, h);
      n := DecompressUsingDict(src, beyond, buf, tmpOut, maxBlock, dict == InTmp, dictSize, d,
                               FrameFormat.History(linked, h));
    }

    /** A block decoded into the internal buffer. */
    method DecodeToTmp(src: seq<byte>, beyond: nat -> byte, dst: array<byte>, pos: nat, maxBlock: nat, linked: bool,
                       ghost h: seq<byte>) returns (n: int, ghost p: seq<byte>)
      requires Ready(linked, dst, pos, h) && 0 < maxBlock
      requires if linked then maxBlock + 2 * KB64 <= buf.Length else tmpOut + maxBlock <= buf.Length
      modifies this`dictSize, this`tmpOut, this`tmpOutSize, this`tmpOutStart, buf
      ensures n < 0 ==> !Robust(src, FrameFormat.History(linked, h), maxBlock)
      ensures n >= 0 ==> n == |p| <= maxBlock && Decoded(src, FrameFormat.History(linked, h)) == Some(p)
      ensures n >= 0 ==> Busy(linked, dst, pos, h, p, 0) && tmpOutStart == 0 && tmpOutSize == n
      ensures n >= 0 ==> tmpOut + n <= buf.Length && p == buf[tmpOut..tmpOut + n]
      ensures !linked ==> tmpOut == old(tmpOut)
    {
      hide Current, EndsWith, Recent, Robust, Decoded, Flushing, Pending;
      p := [];
      if linked {
        PlaceTmpOut(dst, pos, h);
      }
      ghost var b := buf[..];
      n := IntoTmp(src, beyond, dst, pos, maxBlock, linked, h);
      if n < 0 {
        return;
      }
      p := buf[tmpOut..tmpOut + n];
      if linked {
        CurrentResized(V(), n, b, dst[..pos], h);
      }
      tmpOutSize, tmpOutStart := n, 0;
      if linked {
        Starts(V(), b, dst[..pos], h, buf[..], p);
      } else {
        PendingAll(V(), buf[..], p);
      }
    }

    /** memcpy from the decoded block to the user's buffer. */
    method CopyOut(dst: array<byte>, pos: nat, m: nat, linked: bool, ghost h: seq<byte>, ghost p: seq<byte>)
      requires Busy(linked, dst, pos, h, p, tmpOutStart) && m <= |p| && pos + m <= dst.Length
      modifies dst
      ensures dst[..pos] == old(dst[..pos]) && dst[pos..pos + m] == p[..m]
      ensures Busy(linked, dst, pos, h, p, tmpOutStart)
    {
      hide Current, EndsWith, Flushing, Pending;
      BusyFacts(linked, dst, pos, h, p, tmpOutStart);
      ghost var b := buf[..];
      SliceHead(buf[..], tmpOut + tmpOutStart, tmpOut + tmpOutSize, m);
      Memcpy(dst, pos, buf, tmpOut + tmpOutStart, m);
      assert buf[..] == b;
    }

    /** What fits of the decoded block, into the user's buffer. */
    method Flush(dst: array<byte>, pos: nat, linked: bool, ghost h: seq<byte>, ghost p: seq<byte>) returns (m: nat)
      requires Busy(linked, dst, pos, h, p, tmpOutStart)
      modifies this`dict, this`dictSize, this`tmpOutStart, buf, dst
      ensures pos + m <= dst.Length && m == Min(|p|, dst.Length - pos) && dst[pos..pos + m] == p[..m]
      ensures dst[..pos] == old(dst[..pos])
      ensures Busy(linked, dst, pos + m, h + p[..m], p[m..], tmpOutStart)
      ensures |p| - m == tmpOutSize - tmpOutStart
    {
      hide Current, EndsWith, Flushing, Pending;
      BusyFacts(linked, dst, pos, h, p, tmpOutStart);
      m := Min(tmpOutSize - tmpOutStart, dst.Length - pos);
      CopyOut(dst, pos, m, linked, h, p);
      if linked {
        UpdateDict(dst, pos, m, true, h, p);
      } else {
        EndsWithMore(h, dst[..pos], p[..m]);
        assert dst[..pos + m] == dst[..pos] + p[..m];
        PendingMore(V(), buf[..], p, tmpOutStart, m);
      }
      tmpOutStart := tmpOutStart + m;
    }

    // ---------- between calls ----------

    /** memcpy of the end of the history to the front of the internal buffer. */
    method CopyHistory(dst: array<byte>, pos: nat, n: nat)
      requires buf != dst && n <= pos <= dst.Length && n <= buf.Length
      modifies buf
      ensures n > 0 ==> buf[..][..n] == dst[..pos][pos - n..]
    {
      if n > 0 {
        Memcpy(buf, 0, dst, pos - n, n);
        assert buf[0..0 + n] == buf[..][..n];
        assert dst[pos - n..pos] == dst[..pos][pos - n..];
      }
    }

    /** At the end of a call, between blocks: the history moves into the internal buffer. */
    method KeepIdle(dst: array<byte>, pos: nat, ghost h: seq<byte>)
      requires Idle(dst, pos, h) && dict != InTmp
      modifies this`dict, this`dictSize, this`tmpOut, buf
      ensures dict == InTmp && Current(V(), buf[..], [], h)
    {
      hide Current, EndsWith, Dict, Placed;
      var newDictSize := Min(dictSize, KB64);
      ghost var v, b, u := V(), buf[..], dst[..pos];
      CurrentFacts(v, b, u, h);
      EndOfDict(v, b, u, h, newDictSize);
      CopyHistory(dst, pos, newDictSize);
      dict, dictSize, tmpOut := InTmp, newDictSize, newDictSize;
      KeptIdle(v, b, u, h, buf[..], newDictSize);
    }

    /** At the end of a call, while a block is flushed: what came before the block moves in front of it. */
    method KeepFlushing(dst: array<byte>, pos: nat, ghost h: seq<byte>, ghost p: seq<byte>)
      requires Draining(dst, pos, h, p, tmpOutStart) && dict != InTmp
      modifies this`dict, this`dictSize, buf
      ensures dict == InTmp && Flushing(V(), buf[..], [], h, p, tmpOutStart)
    {
      hide Current, EndsWith, Flushing, Dict, Placed;
      ghost var v, b, u := V(), buf[..], dst[..pos];
      var preserveSize := tmpOut;
      var copySize := if tmpOutSize > KB64 then 0 else Min(KB64 - tmpOutSize, preserveSize);
      if copySize > 0 {
        BeforeBlock(v, b, u, h, p, tmpOutStart, copySize);
        FlushingRange(v, b, u, h, p, tmpOutStart);
        var oldDictEnd := pos - tmpOutStart;
        Memcpy(buf, preserveSize - copySize, dst, oldDictEnd - copySize, copySize);
        assert dst[oldDictEnd - copySize..oldDictEnd] == u[oldDictEnd - copySize..oldDictEnd];
      }
      dict, dictSize := InTmp, preserveSize + tmpOutStart;
      KeptFlushing(v, b, u, h, p, tmpOutStart, copySize, buf[..]);
    }

    /** The history between two calls: whatever buffer the user gives next, nothing of the old one is needed. */
    ghost predicate Resting(linked: bool, h: seq<byte>)
      reads `buf, `dict, `dictSize, `tmpOut, `tmpOutSize, buf
    {
      if linked then Current(V(), buf[..], [], h) else dict == Nowhere && dictSize == 0
    }

    ghost predicate RestingBusy(linked: bool, h: seq<byte>, p: seq<byte>)
      reads `buf, `dict, `dictSize, `tmpOut, `tmpOutSize, `tmpOutStart, buf
    {
      if linked then Flushing(V(), buf[..], [], h, p, tmpOutStart)
      else dict == Nowhere && dictSize == 0 && Pending(V(), buf[..], p, tmpOutStart)
    }

    lemma Resume(linked: bool, dst: array<byte>, h: seq<byte>, p: seq<byte>)
      requires buf != dst
      ensures Resting(linked, h) ==> Ready(linked, dst, 0, h)
      ensures RestingBusy(linked, h, p) ==> Busy(linked, dst, 0, h, p, tmpOutStart)
    {
      hide Current, Flushing, Pending;
      EndsWithNothing(h);
      assert dst[..0] == [];
    }

    /** Preserve history within tmpOutBuffer whenever necessary, at the end of a call between blocks. */
    method Rest(dst: array<byte>, pos: nat, linked: bool, ghost h: seq<byte>)
      requires Ready(linked, dst, pos, h)
      modifies this`dict, this`dictSize, this`tmpOut, buf
      ensures Resting(linked, h) && (!linked ==> tmpOut == old(tmpOut))
    {
      hide Current, EndsWith;
      if linked {
        if dict != InTmp {
          KeepIdle(dst, pos, h);
        } else {
          InTmpAnywhere(V(), buf[..], dst[..pos], h);
        }
      }
    }

    /** The same while a block is flushed. */
    method RestBusy(dst: array<byte>, pos: nat, linked: bool, ghost h: seq<byte>, ghost p: seq<byte>)
      requires Busy(linked, dst, pos, h, p, tmpOutStart)
      modifies this`dict, this`dictSize, buf
      ensures RestingBusy(linked, h, p)
    {
      hide Current, EndsWith, Flushing, Pending;
      if linked {
        if dict != InTmp {
          KeepFlushing(dst, pos, h, p);
        } else {
          FlushingAnywhere(V(), buf[..], dst[..pos], h, p, tmpOutStart);
        }
      }
    }
  }
}
