/** The sliding history of a frame decoder with linked blocks: it lies in the user's buffer, in the internal one, or is
    moved from one to the other. No preset dictionary, and nothing the user's buffer held in an earlier call is used. */
module FrameHistory {
  import opened Bytes
  import opened Lz4Format
  import opened FrameFormat
  import Decoder = Lz4Decoder

  // ---------- facts about histories ----------

  /** The last bytes of `h` are `x`. */
  predicate EndsWith(h: seq<byte>, x: seq<byte>) {
    |x| <= |h| && h[|h| - |x|..] == x
  }

  lemma EndsWithMore(h: seq<byte>, x: seq<byte>, y: seq<byte>)
    requires EndsWith(h, x)
    ensures EndsWith(h + y, x + y)
  {
    assert (h + y)[|h| - |x|..] == h[|h| - |x|..] + y;
  }

  lemma EndsWithNothing(h: seq<byte>)
    ensures EndsWith(h, [])
  {
  }

  /** Bytes that end a history are a history when there are 64 KB of them, or when they are all of it; others before
      them do not matter. */
  lemma RecentIf(g: seq<byte>, x: seq<byte>, h: seq<byte>)
    requires EndsWith(h, x) && |g| + |x| <= |h| && (KB64 <= |x| || |x| == |h|)
    ensures Recent(g + x, h)
  {
    var d := g + x;
    if |h| <= KB64 {
      assert |g| == 0 && |x| == |h|;
      assert h[0..] == h && g + x == x;
    } else {
      assert d[|d| - KB64..] == x[|x| - KB64..];
      assert h[|h| - |x|..][|x| - KB64..] == h[|h| - KB64..];
    }
  }

  /** What a history ends with. */
  lemma RecentEnds(d: seq<byte>, h: seq<byte>, k: nat)
    requires Recent(d, h) && k <= KB64 && k <= |h|
    ensures k <= |d| && EndsWith(h, d[|d| - k..])
  {
    if |h| > KB64 {
      assert d[|d| - KB64..][KB64 - k..] == d[|d| - k..];
      assert h[|h| - KB64..][KB64 - k..] == h[|h| - k..];
    }
  }

  lemma RecentShort(d: seq<byte>, h: seq<byte>)
    requires Recent(d, h)
    ensures |h| <= KB64 ==> |d| == |h|
    ensures |d| < KB64 ==> d == h
    ensures |h| > KB64 ==> |d| >= KB64
  {
  }

  /** The last `k` bytes of a history, followed by `x`, are enough when together they make 64 KB. */
  lemma RecentCut(d: seq<byte>, h: seq<byte>, k: nat, x: seq<byte>)
    requires Recent(d, h) && |d| <= |h| && k <= |d| && (KB64 <= k + |x| || k == |h|)
    ensures Recent(d[|d| - k..] + x, h + x)
  {
    hide Recent, EndsWith;
    RecentShort(d, h);
    var m := if k > KB64 then KB64 else k;
    RecentEnds(d, h, m);
    EndsWithMore(h, d[|d| - m..], x);
    RecentIf(d[|d| - k..|d| - m], d[|d| - m..] + x, h + x);
    TailInTwo(d, |d| - k, |d| - m, x);
  }

  lemma TailInTwo(s: seq<byte>, i: nat, j: nat, x: seq<byte>)
    requires i <= j <= |s|
    ensures s[i..] + x == s[i..j] + (s[j..] + x)
  {
  }

  lemma RecentAppend(d: seq<byte>, h: seq<byte>, x: seq<byte>)
    requires Recent(d, h) && |d| <= |h|
    ensures Recent(d + x, h + x)
  {
    hide Recent;
    RecentShort(d, h);
    RecentCut(d, h, |d|, x);
    assert d[|d| - |d|..] == d;
  }

  lemma RecentLast(d: seq<byte>, h: seq<byte>)
    requires Recent(d, h) && |d| >= KB64
    ensures Recent(d[|d| - KB64..], h)
  {
    if |h| <= KB64 {
      assert d[|d| - KB64..] == d;
    }
  }

  lemma RecentNothing()
    ensures Recent([], [])
  {
  }

  // ---------- where the history is ----------

  datatype Where = Nowhere | InTmp | InDst(start: nat)

  function Min(a: nat, b: nat): nat { if a < b then a else b }

  /** The fields of the decoder that locate the history: `dict`, `dictSize`, and a decoded block that did not fit the
      user's buffer: where it starts in the internal buffer, and its size. */
  datatype View = View(dict: Where, dictSize: nat, tmpOut: nat, tmpOutSize: nat)

  /** In what follows, `b` is the internal buffer, `u` what was written to the user's buffer in this call, and `h` all
      that was given to the user so far. */
  predicate Placed(v: View, b: seq<byte>, u: seq<byte>) {
    3 * KB64 <= |b| &&
    match v.dict
    case Nowhere => v.dictSize == 0
    case InTmp => v.dictSize <= |b|
    case InDst(start) => start + v.dictSize == |u|
  }

  /** The bytes of the history. */
  function Dict(v: View, b: seq<byte>, u: seq<byte>): (d: seq<byte>)
    requires Placed(v, b, u)
    ensures |d| == v.dictSize
  {
    match v.dict
    case Nowhere => []
    case InTmp => b[..v.dictSize]
    case InDst(start) => u[start..]
  }

  /** Between blocks: the last 64 KB of the history are the last 64 KB of what was decoded, or all of it. */
  predicate Current(v: View, b: seq<byte>, u: seq<byte>, h: seq<byte>) {
    Placed(v, b, u) && v.dictSize <= |h| && Recent(Dict(v, b, u), h)
  }

  /** `start` bytes of the decoded block were flushed, and `p` is left of it. */
  predicate Pending(v: View, b: seq<byte>, p: seq<byte>, start: nat) {
    start <= v.tmpOutSize && v.tmpOut + v.tmpOutSize <= |b| && p == b[v.tmpOut + start..v.tmpOut + v.tmpOutSize]
  }

  /** The flushed part of the block is the end of what was given to the user. Before the block, the internal buffer has
      the history or room for it. */
  predicate Flushed(v: View, b: seq<byte>, h: seq<byte>, start: nat) {
    && v.tmpOut + start <= |b| && EndsWith(h, b[v.tmpOut..v.tmpOut + start])
    && Min(KB64, |h| - start) <= v.tmpOut <= |h| - start
  }

  /** While a block is flushed: if the history is in the internal buffer, the block follows it there and together they
      will be the history once the block is flushed; otherwise the history is current. */
  predicate Flushing(v: View, b: seq<byte>, u: seq<byte>, h: seq<byte>, p: seq<byte>, start: nat) {
    && Pending(v, b, p, start) && Flushed(v, b, h, start)
    && if v.dict == InTmp
       then 3 * KB64 <= |b| && v.dictSize == v.tmpOut + start && Recent(b[..v.tmpOut + v.tmpOutSize], h + p)
       else Current(v, b, u, h)
  }

  lemma FlushDone(v: View, b: seq<byte>, u: seq<byte>, h: seq<byte>)
    requires Flushing(v, b, u, h, [], v.tmpOutSize)
    ensures Current(v, b, u, h)
  {
    assert h + [] == h;
  }

  lemma FlushMore(v: View, b: seq<byte>, h: seq<byte>, p: seq<byte>, start: nat, n: nat)
    requires Pending(v, b, p, start) && Flushed(v, b, h, start) && n <= |p|
    ensures Pending(v, b, p[n..], start + n) && Flushed(v, b, h + p[..n], start + n) && h + p[..n] + p[n..] == h + p
  {
    hide EndsWith;
    EndsWithMore(h, b[v.tmpOut..v.tmpOut + start], p[..n]);
    assert b[v.tmpOut..v.tmpOut + start + n] == b[v.tmpOut..v.tmpOut + start] + p[..n];
  }

  // ---------- what each way to update the history keeps ----------

  /** No history yet: it starts at the end of the user's bytes. */
  lemma Started(v: View, b: seq<byte>, u: seq<byte>)
    requires 3 * KB64 <= |b|
    ensures Current(v.(dict := InDst(|u|), dictSize := 0), b, u, [])
  {
    assert u[|u|..] == [];
  }

  /** Dictionary continuity. */
  lemma Extended(v: View, b: seq<byte>, u: seq<byte>, h: seq<byte>, x: seq<byte>)
    requires Current(v, b, u, h) && v.dict.InDst?
    ensures Current(v.(dictSize := v.dictSize + |x|), b, u + x, h + x)
  {
    hide Recent;
    RecentAppend(u[v.dict.start..], h, x);
    assert (u + x)[v.dict.start..] == u[v.dict.start..] + x;
  }

  /** The user's buffer is large enough to become the dictionary. */
  lemma Restarted(v: View, b: seq<byte>, u: seq<byte>, h: seq<byte>)
    requires 3 * KB64 <= |b| && KB64 <= |u| && EndsWith(h, u)
    ensures Current(v.(dict := InDst(0), dictSize := |u|), b, u, h)
  {
    hide Recent;
    RecentIf([], u, h);
    assert [] + u == u && u[0..] == u;
  }

  /** The user's bytes were copied after the last `k` bytes of the history, which were moved to the front. */
  lemma Appended(v: View, b: seq<byte>, u: seq<byte>, h: seq<byte>, x: seq<byte>, k: nat, b': seq<byte>)
    requires Current(v, b, u, h) && v.dict == InTmp && k <= v.dictSize && (KB64 <= k + |x| || k == v.dictSize)
    requires |b'| == |b| && k + |x| <= |b'| && b'[..k] == b[v.dictSize - k..v.dictSize] && b'[k..k + |x|] == x
    ensures Current(v.(dictSize := k + |x|), b', u + x, h + x)
  {
    hide Recent;
    var d := b[..v.dictSize];
    if k == v.dictSize {
      RecentAppend(d, h, x);
      assert d == b[0..v.dictSize];
    } else {
      RecentCut(d, h, k, x);
      assert d[|d| - k..] == b[v.dictSize - k..v.dictSize];
    }
    assert b'[..k + |x|] == b'[..k] + x;
  }

  // ---------- decoding into the internal buffer ----------

  /** The history was moved to the front of the internal buffer. */
  lemma Moved(v: View, b: seq<byte>, u: seq<byte>, h: seq<byte>, b': seq<byte>)
    requires Current(v, b, u, h) && v.dict == InTmp && v.dictSize >= KB64
    requires |b'| == |b| && b'[..KB64] == b[v.dictSize - KB64..v.dictSize]
    ensures Current(v.(dictSize := KB64), b', u, h)
  {
    hide Recent;
    var d := b[..v.dictSize];
    RecentShort(d, h);
    RecentLast(d, h);
    assert d[|d| - KB64..] == b[v.dictSize - KB64..v.dictSize];
  }

  /** A block was decoded after the history, or after room for it. */
  lemma Starts(v: View, b: seq<byte>, u: seq<byte>, h: seq<byte>, b': seq<byte>, p: seq<byte>)
    requires Current(v, b, u, h) && Min(KB64, |h|) <= v.tmpOut <= |h| && (v.dict == InTmp ==> v.tmpOut == v.dictSize)
    requires |b'| == |b| && v.tmpOut + v.tmpOutSize <= |b'| && b'[..v.tmpOut] == b[..v.tmpOut]
    requires p == b'[v.tmpOut..v.tmpOut + v.tmpOutSize]
    ensures Flushing(v, b', u, h, p, 0)
  {
    hide Recent;
    EndsWithNothing(h);
    assert b'[v.tmpOut..v.tmpOut + 0] == [];
    if v.dict == InTmp {
      RecentAppend(b[..v.dictSize], h, p);
      assert b'[..v.tmpOut + v.tmpOutSize] == b'[..v.tmpOut] + p;
    }
  }

  // ---------- between calls ----------

  /** The end of the history was copied to the front of the internal buffer. */
  lemma KeptIdle(v: View, b: seq<byte>, u: seq<byte>, h: seq<byte>, b': seq<byte>, n: nat)
    requires Current(v, b, u, h) && n == Min(v.dictSize, KB64)
    requires |b'| == |b| && b'[..n] == Dict(v, b, u)[v.dictSize - n..]
    ensures Current(View(InTmp, n, n, v.tmpOutSize), b', [], h)
  {
    hide Recent;
    var d := Dict(v, b, u);
    RecentShort(d, h);
    if |d| >= KB64 {
      RecentLast(d, h);
    } else {
      assert d[|d| - n..] == d;
    }
  }

  /** What is needed of the history before the block is still in the user's buffer. */
  lemma BeforeBlock(v: View, b: seq<byte>, u: seq<byte>, h: seq<byte>, p: seq<byte>, start: nat, n: nat)
    requires Flushing(v, b, u, h, p, start) && v.dict != InTmp && 0 < n <= v.tmpOut && n + v.tmpOutSize <= KB64
    ensures start + n <= |u| && EndsWith(h, u[|u| - start - n..])
  {
    hide Recent, EndsWith;
    RecentShort(Dict(v, b, u), h);
    RecentEnds(Dict(v, b, u), h, start + n);
    if v.dict.InDst? {
      assert u[v.dict.start..][v.dictSize - start - n..] == u[|u| - start - n..];
    }
  }

  lemma EndsWithSame(h: seq<byte>, x: seq<byte>, y: seq<byte>)
    requires EndsWith(h, x) && EndsWith(h, y) && |y| <= |x|
    ensures x[|x| - |y|..] == y
  {
    assert h[|h| - |x|..][|x| - |y|..] == h[|h| - |y|..];
  }

  /** The bytes in front of the block, and the whole block, end what will have been decoded. */
  lemma AroundBlock(v: View, b: seq<byte>, u: seq<byte>, h: seq<byte>, p: seq<byte>, start: nat, n: nat, q: seq<byte>)
    requires Flushing(v, b, u, h, p, start) && v.dict != InTmp
    requires |q| == n <= v.tmpOut && (n > 0 ==> n + v.tmpOutSize <= KB64)
    requires n > 0 ==> start + n <= |u| && q == u[|u| - start - n..|u| - start]
    ensures EndsWith(h + p, q + b[v.tmpOut..v.tmpOut + v.tmpOutSize])
  {
    hide Recent, EndsWith, Current;
    var f := b[v.tmpOut..v.tmpOut + start];
    assert b[v.tmpOut..v.tmpOut + v.tmpOutSize] == f + p;
    if n == 0 {
      EndsWithMore(h, f, p);
      assert q + (f + p) == f + p;
    } else {
      BeforeBlock(v, b, u, h, p, start, n);
      var y := u[|u| - start - n..];
      EndsWithSame(h, y, f);
      assert y == q + y[n..];
      EndsWithMore(h, y, p);
      assert q + (f + p) == q + f + p;
    }
  }

  /** The bytes `q` before the block, and the block, are history enough. */
  lemma EnoughCopied(g: seq<byte>, q: seq<byte>, block: seq<byte>, h: seq<byte>, p: seq<byte>)
    requires |p| <= |block| && |block| - |p| <= |h|
    requires var tmpOut, before := |g| + |q|, |h| - (|block| - |p|); Min(KB64, before) <= tmpOut <= before
    requires |q| == if |block| > KB64 then 0 else Min(KB64 - |block|, |g| + |q|)
    requires EndsWith(h + p, q + block)
    ensures Recent(g + (q + block), h + p)
  {
    hide Recent, EndsWith;
    RecentIf(g, q + block, h + p);
  }

  /** The same, for the three parts of a buffer. */
  lemma CopiedIsRecent(b: seq<byte>, i: nat, j: nat, k: nat, h: seq<byte>, p: seq<byte>)
    requires i <= j <= k <= |b| && |p| <= k - j && k - j - |p| <= |h|
    requires var before := |h| - (k - j - |p|); Min(KB64, before) <= j <= before
    requires j - i == if k - j > KB64 then 0 else Min(KB64 - (k - j), j)
    requires EndsWith(h + p, b[i..j] + b[j..k])
    ensures Recent(b[..k], h + p)
  {
    hide Recent, EndsWith;
    var g, q, block := b[..i], b[i..j], b[j..k];
    InThree(b, i, j, k);
    EnoughCopied(g, q, block, h, p);
  }

  /** `n` bytes of the history were copied in front of the block, the rest of which is still to be flushed. */
  lemma KeptFlushing(v: View, b: seq<byte>, u: seq<byte>, h: seq<byte>, p: seq<byte>, start: nat, n: nat, b': seq<byte>)
    requires Flushing(v, b, u, h, p, start) && v.dict != InTmp
    requires n == if v.tmpOutSize > KB64 then 0 else Min(KB64 - v.tmpOutSize, v.tmpOut)
    requires |b'| == |b| && b'[v.tmpOut..] == b[v.tmpOut..]
    requires n > 0 ==> start + n <= |u| && b'[v.tmpOut - n..v.tmpOut] == u[|u| - start - n..|u| - start]
    ensures Flushing(v.(dict := InTmp, dictSize := v.tmpOut + start), b', [], h, p, start)
  {
    hide Recent, EndsWith, Dict;
    AroundBlock(v, b, u, h, p, start, n, b'[v.tmpOut - n..v.tmpOut]);
    SameBlock(v, b, b', h, p, start);
    EndsWithLength(h, b[v.tmpOut..v.tmpOut + start]);
    CopiedIsRecent(b', v.tmpOut - n, v.tmpOut, v.tmpOut + v.tmpOutSize, h, p);
  }

  lemma InThree(s: seq<byte>, i: nat, j: nat, k: nat)
    requires i <= j <= k <= |s|
    ensures s[..k] == s[..i] + (s[i..j] + s[j..k])
  {
  }

  lemma SameBlock(v: View, b: seq<byte>, b': seq<byte>, h: seq<byte>, p: seq<byte>, start: nat)
    requires Pending(v, b, p, start) && Flushed(v, b, h, start) && |b'| == |b| && b'[v.tmpOut..] == b[v.tmpOut..]
    ensures Pending(v, b', p, start) && Flushed(v, b', h, start)
    ensures b'[v.tmpOut..v.tmpOut + v.tmpOutSize] == b[v.tmpOut..v.tmpOut + v.tmpOutSize]
  {
    hide EndsWith;
    SameTail(b, b', v.tmpOut, v.tmpOut, v.tmpOut + start);
    SameTail(b, b', v.tmpOut, v.tmpOut + start, v.tmpOut + v.tmpOutSize);
    SameTail(b, b', v.tmpOut, v.tmpOut, v.tmpOut + v.tmpOutSize);
  }

  lemma EndsWithLength(h: seq<byte>, x: seq<byte>)
    requires EndsWith(h, x)
    ensures |x| <= |h|
  {
  }

  lemma SameTail(b: seq<byte>, b': seq<byte>, t: nat, i: nat, j: nat)
    requires |b'| == |b| && t <= i <= j <= |b| && b'[t..] == b[t..]
    ensures b'[i..j] == b[i..j]
  {
    DropSlice(b, t, i, j);
    DropSlice(b', t, i, j);
  }

  lemma DropSlice(s: seq<byte>, t: nat, i: nat, j: nat)
    requires t <= i <= j <= |s|
    ensures s[t..][i - t..j - t] == s[i..j]
  {
  }

  lemma CurrentFacts(v: View, b: seq<byte>, u: seq<byte>, h: seq<byte>)
    requires Current(v, b, u, h)
    ensures 3 * KB64 <= |b|
    ensures match v.dict
            case Nowhere => v.dictSize == 0
            case InTmp => v.dictSize <= |b|
            case InDst(start) => start + v.dictSize == |u|
  {
  }

  lemma FlushingFacts(v: View, b: seq<byte>, u: seq<byte>, h: seq<byte>, p: seq<byte>, start: nat)
    ensures Current(v, b, u, h) || Flushing(v, b, u, h, p, start) ==> Placed(v, b, u)
    ensures Flushing(v, b, u, h, p, start) && v.dict != InTmp ==> Current(v, b, u, h)
  {
  }

  // ---------- flushing, whatever happens to the history ----------

  /** An empty history is that of nothing decoded. */
  lemma NothingDecoded(v: View, b: seq<byte>, u: seq<byte>, h: seq<byte>, p: seq<byte>, start: nat)
    requires v.dictSize == 0 && (Current(v, b, u, h) || Flushing(v, b, u, h, p, start))
    ensures h == []
  {
  }

  /** `n` more bytes were flushed, and the history is in the user's buffer now. */
  lemma FlushedInDst(v: View, b: seq<byte>, u: seq<byte>, h: seq<byte>, p: seq<byte>, start: nat, n: nat, v': View,
                     u': seq<byte>)
    requires Flushing(v, b, u, h, p, start) && n <= |p| && v'.tmpOut == v.tmpOut && v'.tmpOutSize == v.tmpOutSize
    requires v'.dict.InDst? && Current(v', b, u', h + p[..n])
    ensures Flushing(v', b, u', h + p[..n], p[n..], start + n)
  {
    hide Current, EndsWith, Recent;
    FlushMore(v, b, h, p, start, n);
  }

  /** `n` more bytes were flushed, and the history stays in the internal buffer. */
  lemma FlushedInTmp(v: View, b: seq<byte>, u: seq<byte>, h: seq<byte>, p: seq<byte>, start: nat, n: nat, u': seq<byte>)
    requires Flushing(v, b, u, h, p, start) && n <= |p| && v.dict == InTmp
    ensures Flushing(v.(dictSize := v.dictSize + n), b, u', h + p[..n], p[n..], start + n)
  {
    hide EndsWith, Recent;
    FlushMore(v, b, h, p, start, n);
  }

  lemma CurrentSize(v: View, b: seq<byte>, u: seq<byte>, h: seq<byte>)
    requires Current(v, b, u, h)
    ensures Min(KB64, |h|) <= v.dictSize <= |h|
  {
  }

  /** The history does not depend on where a decoded block would be. */
  lemma CurrentAnywhere(v: View, tmpOut: nat, b: seq<byte>, u: seq<byte>, h: seq<byte>)
    requires Current(v, b, u, h)
    ensures Current(v.(tmpOut := tmpOut), b, u, h)
  {
  }

  lemma CurrentResized(v: View, tmpOutSize: nat, b: seq<byte>, u: seq<byte>, h: seq<byte>)
    requires Current(v, b, u, h)
    ensures Current(v.(tmpOutSize := tmpOutSize), b, u, h)
  {
  }

  lemma PendingMore(v: View, b: seq<byte>, p: seq<byte>, start: nat, n: nat)
    requires Pending(v, b, p, start) && n <= |p|
    ensures Pending(v, b, p[n..], start + n)
  {
  }

  lemma FlushingRange(v: View, b: seq<byte>, u: seq<byte>, h: seq<byte>, p: seq<byte>, start: nat)
    requires Flushing(v, b, u, h, p, start)
    ensures start <= v.tmpOutSize && v.tmpOut + v.tmpOutSize <= |b|
  {
  }

  /** The end of the history, in the user's buffer. */
  lemma EndOfDict(v: View, b: seq<byte>, u: seq<byte>, h: seq<byte>, n: nat)
    requires Current(v, b, u, h) && v.dict != InTmp && n <= v.dictSize
    ensures Placed(v, b, u) && (n == 0 ==> Dict(v, b, u)[v.dictSize - n..] == [])
    ensures n > 0 ==> n <= |u| && Dict(v, b, u)[v.dictSize - n..] == u[|u| - n..]
  {
  }

  /** A history in the internal buffer does not depend on the user's. */
  lemma InTmpAnywhere(v: View, b: seq<byte>, u: seq<byte>, h: seq<byte>)
    requires Current(v, b, u, h) && v.dict == InTmp
    ensures Current(v, b, [], h)
  {
  }

  lemma FlushingAnywhere(v: View, b: seq<byte>, u: seq<byte>, h: seq<byte>, p: seq<byte>, start: nat)
    requires Flushing(v, b, u, h, p, start) && v.dict == InTmp
    ensures Flushing(v, b, [], h, p, start)
  {
  }

  lemma PendingAll(v: View, b: seq<byte>, p: seq<byte>)
    requires v.tmpOut + v.tmpOutSize <= |b| && p == b[v.tmpOut..v.tmpOut + v.tmpOutSize]
    ensures Pending(v, b, p, 0)
  {
  }
}
