/** Frames under any chunking: any calls to the encoder give one frame, and any calls to the decoder give back what the
    encoder was given, take exactly the frame, and learn exactly then that it is complete. */
module FrameRoundTrip {
  import opened Bytes
  import opened Lz4Format
  import opened FrameFormat
  import opened FrameBlocks
  import opened FrameBound
  import opened FrameMakeBlock
  import opened FrameEncoder
  import Decoder = FrameDecoder

  /** What a user of the encoder does between the begin and the end of a frame. */
  datatype Op = Give(data: seq<byte>) | FlushNow

  function DataOf(op: Op): seq<byte> {
    match op
    case Give(data) => data
    case FlushNow => []
  }

  function Given(ops: seq<Op>): seq<byte> {
    if ops == [] then [] else Given(ops[..|ops| - 1]) + DataOf(ops[|ops| - 1])
  }

  lemma GivenMore(ops: seq<Op>, k: nat)
    requires k < |ops|
    ensures Given(ops[..k + 1]) == Given(ops[..k]) + DataOf(ops[k])
  {
    assert ops[..k + 1][..k] == ops[..k];
  }

  // ---------- encoding ----------

  /** One call, with the room that is asked for. */
  method Call(c: Cctx, op: Op, hash: Hash) returns (piece: seq<byte>)
    requires c.Valid() && c.cStage == 1
    modifies c, c.tmpBuff
    ensures c.Valid() && c.cStage == 1 && c.prefs == old(c.prefs) && c.tmpBuff == old(c.tmpBuff)
    ensures c.input == old(c.input) + DataOf(op) && c.out == old(c.out) + piece
  {
    hide Cctx.Valid, CompressBound;
    match op
    case Give(data) =>
      c.InFrameFacts();
      var cap := CompressBound(|data|, c.prefs, c.tmpInSize);
      var dst := new byte[cap + Spill(c.prefs)](_ => 0);
      var r := c.Update(data, dst, 0, cap, hash);
      piece := dst[0..r.n];
    case FlushNow =>
      c.BoundFits();
      c.InFrameFacts();
      var cap := CompressBound(0, c.prefs, c.tmpInSize);
      var dst := new byte[cap + Spill(c.prefs)](_ => 0);
      var r := c.Flush(dst, 0, cap, hash);
      piece := dst[0..r.n];
      assert c.input + [] == c.input;
  }

  /** The last call; it fails if and only if the announced size turns out to be wrong. */
  method Finish(c: Cctx, hash: Hash) returns (piece: seq<byte>, ok: bool)
    requires c.Valid() && c.cStage == 1
    modifies c, c.tmpBuff
    ensures c.prefs == old(c.prefs) && c.input == old(c.input)
    ensures ok <==> c.prefs.contentSize == 0 || c.prefs.contentSize == |c.input| % WRAP64
    ensures ok ==> c.Ended() && c.out == old(c.out) + piece
  {
    hide Cctx.Valid, Cctx.Ended, CompressBound;
    c.BoundFits();
    c.InFrameFacts();
    var cap := CompressBound(0, c.prefs, c.tmpInSize);
    var dst := new byte[cap + Spill(c.prefs)](_ => 0);
    var r := c.End(dst, 0, cap, hash);
    ok, piece := r != Error, [];
    if ok {
      piece := dst[0..r.n];
    }
  }

  /** A whole frame; it fails if and only if the announced size turns out to be wrong. */
  method Encode(ops: seq<Op>, p: Prefs, hash: Hash) returns (frame: seq<byte>, ok: bool, ghost bs: seq<Block>)
    requires ValidPrefs(p)
    ensures ok <==> p.contentSize == 0 || p.contentSize == |Given(ops)| % WRAP64
    ensures ok ==> ValidInfo(InfoOf(p)) && frame == FrameBytes(InfoOf(p), bs)
    ensures ok ==> AllGood(bs, BlockSize(InfoOf(p).blockSizeID)) && Contents(bs) == Given(ops)
  {
    hide Cctx.Valid, Cctx.Ended, CompressBound, FrameBytes, AllGood, Contents, Given;
    var c := new Cctx();
    var dst := new byte[MAX_FH_SIZE](_ => 0);
    var r := c.Begin(dst, 0, dst.Length, p);
    frame := dst[0..r.n];
    NoneGiven(ops);
    for k := 0 to |ops|
      invariant fresh(c) && fresh(c.tmpBuff) && c.Valid() && c.cStage == 1
      invariant c.prefs == p.(blockSizeID := EffectiveID(p.blockSizeID))
      invariant c.out == frame && c.input == Given(ops[..k])
    {
      var piece := Call(c, ops[k], hash);
      frame := frame + piece;
      GivenMore(ops, k);
    }
    assert ops[..|ops|] == ops;
    var piece;
    piece, ok := Finish(c, hash);
    frame, bs := frame + piece, c.blocks;
    if ok {
      c.EndFacts();
    }
  }

  lemma NoneGiven(ops: seq<Op>)
    ensures Given(ops[..0]) == []
  {
  }

  // ---------- decoding ----------

  /** `frame` is a frame that even the strict machine takes, when `r` was left by an earlier one; `content` is what is
      in it. */
  ghost predicate Decodes(frame: seq<byte>, r: nat, content: seq<byte>) {
    && WellFormed(Begin(r))
    && var g := Run(true, Begin(r), frame);
       g.Some? && g.value.phase == Done && g.value.content == content && g.value.remaining == 0
  }

  /** After `k` bytes of the frame, when `out` was given to the user. */
  ghost predicate Midway(d: Decoder.Dctx, frame: seq<byte>, r: nat, k: nat, out: seq<byte>)
    reads d, d.win, d.win.buf, d.tmpIn, d.header
  {
    && d.Valid() && k < |frame| && d.given == out
    && WellFormed(Begin(r)) && Run(true, Begin(r), frame[..k]) == Some(d.M())
  }

  /** What comes of bytes `x` of the stream after the first `k`: no failure, and no byte of the tail is taken. */
  lemma Piece(frame: seq<byte>, tail: seq<byte>, r: nat, content: seq<byte>, k: nat, size: nat, f: Frame)
    requires Decodes(frame, r, content) && k < |frame| && k + size <= |frame + tail|
    requires Run(true, Begin(r), frame[..k]) == Some(f)
    ensures WellFormed(f) && !Fails(f, (frame + tail)[k..k + size])
  {
    hide Run, Fails, WellFormed;
    var x, rest := (frame + tail)[k..k + size], frame[k..];
    assert frame == frame[..k] + rest;
    RunConcat(true, Begin(r), frame[..k], rest);
    if size <= |rest| {
      assert x + [] == x == rest[..size] && rest == x + rest[size..];
      RunConcat(true, f, x, rest[size..]);
      ReachesTheEnd(f, x, []);
    } else {
      assert x == rest + tail[..size - |rest|];
      ReachesTheEnd(f, rest, tail[..size - |rest|]);
    }
  }

  /** A part of a frame decodes to a part of its content, and is complete if it is all of it. */
  lemma Within(frame: seq<byte>, r: nat, content: seq<byte>, k: nat, g: Frame)
    requires Decodes(frame, r, content) && k <= |frame| && Run(true, Begin(r), frame[..k]) == Some(g)
    ensures g.content <= content && (g.phase == Done <==> k == |frame|)
    ensures g.phase == Done ==> g.content == content && g.remaining == 0
  {
    hide Run, WellFormed;
    if k < |frame| {
      NotBeforeTheEnd(Begin(r), frame, k);
    } else {
      assert frame[..k] == frame;
    }
    assert frame == frame[..k] + frame[k..];
    RunConcat(true, Begin(r), frame[..k], frame[k..]);
    ContentGrows(true, Begin(r), frame[..k]);
    ContentGrows(true, g, frame[k..]);
  }

  /** What was taken is part of the frame, and the frame is complete exactly when all of it was taken. */
  lemma Taken(frame: seq<byte>, tail: seq<byte>, r: nat, content: seq<byte>, k: nat, n: nat, f: Frame, g: Frame)
    requires Decodes(frame, r, content) && k < |frame| && k + n <= |frame + tail| && WellFormed(f)
    requires Run(true, Begin(r), frame[..k]) == Some(f)
    requires Run(false, f, (frame + tail)[k..k + n]) == Some(g)
    ensures k + n <= |frame| && Run(true, Begin(r), frame[..k + n]) == Some(g) && g.content <= content
    ensures g.phase == Done <==> k + n == |frame|
    ensures g.phase == Done ==> g.content == content && g.remaining == 0
  {
    hide Run, WellFormed;
    var x, rest := (frame + tail)[k..k + n], frame[k..];
    assert frame == frame[..k] + rest;
    RunConcat(true, Begin(r), frame[..k], rest);
    StrictRun(f, rest);
    if n > |rest| {
      assert x == rest + x[|rest|..];
      NothingAfterDone(f, rest, x[|rest|..]);
    }
    assert x == rest[..n] && rest == x + rest[n..];
    RunConcat(true, f, x, rest[n..]);
    StrictRun(f, x);
    assert frame[..k + n] == frame[..k] + x;
    RunConcat(true, Begin(r), frame[..k], x);
    Within(frame, r, content, k + n, g);
  }

  lemma NothingAfterDone(f: Frame, x: seq<byte>, y: seq<byte>)
    requires WellFormed(f) && y != [] && Run(false, f, x).Some? && Run(false, f, x).value.phase == Done
    ensures Run(false, f, x + y) == None
  {
    hide Step;
    RunConcat(false, f, x, y);
    DoneRefuses(Run(false, f, x).value, y[0]);
  }

  /** One call of the decoder, with any part of the stream from where it stands, and any room. */
  method Receive(d: Decoder.Dctx, frame: seq<byte>, tail: seq<byte>, k: nat, size: nat, cap: nat, beyond: nat -> byte,
                 ghost r: nat, ghost content: seq<byte>, ghost out: seq<byte>)
    returns (res: Decoder.Result, n: nat, piece: seq<byte>)
    requires Midway(d, frame, r, k, out) && Decodes(frame, r, content) && k + size <= |frame + tail|
    modifies d, d.header, d.tmpIn, d.win, d.win.buf
    ensures res != Decoder.Error && n <= size && k + n <= |frame| && out + piece <= content
    ensures res.size == 0 <==> k + n == |frame|
    ensures k + n < |frame| ==> Midway(d, frame, r, k + n, out + piece)
    ensures k + n == |frame| ==> out + piece == content && d.Valid() && d.given == [] && d.M() == Begin(0)
    ensures n == size || |piece| == cap || k + n == |frame|
    ensures 0 < size && 0 < cap ==> 0 < n || 0 < |piece|
    ensures (d.tmpIn == old(d.tmpIn) && d.win.buf == old(d.win.buf)) || (fresh(d.tmpIn) && fresh(d.win.buf))
  {
    hide Decodes, Run, Fails, WellFormed, Decoder.Dctx.Valid;
    var x := (frame + tail)[k..k + size];
    ghost var f := d.M();
    Piece(frame, tail, r, content, k, size, f);
    var dst := new byte[cap](_ => 0);
    ghost var g;
    var m;
    res, n, m, g := d.Decompress(x, beyond, dst);
    piece := dst[..m];
    assert (frame + tail)[k..k + n] == x[..n];
    assert out + piece + [] == out + piece;
    Taken(frame, tail, r, content, k, n, f, g);
  }

  /** Any number of calls, each with a part of the stream that is not empty and some room: they come to the end of the
      frame, with all of its content, and not a byte further. */
  method Decode(d: Decoder.Dctx, frame: seq<byte>, tail: seq<byte>, sizes: nat -> nat, caps: nat -> nat,
                beyond: nat -> byte, ghost r: nat, ghost content: seq<byte>) returns (out: seq<byte>, k: nat)
    requires Midway(d, frame, r, 0, []) && Decodes(frame, r, content)
    modifies d, d.header, d.tmpIn, d.win, d.win.buf
    ensures out == content && k == |frame|
    ensures d.Valid() && d.given == [] && d.M() == Begin(0)
  {
    hide Decodes, Run, Decoder.Dctx.Valid;
    k, out := 0, [];
    var calls: nat := 0;
    while k < |frame|
      invariant k <= |frame| && out <= content
      invariant if k < |frame| then Midway(d, frame, r, k, out)
                else out == content && d.Valid() && d.given == [] && d.M() == Begin(0)
      invariant (d.tmpIn == old(d.tmpIn) && d.win.buf == old(d.win.buf)) || (fresh(d.tmpIn) && fresh(d.win.buf))
      decreases |frame| - k + |content| - |out|
    {
      var left := |frame| + |tail| - k;
      var size := if 1 + sizes(calls) < left then 1 + sizes(calls) else left;
      var res, n, piece := Receive(d, frame, tail, k, size, 1 + caps(calls), beyond, r, content, out);
      k, out, calls := k + n, out + piece, calls + 1;
    }
  }

  /** What is encoded by any calls is decoded by any calls, whatever follows the frame. */
  method RoundTrip(ops: seq<Op>, p: Prefs, hash: Hash, tail: seq<byte>, sizes: nat -> nat, caps: nat -> nat,
                   beyond: nat -> byte) returns (out: seq<byte>, frame: seq<byte>, k: nat)
    requires ValidPrefs(p) && (p.contentSize == 0 || p.contentSize == |Given(ops)| % WRAP64)
    ensures out == Given(ops) && k == |frame|
  {
    hide Run, FrameBytes, AllGood, Contents, Given, Decoder.Dctx.Valid;
    var ok;
    ghost var bs;
    frame, ok, bs := Encode(ops, p, hash);
    FrameRun(true, InfoOf(p), bs, 0);
    var d := new Decoder.Dctx();
    NotEmpty(InfoOf(p), bs);
    RunNothing();
    assert frame[..0] == [];
    out, k := Decode(d, frame, tail, sizes, caps, beyond, 0, Given(ops));
  }

  /** The same for a frame made in one go. */
  method OneShotRoundTrip(src: seq<byte>, p: Prefs, hash: Hash, tail: seq<byte>, sizes: nat -> nat,
                          caps: nat -> nat, beyond: nat -> byte)
    returns (out: seq<byte>, frame: seq<byte>, k: nat)
    requires ValidPrefs(p) && |src| < WRAP64
    ensures |frame| <= CompressFrameBound(|src|, p) && out == src && k == |frame|
  {
    hide Run, FrameBytes, AllGood, Contents, CompressBound, OptimalID, Decoder.Dctx.Valid;
    var cap := CompressFrameBound(|src|, p);
    var dst := new byte[cap + FrameSpill(|src|, p)](_ => 0);
    var c, i, bs := CompressFrame(src, dst, cap, p, hash);
    frame := dst[..c.n];
    FrameRun(true, i, bs, 0);
    var d := new Decoder.Dctx();
    NotEmpty(i, bs);
    RunNothing();
    assert frame[..0] == [];
    out, k := Decode(d, frame, tail, sizes, caps, beyond, 0, src);
  }

  lemma NotEmpty(i: Info, bs: seq<Block>)
    requires ValidInfo(i)
    ensures |FrameBytes(i, bs)| > 0
  {
    hide LE32, BlocksBytes, EndBytes;
  }
}
