/** Properties of the renderer's frame-state logic. */
module RendererProofs {
  import opened Wrappers
  import opened Renderer

  // ---------------------------------------------------------------------
  // Ping-pong
  // ---------------------------------------------------------------------

  /**
   * For `pingPongIdx` 0 or 1 the write and read targets are the two
   * accumulation textures, distinct and never the scratch texture; the read
   * target is `pingPongIdx` itself. Any other index sends both to texture 0.
   */
  lemma PingPongTargets(pingPongIdx: int)
    ensures pingPongIdx == 0 || pingPongIdx == 1 ==>
              && PingPong(pingPongIdx, true) != PingPong(pingPongIdx, false)
              && PingPong(pingPongIdx, false) == pingPongIdx
              && PingPong(pingPongIdx, true) == 1 - pingPongIdx
    ensures pingPongIdx != 0 && pingPongIdx != 1 ==>
              PingPong(pingPongIdx, true) == PingPong(pingPongIdx, false) == 0
  {
  }

  /** Swapping exchanges the read and write targets, and swapping twice is the identity. */
  lemma SwapExchangesTargets(pingPongIdx: int)
    requires pingPongIdx == 0 || pingPongIdx == 1
    ensures PingPong(Swap(pingPongIdx), true) == PingPong(pingPongIdx, false)
    ensures PingPong(Swap(pingPongIdx), false) == PingPong(pingPongIdx, true)
    ensures Swap(Swap(pingPongIdx)) == pingPongIdx
  {
  }

  // ---------------------------------------------------------------------
  // Rotating window
  // ---------------------------------------------------------------------

  /** `startIdx` after `k` frames, starting from 0. */
  function StartAfter(k: nat, pointsPerFrame: nat, poolSize: int): int
    decreases k
  {
    if k == 0 then 0 else AdvanceStart(StartAfter(k - 1, pointsPerFrame, poolSize), pointsPerFrame, poolSize)
  }

  /** While the pool end is not reached, the `k`-th frame starts at `k * pointsPerFrame`. */
  lemma {:induction false} StartAfterBeforeWrap(k: nat, pointsPerFrame: nat, poolSize: int)
    requires k * pointsPerFrame < poolSize
    ensures StartAfter(k, pointsPerFrame, poolSize) == k * pointsPerFrame
    decreases k
  {
    if k > 0 {
      assert (k - 1) * pointsPerFrame == k * pointsPerFrame - pointsPerFrame;
      StartAfterBeforeWrap(k - 1, pointsPerFrame, poolSize);
    }
  }

  /**
   * Starting from 0 with a positive budget, every point of the pool is in
   * the window `[startIdx, startIdx + pointsPerFrame)` of some frame: point
   * `p` is covered `p / pointsPerFrame` frames in.
   */
  lemma WindowCoversPool(p: nat, pointsPerFrame: nat, poolSize: int)
    requires pointsPerFrame > 0 && p < poolSize
    ensures var k := p / pointsPerFrame;
            var start := StartAfter(k, pointsPerFrame, poolSize);
            start <= p < start + pointsPerFrame
  {
    var k := p / pointsPerFrame;
    assert k * pointsPerFrame <= p < k * pointsPerFrame + pointsPerFrame;
    StartAfterBeforeWrap(k, pointsPerFrame, poolSize);
  }

  // ---------------------------------------------------------------------
  // Node admission
  // ---------------------------------------------------------------------

  /** The positions of the required nodes from `k` on, in order. */
  function RequiredFrom(nodes: seq<NodeOracle>, k: nat): seq<nat>
    requires k <= |nodes|
    decreases |nodes| - k
  {
    if k == |nodes| then []
    else if nodes[k].required then [k] + RequiredFrom(nodes, k + 1)
    else RequiredFrom(nodes, k + 1)
  }

  /** With a positive limit, at most `min(maxNodesPerFrame, nodes.length)` nodes are uploaded. */
  lemma AdmissionBounded(nodes: seq<NodeOracle>, maxNodesPerFrame: int)
    requires maxNodesPerFrame > 0
    ensures |RenderNodes(nodes, maxNodesPerFrame)| <= maxNodesPerFrame
    ensures |RenderNodes(nodes, maxNodesPerFrame)| <= |nodes|
  {
  }

  /** With the limit off (0), exactly the required nodes are uploaded, in iteration order. */
  lemma {:induction false} UnlimitedAdmitsRequired(nodes: seq<NodeOracle>, maxNodesPerFrame: int, k: nat, uploaded: nat)
    requires maxNodesPerFrame <= 0
    requires k <= |nodes|
    ensures AdmitFrom(nodes, maxNodesPerFrame, k, uploaded) == RequiredFrom(nodes, k)
    decreases |nodes| - k
  {
    if k < |nodes| {
      if nodes[k].required {
        UnlimitedAdmitsRequired(nodes, maxNodesPerFrame, k + 1, uploaded + 1);
      } else {
        UnlimitedAdmitsRequired(nodes, maxNodesPerFrame, k + 1, uploaded);
      }
    }
  }

  /** A draw in `[0, 1)` always passes the random test when the limit covers every node. */
  lemma AdmitsUnderLargeLimit(maxNodesPerFrame: int, n: nat, uploaded: nat, draw: real)
    requires maxNodesPerFrame >= n && uploaded < n
    requires 0.0 <= draw < 1.0
    ensures Admits(maxNodesPerFrame, n, uploaded, draw)
  {
    assert MaxNodes(maxNodesPerFrame, n) == n;
  }

  /**
   * With a limit of at least `nodes.length` and `Math.random()` in `[0, 1)`,
   * the random test always passes and the count never reaches the limit, so
   * again exactly the required nodes are uploaded, in order.
   */
  lemma {:induction false} LargeLimitAdmitsRequired(nodes: seq<NodeOracle>, maxNodesPerFrame: int, k: nat, uploaded: nat)
    requires maxNodesPerFrame >= |nodes|
    requires forall j :: 0 <= j < |nodes| ==> 0.0 <= nodes[j].draw < 1.0
    requires k <= |nodes| && uploaded <= k
    ensures AdmitFrom(nodes, maxNodesPerFrame, k, uploaded) == RequiredFrom(nodes, k)
    decreases |nodes| - k
  {
    if k < |nodes| {
      if nodes[k].required {
        AdmitsUnderLargeLimit(maxNodesPerFrame, |nodes|, uploaded, nodes[k].draw);
        LargeLimitAdmitsRequired(nodes, maxNodesPerFrame, k + 1, uploaded + 1);
        assert AdmitFrom(nodes, maxNodesPerFrame, k, uploaded)
            == [k] + AdmitFrom(nodes, maxNodesPerFrame, k + 1, uploaded + 1);
      } else {
        LargeLimitAdmitsRequired(nodes, maxNodesPerFrame, k + 1, uploaded);
        assert AdmitFrom(nodes, maxNodesPerFrame, k, uploaded) == AdmitFrom(nodes, maxNodesPerFrame, k + 1, uploaded);
      }
    }
  }

  // ---------------------------------------------------------------------
  // Origin shift
  // ---------------------------------------------------------------------

  /**
   * The camera starts at the origin, then jumps to (200000, 0, 0): the first
   * frame adopts the origin without clearing, the second clears everything
   * and adopts the new camera position.
   */
  lemma OriginShiftScenario()
    ensures var c0 := Located(Vec3(0.0, 0.0, 0.0), 0.0);
            var c1 := Located(Vec3(200000.0, 0.0, 0.0), 200000.0);
            var first := ShiftOrigin(None, c0);
            var second := ShiftOrigin(Some(first.shift), c1);
            && !first.clearAll && first.shift == c0
            && second.clearAll && second.shift == c1
  {
  }

  // ---------------------------------------------------------------------
  // Clears and the frame's data flow
  // ---------------------------------------------------------------------

  lemma {:induction false} RunConcat(ts: seq<Content>, a: seq<Op>, b: seq<Op>)
    requires |ts| == TextureCount && WellFormedTrace(a) && WellFormedTrace(b)
    ensures WellFormedTrace(a + b)
    ensures Run(ts, a + b) == Run(Run(ts, a), b)
    decreases |a|
  {
    WellFormedConcat(a, b);
    if |a| > 0 {
      assert (a + b)[0] == a[0];
      assert (a + b)[1..] == a[1..] + b;
      RunConcat(Apply(ts, a[0]), a[1..], b);
      assert Run(ts, a + b) == Run(Apply(ts, a[0]), a[1..] + b);
      assert Run(ts, a) == Run(Apply(ts, a[0]), a[1..]);
    } else {
      assert a + b == b;
    }
  }

  /** Running the suffix from position `k` is applying `ops[k]` and running the rest. */
  lemma RunFrom(ts: seq<Content>, ops: seq<Op>, k: nat)
    requires |ts| == TextureCount && WellFormedTrace(ops)
    requires k < |ops|
    ensures Run(ts, ops[k..]) == Run(Apply(ts, ops[k]), ops[k + 1..])
  {
    assert ops[k..][0] == ops[k];
    assert ops[k..][1..] == ops[k + 1..];
  }

  /** Uploads touch no texture. */
  lemma {:induction false} RunUploads(ts: seq<Content>, ops: seq<Op>)
    requires |ts| == TextureCount
    requires forall k :: 0 <= k < |ops| ==> ops[k].UploadNode?
    ensures WellFormedTrace(ops)
    ensures Run(ts, ops) == ts
    decreases |ops|
  {
    if |ops| > 0 {
      RunUploads(ts, ops[1..]);
    }
  }

  /** `clearAll()` leaves all three textures blank, whatever they held. */
  lemma ClearAllBlanksEverything(ts: seq<Content>)
    requires |ts| == TextureCount
    ensures Run(ts, ClearAll()) == [Blank, Blank, Blank]
  {
    var c := ClearAll();
    assert c[1..][1..][1..][1..] == [];
  }

  /** What a frame displays, given what its reprojection read. */
  function FrameImage(previous: Content, startIdx: int, pointsPerFrame: nat): Content {
    Drawn(Blank, Resolved(Drawn(Blank, NewPoints(startIdx, pointsPerFrame)), Drawn(Blank, Reprojected(previous))))
  }

  /** The stages from the first clear through the reprojection and the clear of the read target. */
  lemma ReprojectStage(ts: seq<Content>, write: nat, read: nat)
    requires |ts| == TextureCount
    requires write < 2 && read < 2 && write != read
    ensures var ops := [ClearTexture(write), ClearTexture(ScratchTexture), Reproject(read, write), ClearTexture(read)];
            && WellFormedTrace(ops)
            && Run(ts, ops)[write] == Drawn(Blank, Reprojected(ts[read]))
            && Run(ts, ops)[read] == Blank
            && Run(ts, ops)[ScratchTexture] == Blank
  {
    var ops := [ClearTexture(write), ClearTexture(ScratchTexture), Reproject(read, write), ClearTexture(read)];
    var t1 := Apply(ts, ops[0]);
    var t2 := Apply(t1, ops[1]);
    var t3 := Apply(t2, ops[2]);
    var t4 := Apply(t3, ops[3]);
    assert t2[write] == Blank && t2[ScratchTexture] == Blank && t2[read] == ts[read];
    assert t4[write] == Drawn(Blank, Reprojected(ts[read]));
    assert ops[4..] == [] && ops[0..] == ops;
    RunFrom(ts, ops, 0);
    RunFrom(t1, ops, 1);
    RunFrom(t2, ops, 2);
    RunFrom(t3, ops, 3);
  }

  /** The stages from rendering new points through display. */
  lemma ComposeStage(ts: seq<Content>, write: nat, read: nat, startIdx: int, amount: nat)
    requires |ts| == TextureCount
    requires write < 2 && read < 2 && write != read
    ensures var ops := [ RenderPoints(ScratchTexture, startIdx, amount), FinishFrame,
                         DepthPass(ScratchTexture, write), Resolve(ScratchTexture, write, read), Display(read) ];
            && WellFormedTrace(ops)
            && Run(ts, ops)[read] == Drawn(ts[read], Resolved(Drawn(ts[ScratchTexture], NewPoints(startIdx, amount)), ts[write]))
  {
    var ops := [ RenderPoints(ScratchTexture, startIdx, amount), FinishFrame,
                 DepthPass(ScratchTexture, write), Resolve(ScratchTexture, write, read), Display(read) ];
    var t1 := Apply(ts, ops[0]);
    var t2 := Apply(t1, ops[1]);
    var t3 := Apply(t2, ops[2]);
    var t4 := Apply(t3, ops[3]);
    var t5 := Apply(t4, ops[4]);
    assert ops[5..] == [] && ops[0..] == ops;
    RunFrom(ts, ops, 0);
    RunFrom(t1, ops, 1);
    RunFrom(t2, ops, 2);
    RunFrom(t3, ops, 3);
    RunFrom(t4, ops, 4);
  }

  /**
   * The data flow of one frame (with `pingPongIdx` 0 or 1). The frame ends
   * by displaying the read target, and what it shows is the resolve of the
   * new points (drawn over a cleared scratch texture) with the reprojection
   * (drawn over a cleared write target) of what the read target held when
   * the frame started, or of nothing after an origin shift. So the
   * reprojection reads the read target before it is cleared, new points are
   * written to texture 2 only after it is cleared, and display shows what
   * resolve wrote.
   */
  lemma FrameDataflow(s: State, camera: Located, octrees: seq<seq<NodeOracle>>, ts: seq<Content>)
    requires |ts| == TextureCount
    requires s.pingPongIdx == 0 || s.pingPongIdx == 1
    ensures var f := Render(s, camera, octrees);
            var read := PingPong(s.pingPongIdx, false);
            var previous := if ShiftOrigin(s.shift, camera).clearAll then Blank else ts[read];
            && f.trace[|f.trace| - 1] == Display(read)
            && Run(ts, f.trace)[read] == FrameImage(previous, s.startIdx, s.pointsPerFrame)
  {
    var shifted := ShiftOrigin(s.shift, camera);
    var write := PingPong(s.pingPongIdx, true);
    var read := PingPong(s.pingPongIdx, false);
    var reset := if shifted.clearAll then ClearAll() else [];
    var reproject := [ClearTexture(write), ClearTexture(ScratchTexture), Reproject(read, write), ClearTexture(read)];
    var uploads := Uploads(octrees, s.maxNodesPerFrame, 0);
    var compose := [ RenderPoints(ScratchTexture, s.startIdx, s.pointsPerFrame), FinishFrame,
                     DepthPass(ScratchTexture, write), Resolve(ScratchTexture, write, read), Display(read) ];
    assert Render(s, camera, octrees).trace == reset + reproject + uploads + compose;
    var t1 := Run(ts, reset);
    if shifted.clearAll {
      ClearAllBlanksEverything(ts);
    }
    assert t1[read] == if shifted.clearAll then Blank else ts[read];
    ReprojectStage(t1, write, read);
    var t2 := Run(t1, reproject);
    RunUploads(t2, uploads);
    ComposeStage(t2, write, read, s.startIdx, s.pointsPerFrame);
    RunConcat(ts, reset, reproject);
    RunConcat(ts, reset + reproject, uploads);
    RunConcat(ts, reset + reproject + uploads, compose);
  }

  /**
   * Because `render` never swaps, consecutive frames chain: unless the
   * second frame shifts the origin, it shows its new points resolved with
   * the reprojection of exactly what the first frame showed.
   */
  lemma ConsecutiveFrames(
    s: State, c1: Located, o1: seq<seq<NodeOracle>>, c2: Located, o2: seq<seq<NodeOracle>>, ts: seq<Content>)
    requires |ts| == TextureCount
    requires s.pingPongIdx == 0 || s.pingPongIdx == 1
    ensures var f1 := Render(s, c1, o1);
            var f2 := Render(f1.state, c2, o2);
            var read := PingPong(s.pingPongIdx, false);
            var shown := Run(ts, f1.trace)[read];
            && f2.trace[|f2.trace| - 1] == Display(read)
            && (!ShiftOrigin(f1.state.shift, c2).clearAll ==>
                  Run(Run(ts, f1.trace), f2.trace)[read] == FrameImage(shown, f1.state.startIdx, s.pointsPerFrame))
  {
    var f1 := Render(s, c1, o1);
    FrameDataflow(s, c1, o1, ts);
    FrameDataflow(f1.state, c2, o2, Run(ts, f1.trace));
  }
}
