/**
 * The integer and control logic of the compute point-cloud renderer
 * (ComputePointCloudRenderer.js): the ping-pong choice of accumulation
 * textures, the rotating window over the point pool, the per-frame node
 * admission, the origin-shift decision, and the fixed order of the frame's
 * GPU stages as a trace of operations on three storage textures.
 *
 * The GPU work itself is abstract: an operation records which textures it
 * reads and writes, and `Apply` gives each texture's content as a term that
 * says how it was produced. `pointBuffer.require` and `Math.random` are
 * oracles supplied per node; vector lengths are supplied by the caller.
 */
module Renderer {
  import opened Wrappers

  /** Number of storage textures created by `initTextures`. */
  const TextureCount: nat := 3

  /** The scratch texture new points are rendered into. */
  const ScratchTexture: nat := 2

  /** Length difference beyond which `shiftOrigin` re-centres and clears everything. */
  const OriginShiftThreshold: real := 100000.0

  /** Constructor defaults. */
  const DefaultPointsPerFrame: nat := 1000000
  const DefaultMaxNodesPerFrame: int := 0
  const DefaultPoolSize: nat := 25 * 1000 * 1000

  // ---------------------------------------------------------------------
  // Ping-pong accumulation targets
  // ---------------------------------------------------------------------

  /** `pingPong(writeTarget)`: the texture written this frame, or the one read. */
  function PingPong(pingPongIdx: int, writeTarget: bool): (r: nat)
    ensures r < 2 && r != ScratchTexture
  {
    if writeTarget then (if pingPongIdx == 0 then 1 else 0)
    else (if pingPongIdx == 1 then 1 else 0)
  }

  /** `swapImageBuffer()`: 0 becomes 1, anything else becomes 0. */
  function Swap(pingPongIdx: int): (r: int)
    ensures r == 0 || r == 1
    ensures pingPongIdx == 0 || pingPongIdx == 1 ==> r != pingPongIdx
  {
    if pingPongIdx == 0 then 1 else 0
  }

  // ---------------------------------------------------------------------
  // Rotating window over the point pool
  // ---------------------------------------------------------------------

  /**
   * The `startIdx` update at the end of `renderPoints`: advance by the
   * points rendered this frame, and restart at 0 once the pool end is
   * reached or passed.
   */
  function AdvanceStart(startIdx: int, pointsPerFrame: nat, poolSize: int): (r: int)
    ensures startIdx >= 0 && poolSize > 0 ==> 0 <= r < poolSize
    ensures r == 0 || r == startIdx + pointsPerFrame
    ensures startIdx + pointsPerFrame < poolSize ==> r == startIdx + pointsPerFrame
  {
    var next := startIdx + pointsPerFrame;
    if next >= poolSize then 0 else next
  }

  // ---------------------------------------------------------------------
  // Per-frame node admission (`renderNodes`)
  // ---------------------------------------------------------------------

  /**
   * What `renderNodes` learns about one visible node: the answer of
   * `pointBuffer.require(node)` (asked for every node, in order), and the
   * `Math.random()` value drawn if the random test is reached.
   */
  datatype NodeOracle = NodeOracle(required: bool, draw: real)

  /** `maxNodes = Math.min(this.maxNodesPerFrame, nodes.length)`. */
  function MaxNodes(maxNodesPerFrame: int, nodeCount: nat): (r: int)
    ensures r <= maxNodesPerFrame && r <= nodeCount
    ensures r == maxNodesPerFrame || r == nodeCount
  {
    if maxNodesPerFrame <= nodeCount then maxNodesPerFrame else nodeCount
  }

  /**
   * Whether a required node is uploaded, given `uploaded` uploads so far:
   * always when the limit is off (`maxNodesPerFrame <= 0`); otherwise only
   * while fewer than `maxNodes` were uploaded and the random test
   * `random * nodes.length < maxNodes` passes.
   */
  predicate Admits(maxNodesPerFrame: int, nodeCount: nat, uploaded: nat, draw: real): (r: bool)
    ensures maxNodesPerFrame <= 0 ==> r
    ensures r && maxNodesPerFrame > 0 ==> uploaded < maxNodesPerFrame && uploaded < nodeCount
  {
    var maxNodes := MaxNodes(maxNodesPerFrame, nodeCount);
    maxNodesPerFrame <= 0 || (uploaded < maxNodes && ScaledDraw(draw, nodeCount) < maxNodes as real)
  }

  /** `Math.random() * nodes.length`: below the node count whenever the draw is in `[0, 1)`. */
  function ScaledDraw(draw: real, nodeCount: nat): (r: real)
    ensures 0.0 <= draw < 1.0 && nodeCount > 0 ==> r < nodeCount as real
  {
    var x := nodeCount as real;
    if 0.0 <= draw < 1.0 && nodeCount > 0 then
      PositiveProduct(1.0 - draw, x);
      assert (1.0 - draw) * x == x - draw * x;
      draw * x
    else
      draw * x
  }

  lemma PositiveProduct(a: real, b: real)
    requires a > 0.0 && b > 0.0
    ensures a * b > 0.0
  {
  }

  /** The admission loop from node `k` on, with `uploaded` uploads so far: positions uploaded, in order. */
  function AdmitFrom(nodes: seq<NodeOracle>, maxNodesPerFrame: int, k: nat, uploaded: nat): (r: seq<nat>)
    requires k <= |nodes|
    decreases |nodes| - k
    ensures forall p :: 0 <= p < |r| ==> k <= r[p] < |nodes| && nodes[r[p]].required
    ensures forall p, q :: 0 <= p < q < |r| ==> r[p] < r[q]
    ensures maxNodesPerFrame > 0 && uploaded <= MaxNodes(maxNodesPerFrame, |nodes|) ==>
              uploaded + |r| <= MaxNodes(maxNodesPerFrame, |nodes|)
    ensures maxNodesPerFrame <= 0 ==> forall j :: k <= j < |nodes| && nodes[j].required ==> j in r
  {
    if k == |nodes| then []
    else if nodes[k].required && Admits(maxNodesPerFrame, |nodes|, uploaded, nodes[k].draw) then
      [k] + AdmitFrom(nodes, maxNodesPerFrame, k + 1, uploaded + 1)
    else
      AdmitFrom(nodes, maxNodesPerFrame, k + 1, uploaded)
  }

  /** `renderNodes(nodes)`: the positions of the nodes passed to `uploadNode`, in order. */
  function RenderNodes(nodes: seq<NodeOracle>, maxNodesPerFrame: int): (r: seq<nat>)
    ensures forall p :: 0 <= p < |r| ==> r[p] < |nodes| && nodes[r[p]].required
    ensures forall p, q :: 0 <= p < q < |r| ==> r[p] < r[q]
    ensures maxNodesPerFrame > 0 ==> |r| <= maxNodesPerFrame && |r| <= |nodes|
    ensures maxNodesPerFrame <= 0 ==> forall j :: 0 <= j < |nodes| && nodes[j].required ==> j in r
  {
    AdmitFrom(nodes, maxNodesPerFrame, 0, 0)
  }

  // ---------------------------------------------------------------------
  // Origin shift
  // ---------------------------------------------------------------------

  datatype Vec3 = Vec3(x: real, y: real, z: real)

  /** A position together with its Euclidean length (`Vector3.length()`), computed by the caller. */
  datatype Located = Located(position: Vec3, length: real)

  /** Result of `shiftOrigin`: the new reference origin and whether `clearAll` ran. */
  datatype ShiftResult = ShiftResult(shift: Located, clearAll: bool)

  function Abs(x: real): real {
    if x < 0.0 then -x else x
  }

  /**
   * `shiftOrigin(camera)`: the first call adopts the camera position. Later
   * calls compare the lengths of the two position vectors; when they differ
   * by more than the threshold, everything is cleared and the camera
   * position becomes the new origin, otherwise nothing changes.
   */
  function ShiftOrigin(shift: Option<Located>, camera: Located): (r: ShiftResult)
    ensures shift.None? ==> r == ShiftResult(camera, false)
    ensures shift.Some? ==>
              (r.clearAll <==> Abs(shift.value.length - camera.length) > OriginShiftThreshold)
    ensures r.clearAll ==> r.shift == camera
    ensures !r.clearAll && shift.Some? ==> r.shift == shift.value
    ensures Abs(r.shift.length - camera.length) <= OriginShiftThreshold
  {
    match shift
    case None => ShiftResult(camera, false)
    case Some(s) =>
      if Abs(s.length - camera.length) > OriginShiftThreshold then ShiftResult(camera, true)
      else ShiftResult(s, false)
  }

  // ---------------------------------------------------------------------
  // GPU stages as a trace
  // ---------------------------------------------------------------------

  /** One step the renderer issues; texture operands are indices into `storageTexture`. */
  datatype Op =
    | ClearTexture(texture: nat)                       // clearImageBuffer
    | EmptyPool                                        // pointBuffer.clear()
    | Reproject(source: nat, target: nat)              // reprojectLastFrame
    | UploadNode(octree: nat, node: nat)               // pointBuffer.uploadNode
    | RenderPoints(target: nat, startIdx: int, amount: nat)  // renderPoints
    | FinishFrame                                      // pointBuffer.finishFrame()
    | DepthPass(points: nat, reprojected: nat)         // depthPass (writes the depth SSBO)
    | Resolve(points: nat, reprojected: nat, target: nat)    // resolveBuffer
    | Display(texture: nat)                            // displayResult

  /** How a texture's content came about. */
  datatype Content = Blank | Drawn(under: Content, layer: Layer)

  /** What a pass draws over a texture's previous content. */
  datatype Layer =
    | Reprojected(source: Content)
    | NewPoints(startIdx: int, amount: nat)
    | Resolved(points: Content, reprojected: Content)

  /** Every texture operand names one of the three textures. */
  predicate WellFormed(op: Op) {
    match op
    case ClearTexture(t) => t < TextureCount
    case Reproject(s, t) => s < TextureCount && t < TextureCount
    case RenderPoints(t, _, _) => t < TextureCount
    case DepthPass(p, q) => p < TextureCount && q < TextureCount
    case Resolve(p, q, t) => p < TextureCount && q < TextureCount && t < TextureCount
    case Display(t) => t < TextureCount
    case _ => true
  }

  predicate WellFormedTrace(trace: seq<Op>) {
    forall k :: 0 <= k < |trace| ==> WellFormed(trace[k])
  }

  lemma WellFormedConcat(a: seq<Op>, b: seq<Op>)
    requires WellFormedTrace(a) && WellFormedTrace(b)
    ensures WellFormedTrace(a + b)
  {
    forall k | 0 <= k < |a + b| ensures WellFormed((a + b)[k]) {
      if k < |a| {
        assert (a + b)[k] == a[k];
      } else {
        assert (a + b)[k] == b[k - |a|];
      }
    }
  }

  /** The textures an operation reads. */
  function Reads(op: Op): set<nat> {
    match op
    case Reproject(s, _) => {s}
    case DepthPass(p, q) => {p, q}
    case Resolve(p, q, _) => {p, q}
    case Display(t) => {t}
    case _ => {}
  }

  /** The textures an operation writes or clears. */
  function Writes(op: Op): set<nat> {
    match op
    case ClearTexture(t) => {t}
    case Reproject(_, t) => {t}
    case RenderPoints(t, _, _) => {t}
    case Resolve(_, _, t) => {t}
    case _ => {}
  }

  /** The effect of one operation on the three textures' contents. */
  function Apply(ts: seq<Content>, op: Op): (r: seq<Content>)
    requires |ts| == TextureCount && WellFormed(op)
    ensures |r| == TextureCount
    ensures forall t :: 0 <= t < TextureCount && t !in Writes(op) ==> r[t] == ts[t]
  {
    match op
    case ClearTexture(t) => ts[t := Blank]
    case Reproject(s, t) => ts[t := Drawn(ts[t], Reprojected(ts[s]))]
    case RenderPoints(t, start, amount) => ts[t := Drawn(ts[t], NewPoints(start, amount))]
    case Resolve(p, q, t) => ts[t := Drawn(ts[t], Resolved(ts[p], ts[q]))]
    case _ => ts
  }

  /** The contents after running a whole trace. */
  function Run(ts: seq<Content>, trace: seq<Op>): (r: seq<Content>)
    requires |ts| == TextureCount && WellFormedTrace(trace)
    ensures |r| == TextureCount
    decreases |trace|
  {
    if |trace| == 0 then ts else Run(Apply(ts, trace[0]), trace[1..])
  }

  /** `clearFrame()`: clear the three textures 0, 1 and 2. */
  function ClearFrame(): (r: seq<Op>)
    ensures WellFormedTrace(r)
    ensures forall t :: 0 <= t < TextureCount ==> ClearTexture(t) in r
    ensures forall k :: 0 <= k < |r| ==> r[k].ClearTexture?
  {
    [ClearTexture(0), ClearTexture(1), ClearTexture(2)]
  }

  /** `clearPool()`: empty the resident point pool. */
  function ClearPool(): (r: seq<Op>)
    ensures WellFormedTrace(r) && |r| > 0
    ensures forall k :: 0 <= k < |r| ==> Writes(r[k]) == {}
  {
    [EmptyPool]
  }

  /** `clearAll()`: `clearPool()` then `clearFrame()`. */
  function ClearAll(): (r: seq<Op>)
    ensures WellFormedTrace(r)
    ensures |r| == |ClearPool()| + |ClearFrame()|
    ensures r[..|ClearPool()|] == ClearPool() && r[|ClearPool()|..] == ClearFrame()
  {
    ClearPool() + ClearFrame()
  }

  // ---------------------------------------------------------------------
  // The renderer and one frame
  // ---------------------------------------------------------------------

  /** The renderer's frame-to-frame state and budgets. */
  datatype State = State(
    pingPongIdx: int,
    startIdx: int,
    shift: Option<Located>,
    pointsPerFrame: nat,
    maxNodesPerFrame: int,
    poolSize: nat)

  /** The constructor, after `initTextures`. */
  function Create(): (s: State)
    ensures s.pingPongIdx == 0 && s.startIdx == 0 && s.shift.None?
    ensures s.maxNodesPerFrame == DefaultMaxNodesPerFrame && s.pointsPerFrame == DefaultPointsPerFrame
  {
    State(0, 0, None, DefaultPointsPerFrame, DefaultMaxNodesPerFrame, DefaultPoolSize)
  }

  /** `initTextures()` (also run on every resize): fresh textures and `pingPongIdx = 0`. */
  function InitTextures(s: State): (r: State)
    ensures r.pingPongIdx == 0 && r.(pingPongIdx := s.pingPongIdx) == s
  {
    s.(pingPongIdx := 0)
  }

  /** The uploads of `renderOctree` for octrees `o..`, in traversal order. */
  function Uploads(octrees: seq<seq<NodeOracle>>, maxNodesPerFrame: int, o: nat): (r: seq<Op>)
    requires o <= |octrees|
    decreases |octrees| - o
    ensures forall k :: 0 <= k < |r| ==> r[k].UploadNode?
    ensures forall k :: 0 <= k < |r| ==>
              && o <= r[k].octree < |octrees|
              && r[k].node < |octrees[r[k].octree]|
              && octrees[r[k].octree][r[k].node].required
  {
    if o == |octrees| then []
    else
      var nodes := RenderNodes(octrees[o], maxNodesPerFrame);
      seq(|nodes|, k requires 0 <= k < |nodes| => UploadNode(o, nodes[k]))
      + Uploads(octrees, maxNodesPerFrame, o + 1)
  }

  /** Result of `render`: the next state and the operations issued, in order. */
  datatype Frame = Frame(state: State, trace: seq<Op>)

  /**
   * `render(scene, camera)`: shift the origin, clear the write and scratch
   * textures, reproject the read texture into the write texture, clear the
   * read texture, upload admitted nodes, render the window of new points
   * into the scratch texture, depth pass, resolve into the read texture and
   * display it. Both `swapImageBuffer` calls are commented out, so the
   * ping-pong index stays as it was.
   */
  function Render(s: State, camera: Located, octrees: seq<seq<NodeOracle>>): (f: Frame)
    ensures f.state.pingPongIdx == s.pingPongIdx
    ensures f.state.shift.Some?
    ensures s.startIdx >= 0 && s.poolSize > 0 ==> 0 <= f.state.startIdx < s.poolSize
    ensures f.state.pointsPerFrame == s.pointsPerFrame && f.state.maxNodesPerFrame == s.maxNodesPerFrame
    ensures f.state.poolSize == s.poolSize
    ensures WellFormedTrace(f.trace)
  {
    var shifted := ShiftOrigin(s.shift, camera);
    var write := PingPong(s.pingPongIdx, true);
    var read := PingPong(s.pingPongIdx, false);
    var reset := if shifted.clearAll then ClearAll() else [];
    var reproject := [ClearTexture(write), ClearTexture(ScratchTexture), Reproject(read, write), ClearTexture(read)];
    var uploads := Uploads(octrees, s.maxNodesPerFrame, 0);
    var compose := [ RenderPoints(ScratchTexture, s.startIdx, s.pointsPerFrame), FinishFrame,
                     DepthPass(ScratchTexture, write), Resolve(ScratchTexture, write, read), Display(read) ];
    var trace := reset + reproject + uploads + compose;
    assert WellFormedTrace(trace) by {
      assert WellFormedTrace(uploads);
      WellFormedConcat(reset, reproject);
      WellFormedConcat(reset + reproject, uploads);
      WellFormedConcat(reset + reproject + uploads, compose);
    }
    Frame(s.(startIdx := AdvanceStart(s.startIdx, s.pointsPerFrame, s.poolSize), shift := Some(shifted.shift)),
          trace)
  }
}
