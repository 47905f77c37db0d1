# Compute point-cloud renderer core, modelled in Dafny

This project models the host-side logic of potree's compute-shader point-cloud
renderer:

- **The point-pool allocator** (`MemoryManager.js`). This is a first-fit free list
  over `[0, size)`. `alloc` splits the first entry that fits. `free` merges the
  freed entry forward with its run of free successors.
- **The two append-only GPU buffers.** `SSBO.js` and `ModelMatrixBuffer.js` keep a
  write offset, a capacity check and index arithmetic on top of a GPU buffer.
- **The frame logic of `ComputePointCloudRenderer.js`:**
  - the ping-pong choice between the two accumulation textures;
  - the rotating `startIdx` window over the point pool;
  - the per-frame node admission of `renderNodes`;
  - the origin-shift decision;
  - `clearFrame`, `clearPool` and `clearAll`;
  - the fixed order of the GPU stages within `render`.

Modules:

| module | what it holds |
|---|---|
| `Wrappers` | `Option` |
| `MemoryManager` | the free list as a sequence of entries in `next` order. A handle is a position. Operations: `New`, `FirstFit`, `Alloc`, `Merge`, `Free`, `Utilization`, `FreeHandles`/`FreeBlocks`, and the invariant `Valid` (the entries tile the pool, and `used` is the number of slots in allocated entries) |
| `MemoryManagerProofs` | a reference definition of a free (`Coalesced`: absorb the whole run of free successors), the recursive `merge` proved equal to it, and `alloc`/`free` proved to preserve `Valid` |
| `MemoryManagerScenarios` | repeated allocation on a packed pool, and concrete allocate/free/reallocate scenarios |
| `Ssbo`, `SsboProofs` | the SSBO's byte offset, capacity check, `lastIdx` and `spaceLeft` |
| `ModelMatrixBuffer`, `ModelMatrixBufferProofs` | the matrix buffer's offset, capacity check and returned indices |
| `Renderer`, `RendererProofs` | the renderer state, node admission, origin shift, and one frame as a trace of operations on three abstract textures |

How the model treats what it cannot compute:

- **Oracles.** `pointBuffer.require(node)` and `Math.random()` are given per node as a `NodeOracle`. Vector lengths are given with each position (`Located`).
- **Texture contents.** The GPU work is abstract: each texture holds a term (`Content`) that records how its content was produced. `Apply` gives the effect of one operation.
- **JavaScript division.** It is real division, so `lastIdx`, `spaceLeft` and the returned matrix index are `real`.

The model follows the code as written:

- **Free list.** The list is singly linked and `merge` only absorbs successors. A free entry is never merged into a free predecessor.
- **Origin shift.** The test compares the lengths of the two position vectors (`|‖shift‖ − ‖camera‖| > 100000`), not the distance between them.
- **Admission.** The random test is `random * nodes.length < maxNodes` over all visible nodes, not over the required ones only. The count test `i >= maxNodes` applies only when the limit is on.
- **Ping-pong.** Both `swapImageBuffer()` calls in `render` are commented out, so `pingPongIdx` never changes during rendering. A frame reprojects what the previous frame resolved into the same read texture.

## Model

| member | source | states |
|---|---|---|
| `MemoryManager.New` | src/viewer/renderer/MemoryManager.js:50-55 | a new manager is valid: one free entry covering the whole pool, nothing in use |
| `MemoryManager.Fits` | src/viewer/renderer/MemoryManager.js:12-14 | an entry fits a request exactly when it is free and the requested slots, counted from its address, end inside it |
| `MemoryManagerProofs.SplitPieces` | src/viewer/renderer/MemoryManager.js:16-36 | `alloc` on entry `h` turns it into an allocated, accessed entry of `n` slots followed by a free, unaccessed remainder that starts where it ends and ends where the old entry ended; all other entries keep their places |
| `MemoryManager.FirstFit` | src/viewer/renderer/MemoryManager.js:57-73 | the scan returns the first entry that is free and at least `n` slots; every earlier entry does not fit; none is returned only when no entry fits |
| `MemoryManager.Alloc` | src/viewer/renderer/MemoryManager.js:57-76 | `null` exactly when no entry fits, and then nothing changes; otherwise the first fitting entry is shrunk to `n` slots and marked allocated and accessed, followed by a free remainder at `address + n` of `size - n` slots; all other entries are kept; usage grows by `n` |
| `MemoryManager.Merge` | src/viewer/renderer/MemoryManager.js:38-45 | entries before `i` are kept; entry `i` keeps its address and flags; afterwards no free entry directly follows it |
| `MemoryManager.Free` | src/viewer/renderer/MemoryManager.js:78-84 | the entry becomes free, keeping its address; earlier entries are kept; it is not followed by a free entry; usage drops by its size only if it was allocated |
| `MemoryManager.Utilization` | src/viewer/renderer/MemoryManager.js:52-81 | the utilization is the fraction of the pool in allocated entries: multiplied by the pool size it gives the used slots |
| `MemoryManager.FreeBlocks` | src/viewer/renderer/MemoryManager.js:86-101 | every entry `freeBlocks()` returns is a free entry of the list |
| `MemoryManager.FreeHandles` | src/viewer/renderer/MemoryManager.js:90-99 | the positions listed are exactly those of the free entries, in increasing list order |
| `MemoryManagerProofs.TiledSumIsCapacity` | src/viewer/renderer/MemoryManager.js:50-55 | the entries' sizes add up to the pool size |
| `MemoryManagerProofs.BlocksDisjoint` | src/viewer/renderer/MemoryManager.js:30-36 | in a tiled list each entry ends no later than any later entry starts, and all lie within the pool: no two entries share a slot |
| `MemoryManagerProofs.ReplaceRunTiled` | src/viewer/renderer/MemoryManager.js:30-45 | replacing a run of entries by an adjacent chain that starts at the same address and covers the same slots keeps the list tiled |
| `MemoryManagerProofs.SplitTiled` | src/viewer/renderer/MemoryManager.js:30-36 | splitting an entry that fits keeps the entries tiling the pool |
| `MemoryManagerProofs.SplitUsed` | src/viewer/renderer/MemoryManager.js:16-23 | allocating `n` slots from a free entry adds exactly `n` allocated slots |
| `MemoryManagerProofs.AllocPreservesValid` | src/viewer/renderer/MemoryManager.js:57-76 | `alloc` keeps the manager valid: still tiled, and the usage counter still equals the allocated slots |
| `MemoryManagerProofs.MergeIsCoalesced` | src/viewer/renderer/MemoryManager.js:38-45 | the recursive `merge` equals the reference definition: the entry grows over exactly the maximal run of free successors and the rest of the list is kept |
| `MemoryManagerProofs.FreeCoalescesForward` | src/viewer/renderer/MemoryManager.js:25-28 | after `free(h)`, the entries before `h` are unchanged; entry `h` is free, keeps its address and covers the sum of the sizes of itself and its run of free successors; every absorbed entry was free |
| `MemoryManagerProofs.CoalescedTiled` | src/viewer/renderer/MemoryManager.js:42-43 | absorbing the run of free successors keeps the list tiled |
| `MemoryManagerProofs.CoalescedUsed` | src/viewer/renderer/MemoryManager.js:79-81 | freeing releases exactly the freed entry's slots if it was allocated, and nothing if it was already free |
| `MemoryManagerProofs.FreePreservesValid` | src/viewer/renderer/MemoryManager.js:78-84 | `free` keeps the manager valid |
| `MemoryManagerProofs.DoubleFreeIsNoOp` | src/viewer/renderer/MemoryManager.js:25-28 | freeing an already free entry with no free successor changes nothing |
| `MemoryManagerProofs.UtilizationInRange` | src/viewer/renderer/MemoryManager.js:52-81 | in a valid manager the utilization fraction lies in `[0, 1]` |
| `MemoryManagerProofs.FreeBlocksAreTheFreeEntries` | src/viewer/renderer/MemoryManager.js:86-101 | `freeBlocks()` lists every free entry of the list, and only free entries, in list order |
| `MemoryManagerScenarios.ScenarioReuseFreedBlock` | src/viewer/renderer/MemoryManager.js:57-84 | allocating 300, 400 and 300 slots of a 1000-slot pool gives addresses 0, 300 and 700; freeing the middle entry frees 400 slots; a new 400-slot request gets address 300 again |
| `MemoryManagerScenarios.AllocOnPacked` | src/viewer/renderer/MemoryManager.js:57-76 | on a pool packed with `k` entries of `n` slots, `alloc(n)` returns entry `k` and packs one more when `n` slots remain; otherwise it returns `null` and changes nothing |
| `MemoryManagerScenarios.FullPackedRefuses` | src/viewer/renderer/MemoryManager.js:75 | once fewer than `n` slots remain, every further `alloc(n)` returns `null` |
| `MemoryManagerScenarios.AllocRepeatedlyOnPacked` | src/viewer/renderer/MemoryManager.js:57-76 | repeated `alloc(n)` succeeds as long as `n` more slots fit and never afterwards; the number of successes is the most that fit, capped by the number of calls |
| `MemoryManagerScenarios.RequestsOnFreshPool` | src/viewer/renderer/MemoryManager.js:50-76 | of `count` requests of `n` slots on a fresh pool exactly `min(count, size / n)` succeed, packed from address 0 |
| `MemoryManagerScenarios.ScenarioTenRequestsOf150` | src/viewer/renderer/MemoryManager.js:57-76 | ten requests of 150 slots on a 1000-slot pool: six succeed, using 900 slots |
| `Ssbo.ArrayLength` | src/viewer/renderer/SSBO.js:75-77 | with a positive element size the buffer holds at least `maxElementCount` components |
| `Ssbo.ByteSize` | src/viewer/renderer/SSBO.js:67-69 | the capacity in bytes is `arrayLength()` components of `bytesPerComponent` bytes, i.e. `maxElementCount` elements |
| `Ssbo.Create` | src/viewer/renderer/SSBO.js:1-16 | a new buffer is empty, with write offset 0, and has the given layout; components take 4 bytes unless the caller says otherwise |
| `Ssbo.Clear` | src/viewer/renderer/SSBO.js:22-32 | `clear` rewinds the offset to 0 and changes nothing else |
| `Ssbo.SetData` | src/viewer/renderer/SSBO.js:34-42 | after `setData` the offset is the data's length in bytes, with no capacity check; the layout is kept |
| `Ssbo.AppendData` | src/viewer/renderer/SSBO.js:49-61 | an append that would pass the end is refused with no change; otherwise the offset advances by the data's length in bytes; an offset within bounds stays within bounds |
| `Ssbo.LastIdx` | src/viewer/renderer/SSBO.js:63-65 | one more than `lastIdx()` is the number of elements the offset covers |
| `Ssbo.SpaceLeft` | src/viewer/renderer/SSBO.js:71-73 | as written, `spaceLeft()` is one more than the room left |
| `Ssbo.SpaceLeftIntended` | src/viewer/renderer/SSBO.js:71-73 | the corrected `spaceLeft()` is the room left between the offset and the end, counted in elements |
| `SsboProofs.AppendExactFillAccepted` | src/viewer/renderer/SSBO.js:50-52 | an append that ends exactly at the capacity is accepted |
| `SsboProofs.AppendsStayInBounds` | src/viewer/renderer/SSBO.js:49-61 | any sequence of appends from an in-bounds offset never moves the offset backwards or past the end, and never changes the layout |
| `SsboProofs.LastIdxOfWholeElements` | src/viewer/renderer/SSBO.js:63-65 | with `k` whole elements written, `lastIdx()` is `k - 1`; after `clear()` it is `-1` |
| `SsboProofs.AppendWholeElements` | src/viewer/renderer/SSBO.js:49-65 | appending `e` whole elements to `k` stored elements is accepted if and only if `k + e <= maxElementCount`, and then `lastIdx()` advances by `e` |
| `SsboProofs.SpaceLeftOverstatesRoom` | src/viewer/renderer/SSBO.js:71-73 | as written, an empty one-element buffer reports `spaceLeft() == 2`, yet a second one-element append is refused |
| `SsboProofs.SpaceLeftIntendedIsRoom` | src/viewer/renderer/SSBO.js:71-73 | the corrected `spaceLeft` is `maxElementCount - k`, and `e` more elements fit if and only if `e <= spaceLeft` |
| `ModelMatrixBuffer.Create` | src/viewer/renderer/ModelMatrixBuffer.js:2-17 | a new buffer has offset 0 and the given size |
| `ModelMatrixBuffer.ByteSize` | src/viewer/renderer/ModelMatrixBuffer.js:59-62 | the capacity is `size` matrices of 64 bytes |
| `ModelMatrixBuffer.Clear` | src/viewer/renderer/ModelMatrixBuffer.js:19-27 | `clear` resets the offset to 0 and keeps the size |
| `ModelMatrixBuffer.SetData` | src/viewer/renderer/ModelMatrixBuffer.js:29-38 | as written, `setData` sets the offset to the data's length counted in floats |
| `ModelMatrixBuffer.SetDataInBytes` | src/viewer/renderer/ModelMatrixBuffer.js:29-38 | the corrected `setData` sets the offset to the data's length in bytes |
| `ModelMatrixBuffer.LastIdx` | src/viewer/renderer/ModelMatrixBuffer.js:55-57 | `lastIdx()` is the offset counted in 64-byte matrices |
| `ModelMatrixBuffer.AddModelMatrix` | src/viewer/renderer/ModelMatrixBuffer.js:40-53 | refused (returns `undefined`, no change) exactly when the new end would reach the capacity; otherwise the offset advances by the matrix size in bytes, stays below the capacity, and `lastIdx() - 1` is returned |
| `ModelMatrixBuffer.AddModelMatrixChecked` | src/viewer/renderer/ModelMatrixBuffer.js:40-53 | the corrected check refuses only when the new end would pass the capacity, so an exact fill is accepted |
| `ModelMatrixBufferProofs.AddReturnsIndexOfNewMatrix` | src/viewer/renderer/ModelMatrixBuffer.js:40-57 | with `k` whole matrices stored, adding one is accepted if and only if `k + 1 < size`, and it returns `k`: the index of the matrix just written |
| `ModelMatrixBufferProofs.AddCheckedReturnsIndexOfNewMatrix` | src/viewer/renderer/ModelMatrixBuffer.js:40-57 | with the corrected check, adding one is accepted if and only if `k + 1 <= size`, and it returns `k` |
| `ModelMatrixBufferProofs.AddRepeatedlyFrom` | src/viewer/renderer/ModelMatrixBuffer.js:40-53 | repeated additions as written succeed while `k + s < size` and never afterwards; the offset counts the added matrices |
| `ModelMatrixBufferProofs.AddRepeatedlyCheckedFrom` | src/viewer/renderer/ModelMatrixBuffer.js:40-53 | with the corrected check, repeated additions succeed while `k + s <= size` and never afterwards |
| `ModelMatrixBufferProofs.CapacityAsWritten` | src/viewer/renderer/ModelMatrixBuffer.js:41 | as written, an empty buffer takes only `min(count, size - 1)` matrices: the last slot is never used |
| `ModelMatrixBufferProofs.CapacityChecked` | src/viewer/renderer/ModelMatrixBuffer.js:41 | with the corrected check an empty buffer takes `min(count, size)` matrices |
| `ModelMatrixBufferProofs.SingleMatrixRefused` | src/viewer/renderer/ModelMatrixBuffer.js:41-43 | as written, a one-matrix buffer refuses its first matrix; the corrected check accepts it at index 0 |
| `ModelMatrixBufferProofs.SetDataCountsFloats` | src/viewer/renderer/ModelMatrixBuffer.js:37 | as written, loading one matrix leaves the offset at 16 instead of 64, so the next `addModelMatrix` uses byte offset 16 and returns index 0.25 instead of 1 |
| `ModelMatrixBufferProofs.SetDataInBytesThenAddAppends` | src/viewer/renderer/ModelMatrixBuffer.js:29-53 | with the corrected `setData`, loading `k` matrices leaves the offset at `k` whole matrices, and adding one returns index `k` |
| `Renderer.PingPong` | src/viewer/renderer/ComputePointCloudRenderer.js:430-436 | both targets are accumulation textures 0 or 1, never the scratch texture 2 |
| `Renderer.Swap` | src/viewer/renderer/ComputePointCloudRenderer.js:426-428 | the swapped index is 0 or 1, and differs from an index that was 0 or 1 |
| `Renderer.AdvanceStart` | src/viewer/renderer/ComputePointCloudRenderer.js:340-343 | the window advances by `pointsPerFrame` whenever that stays inside the pool, and otherwise restarts at 0; it always lies inside the pool |
| `Renderer.MaxNodes` | src/viewer/renderer/ComputePointCloudRenderer.js:156 | `maxNodes` is the minimum of the limit and the node count: no larger than either, and equal to one of them |
| `Renderer.Admits` | src/viewer/renderer/ComputePointCloudRenderer.js:164-174 | with the limit off every required node is uploaded; with it on, a node is uploaded only while fewer than the limit and fewer than the node count were uploaded |
| `Renderer.ScaledDraw` | src/viewer/renderer/ComputePointCloudRenderer.js:172 | a draw in `[0, 1)` scaled by the node count stays below the node count |
| `Renderer.AdmitFrom` | src/viewer/renderer/ComputePointCloudRenderer.js:161-181 | only nodes `require` asked for are uploaded, in iteration order, each at most once; with the limit on, at most `min(maxNodesPerFrame, nodes.length)` are uploaded; with it off, every required node is |
| `Renderer.RenderNodes` | src/viewer/renderer/ComputePointCloudRenderer.js:153-187 | the nodes passed to `uploadNode` are required ones, in iteration order, each at most once; with a positive limit there are at most `maxNodesPerFrame` of them; with the limit off every required node is uploaded |
| `Renderer.ShiftOrigin` | src/viewer/renderer/ComputePointCloudRenderer.js:221-235 | the first call adopts the camera position without clearing; later calls clear everything and adopt the camera exactly when the lengths differ by more than 100000; afterwards the origin's length is always within 100000 of the camera's |
| `Renderer.Apply` | src/viewer/renderer/ComputePointCloudRenderer.js:302-424 | each stage changes only the textures it writes |
| `Renderer.ClearFrame` | src/viewer/renderer/ComputePointCloudRenderer.js:438-442 | `clearFrame` leaves all three textures blank, whatever they held |
| `Renderer.ClearPool` | src/viewer/renderer/ComputePointCloudRenderer.js:444-446 | `clearPool` touches no texture |
| `Renderer.ClearAll` | src/viewer/renderer/ComputePointCloudRenderer.js:449-452 | `clearAll` empties the pool first and leaves all three textures blank |
| `Renderer.Create` | src/viewer/renderer/ComputePointCloudRenderer.js:26-53 | a new renderer starts at ping-pong index 0 and window start 0, with no origin, 1000000 points per frame and an unlimited node count |
| `Renderer.InitTextures` | src/viewer/renderer/ComputePointCloudRenderer.js:63-71 | `initTextures` resets the ping-pong index to 0 and changes nothing else |
| `Renderer.Uploads` | src/viewer/renderer/ComputePointCloudRenderer.js:270-275 | the uploads of one frame are all `uploadNode` calls on existing nodes of existing octrees that `require` asked for |
| `Renderer.Render` | src/viewer/renderer/ComputePointCloudRenderer.js:237-300 | a frame leaves the ping-pong index unchanged, always has an origin afterwards, keeps the window start inside the pool, and keeps the budgets |
| `RendererProofs.PingPongTargets` | src/viewer/renderer/ComputePointCloudRenderer.js:430-436 | for index 0 or 1 the write and read targets differ, the read target is the index itself and the write target is the other one; any other index sends both to texture 0 |
| `RendererProofs.SwapExchangesTargets` | src/viewer/renderer/ComputePointCloudRenderer.js:426-436 | swapping exchanges the read and write targets, and swapping twice restores the index |
| `RendererProofs.StartAfterBeforeWrap` | src/viewer/renderer/ComputePointCloudRenderer.js:340-343 | until the pool end is reached, frame `k` starts its window at `k * pointsPerFrame` |
| `RendererProofs.WindowCoversPool` | src/viewer/renderer/ComputePointCloudRenderer.js:319-344 | every point of the pool falls inside the rendered window of some frame |
| `RendererProofs.AdmissionBounded` | src/viewer/renderer/ComputePointCloudRenderer.js:156-178 | with a positive limit, at most `maxNodesPerFrame` and at most `nodes.length` nodes are uploaded |
| `RendererProofs.UnlimitedAdmitsRequired` | src/viewer/renderer/ComputePointCloudRenderer.js:162-179 | with the limit off, exactly the required nodes are uploaded, in order |
| `RendererProofs.AdmitsUnderLargeLimit` | src/viewer/renderer/ComputePointCloudRenderer.js:167-174 | with a limit of at least `nodes.length`, the random test always passes for a draw in `[0, 1)` while the count is below the node count |
| `RendererProofs.LargeLimitAdmitsRequired` | src/viewer/renderer/ComputePointCloudRenderer.js:153-187 | with a limit of at least `nodes.length`, exactly the required nodes are uploaded, in order, whatever the draws |
| `RendererProofs.OriginShiftScenario` | src/viewer/renderer/ComputePointCloudRenderer.js:221-231 | a camera at the origin is adopted without clearing; a jump to length 200000 clears everything and re-centres on the camera |
| `RendererProofs.RunUploads` | src/viewer/renderer/ComputePointCloudRenderer.js:270-275 | uploading nodes touches no texture |
| `RendererProofs.ClearAllBlanksEverything` | src/viewer/renderer/ComputePointCloudRenderer.js:438-452 | `clearAll` (the pool, then every texture) leaves all three textures blank, whatever they held before |
| `RendererProofs.ReprojectStage` | src/viewer/renderer/ComputePointCloudRenderer.js:256-267 | after the clear, reproject and clear stages, the write target holds the reprojection of what the read target held before, and the read and scratch textures are blank |
| `RendererProofs.ComposeStage` | src/viewer/renderer/ComputePointCloudRenderer.js:277-292 | after the render, depth, resolve and display stages the read target shows the resolve of the new points, drawn over the scratch texture's content, with the write target's content |
| `RendererProofs.FrameDataflow` | src/viewer/renderer/ComputePointCloudRenderer.js:237-300 | a frame ends by displaying the read target; it shows the resolve of this frame's window of new points with the reprojection of the read target's previous content, or of nothing after an origin shift |
| `RendererProofs.ConsecutiveFrames` | src/viewer/renderer/ComputePointCloudRenderer.js:268-293 | because the swaps are commented out, the second of two frames without an origin shift shows its new points resolved with the reprojection of exactly what the first frame showed |

## Left out

- GPU and browser calls are not modelled: `gl.*` buffer and texture calls, shaders and `dispatchCompute`, window sizes and `resize`, the UBOs, `Profiler`, `performance` marks, `_calculateFps` and `getFPS`. They have no effect on the modelled state. The texture contents are abstract terms.
- `traverse(scene)`: the scene graph is not modelled. `Render` takes the visible nodes of each octree directly, in traversal order.
- `PointBuffer` is not part of this model. Its `require`, `uploadNode`, `finishFrame` and `clear` appear only as oracle answers or as operations in the trace.
- Matrix arithmetic is not modelled: `shiftMatrix`, the view-projection matrices and the camera matrices. `shiftOrigin` keeps only the clear-and-adopt decision.
- Vector lengths are inputs to `shiftOrigin`, not computed from coordinates, because floating-point square roots are not modelled.
- `numTotalPoints` and `numPointsPerNode` in `renderNodes` are computed but never used. They are left out. With `maxNodesPerFrame == 0` the latter is a division by zero that JavaScript turns into `Infinity`.
- The `pointPoolSize` setter creates a new `PointBuffer`. The model has only the pool size `poolSize`.
- `getMemoryUtilization`, `numNodesUploaded` and `pointPoolSizeInMB` are getters into the point buffer and are left out.
- `allBlocks()` is the block sequence itself: `Manager.blocks` in list order.
- `MemoryManager.Alloc`: request sizes are natural numbers. Negative sizes, which JavaScript would accept and split into an entry larger than the original, are not modelled.
- `MemoryManager.Free`: a handle is a position in the current list, whereas JavaScript hands out entry references that stay attached to their entry. Positions shift: `Alloc` at `h` moves every later entry up by one, and `Free` at `h` moves the entries after the absorbed run down. For example, after allocating 300 and 400 slots (handle 1), freeing handle 0 and allocating 100 slots, the 400-slot entry sits at position 2 and position 1 is the free 200-slot remainder. Keeping an entry's position current across calls is left to the caller. Freeing a stale reference, to an entry already absorbed by a merge, cannot be expressed.
- `MemoryManagerProofs.UtilizationInRange`: `utilization` is modelled exactly as `used / capacity`. The JavaScript accumulates it in floating point, so rounding drift is not modelled.
- `MemoryManager.Utilization` requires a positive pool size. With `new MemoryManager(0)`, `alloc(0)` fits the head entry (`0 >= 0`) and then adds `0 / 0`, so the JavaScript `utilization` becomes `NaN`. The model keeps `used == 0` and leaves the fraction undefined for an empty pool.
- `ModelMatrixBuffer.SetData`: `gl.bufferData(..., data, ...)` at line 34 also gives the GPU buffer a new store the size of the data. The store size is not modelled, so the model says where the offset and the returned index go, not whether a later GPU write fits in the store.
- `Ssbo.LastIdx` and `SpaceLeft` require a positive element size. JavaScript would divide by zero and return `Infinity` or `NaN`.
- `Renderer.ShiftOrigin`: the vector lengths are exact reals, not floating-point values.

## Findings

| source | as written | input that shows it | evidently intended | confidence | as-written member | corrected member |
|---|---|---|---|---|---|---|
| src/viewer/renderer/ModelMatrixBuffer.js:37 | `setData` sets the offset to `data.length`, a count of floats, while `addModelMatrix` and `lastIdx` treat the offset as bytes | `setData` with one 16-float matrix, then `addModelMatrix`: the offset is 16 instead of 64, the add uses byte offset 16, and index 0.25 is returned instead of 1 | `data.length * 4`, so the offset counts bytes like everywhere else and `lastIdx()` counts the loaded matrices | not executed | `ModelMatrixBufferProofs.SetDataCountsFloats` | `ModelMatrixBufferProofs.SetDataInBytesThenAddAppends` |
| src/viewer/renderer/ModelMatrixBuffer.js:41 | the capacity check uses `>=`, so a matrix that would end exactly at the capacity is refused | a buffer of size 1: its first matrix is refused; in general only `size - 1` matrices fit | `>` as in `SSBO.appendData`, so a buffer of `size` matrices holds `size` | not executed | `ModelMatrixBufferProofs.CapacityAsWritten` | `ModelMatrixBufferProofs.CapacityChecked` |
| src/viewer/renderer/SSBO.js:72 | `spaceLeft()` is `maxElementCount - lastIdx()`, but `lastIdx()` is the element count minus one | an empty buffer of one one-component element: `spaceLeft()` is 2, yet only one element fits | `maxElementCount - (lastIdx() + 1)`, the number of elements that still fit | not executed | `SsboProofs.SpaceLeftOverstatesRoom` | `SsboProofs.SpaceLeftIntendedIsRoom` |
