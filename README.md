# NNTile intersection copy, gather and tile storage in Dafny

This project models three parts of NNTile:

- **The tile intersection copy.** Two tiles are placed at offsets in one
  shared coordinate space. `copy_intersection_work` intersects their boxes
  one dimension at a time. When they overlap it computes where the overlap
  starts in each tile, how long it is, and whether the destination tile is
  overwritten completely. That choice selects a write-only task over a
  read-write task. The codelet `cpu_copy_intersection` then copies the
  overlap between two flat Fortran-ordered buffers. It keeps two index
  vectors in a scratch buffer and advances them like an odometer with carry.
  Two linear offsets move in step through the strides. With no dimension
  (`ndim == 0`) the copy is a single element.
- **Gather.** `gather_async` collapses a tiled tensor into a
  single-tile tensor of the same shape. It checks the destination and the
  shapes first. A single source tile is copied whole. Otherwise a tile
  odometer walks the source grid, first dimension fastest. Each tile is
  copied whole to `tile_index * basetile` in the destination, the first
  write-only and the others read-write.
- **Tile storage.** `Tile::_get_size` checks the capacity and the `size_t`
  overflow of a caller's buffer. The model also covers the byte sizes the
  constructors request and element access through `TileLocalData`.

The modules and what they hold:

- `IndexAlgebra` (`index_algebra.dfy`): element counts, Fortran strides
  (`stride[0] = 1`), `index_to_linear` / `linear_to_index` as inverse
  bijections, and the odometer successor `Succ`. It is the successor the copy
  kernel and the gather loop compute with their carry loops.
- `Tiling` (`tiling.dfy`): the tile grid of a tensor, the shape and start of
  each tile, and the tile and local coordinate of every element.
- `TileCopy` (`tile_copy.dfy`): `copy.cc`. The planning loop is checked
  against a reference definition of the box intersection. The codelet is a
  method over a destination `array` and a scratch `array<int>`. It is proved
  to produce `BoxCopied`: the sub-box holds the source elements and
  everything else is unchanged. `CopyIntersectionWork` is proved to produce
  `CopiedIntersection`, the copy stated in global coordinates.
- `Gather` (`gather.dfy`): `gather.cc`. The destination buffer ends equal to
  the source tensor assembled in global coordinates. The schedule of copies
  and their access modes is returned.
- `TileBuffer` (`tile_buffer.dfy`): `tile.hh`. `size_t` arithmetic is written
  modulo 2^64.

Access to the runtime is read as "run the task now". The returned `Task` and
`Submission` values record what would have been submitted: the codelet, the
destination access mode, and whether a scratch buffer is attached.

For empty tiles the code does not do what its own comment says. The comment
at `src/tile/copy.cc:135` says nothing is done when the tiles do not
intersect, and a box with a zero extent intersects nothing. The code only
tests whether the boxes are disjoint. An empty tile at a position inside the
other box's span passes that test. The model states the code as written
(`SubmitsAsWritten`) and uses the corrected rule (see Findings).

## Model

| member | source | states |
|---|---|---|
| `IndexAlgebra.StridesFortran` | src/tile/copy.cc:53-54 | The strides have stride[0] = 1 and stride[i] = stride[i-1] * shape[i-1]. |
| `IndexAlgebra.StridedOffset` | src/tile/copy.cc:53-59 | The stride-weighted sum of a multi-index through the Fortran strides is its index_to_linear position. |
| `IndexAlgebra.ProductPositive` | src/tile/copy.cc:46-49 | The element count (the product of the extents) is positive exactly when no extent is zero. |
| `IndexAlgebra.LinearRoundTrip` | tests/tensor/copy_intersection.cc:70-77 | index_to_linear(linear_to_index(e)) == e for every position below nelems. |
| `IndexAlgebra.IndexRoundTrip` | tests/tensor/copy_intersection.cc:116-136 | An in-bounds multi-index has a position below nelems, and linear_to_index gives the multi-index back. |
| `IndexAlgebra.IndexInjective` | tests/tensor/copy_intersection.cc:116-136 | Two in-bounds multi-indices with the same position are equal. |
| `IndexAlgebra.CarriedIsNext` | src/tile/copy.cc:65-74 | Resetting the maximal coordinates below j and advancing coordinate j gives an in-bounds index whose position is one more. |
| `IndexAlgebra.FirstBelowMax` | src/tile/copy.cc:68-72 | The carry stops at the first coordinate below its maximum: every coordinate before it is at its maximum. |
| `IndexAlgebra.Succ` | src/tensor/gather.cc:95-102 | The odometer successor of a multi-index that is not the last is in bounds, at position one more. |
| `IndexAlgebra.NotLastBelow` | src/tile/copy.cc:63-68 | While the element counter is below nelems, some coordinate is below its maximum, so the carry stops inside the index vector. |
| `IndexAlgebra.ZeroIndex` | src/tensor/gather.cc:76-77 | In a non-empty box the all-zero index is in bounds, at position 0. |
| `IndexAlgebra.LinearSucc` | src/tensor/gather.cc:92-102 | At counter e + 1 < nelems the odometer state linear_to_index(e) has a successor, and that successor is linear_to_index(e + 1). |
| `Tiling.TileInside` | src/tensor/gather.cc:109-117 | Every tile of the grid has positive extents and ends inside the tensor. |
| `Tiling.ElementInTile` | src/tensor/gather.cc:92-117 | Every element lies in the tile global / basetile, at local coordinate global % basetile, and tile start plus local gives it back. |
| `Tiling.TileBoxIff` | src/tensor/gather.cc:109-117 | The box of tile t holds element g if and only if t is the tile of g. |
| `Tiling.SingleTile` | src/tensor/gather.cc:34-37 | A one-tile grid is all ones, its tile has the whole shape, and the shape is at most the basetile. |
| `Tiling.GridOfOne` | src/tensor/gather.cc:34-37 | A grid with one tile has one tile in every dimension. |
| `Tiling.GridPositive` | src/tensor/gather.cc:34-42 | The grid has tiles exactly when the tensor has elements. |
| `TileCopy.PlanIntersection` | src/tile/copy.cc:130-162 | The per-dimension loop returns nothing exactly when some dimension is disjoint. Otherwise it returns the starts, overlap shape and write-only flag of the reference intersection, [max of offsets, min of ends). |
| `TileCopy.PlanStarts` | src/tile/copy.cc:142-156 | In each dimension one local start is 0 and the other is the offset difference, so src_offset + src_start == dst_offset + dst_start. |
| `TileCopy.PlanFits` | src/tile/copy.cc:146-155 | copy_shape is the length of the interval intersection, and the sub-box fits inside both tiles. |
| `TileCopy.PlanPositive` | src/tile/copy.cc:133-155 | For overlapping boxes, every copy_shape entry is at least 1 if and only if neither tile is empty. |
| `TileCopy.FullOverwriteIff` | src/tile/copy.cc:131-161 | full_overwrite holds if and only if the destination box lies inside the source box. |
| `TileCopy.WriteOnlyIndependent` | src/tile/copy.cc:165-179 | When full_overwrite holds, the result does not depend on the destination's old contents, which is what makes the write-only task safe. |
| `TileCopy.PlanCopiesIntersection` | src/tile/copy.cc:142-156 | Copying the planned sub-box in local coordinates is the intersection copy in global coordinates. |
| `TileCopy.DisjointUnchanged` | src/tile/copy.cc:133-140 | If the boxes are disjoint in some dimension, the intersection copy leaves the destination unchanged. |
| `TileCopy.EmptyBoxUnchanged` | src/tile/copy.cc:46-63 | A sub-box with a zero extent holds no element, and its box copy changes nothing. |
| `TileCopy.ScalarCopied` | src/tile/copy.cc:116-128 | With no dimension, the intersection copy replaces the single destination element with the source element. |
| `TileCopy.SubmitsEmptyIff` | src/tile/copy.cc:116-162 | As written, with at least one dimension, the codelet is submitted over a zero-extent sub-box if and only if the boxes are not disjoint and one of the tiles is empty. |
| `TileCopy.EmptyTileSubmitted` | src/tile/copy.cc:133-162 | An empty source tile inside the destination's span passes the disjointness test. It is submitted with copy_shape [0], and the kernel's first read is beyond the empty source. |
| `TileCopy.EmptyDstSubmitted` | src/tile/copy.cc:133-162 | An empty destination tile inside the source's span passes the disjointness test. Its copy_shape [0] equals its shape, so full_overwrite holds, and the kernel's first write is beyond the empty destination. |
| `TileCopy.CpuCopyIntersectionNdim0` | src/tile/copy.cc:20-28 | The single destination element becomes the source element. |
| `TileCopy.InitIndices` | src/tile/copy.cc:46-52 | nelems is the product of copy_shape, and the scratch buffer starts with src_start followed by dst_start; the rest is unchanged. |
| `TileCopy.StartOffset` | src/tile/copy.cc:53-59 | The initial offset is the stride-weighted sum of the start vector. |
| `TileCopy.CarryDigit` | src/tile/copy.cc:70-72 | One carry: coordinate j is reset to its start and coordinate j + 1 advances, and the rest of the scratch buffer is unchanged. |
| `TileCopy.CarryOffset` | src/tile/copy.cc:73 | One carry moves the offset by stride[j+1] - copy_shape[j] * stride[j]. |
| `TileCopy.CarryOffsetTotal` | src/tile/copy.cc:68-74 | The summed offset corrections of a whole carry chain make the offset that of the advanced index vector. |
| `TileCopy.Advance` | src/tile/copy.cc:65-74 | One odometer step of one index vector in scratch: it moves to start + Succ(relative index), and the offset to that vector's stride-weighted sum. |
| `TileCopy.AdvanceBoth` | src/tile/copy.cc:65-82 | Both index vectors take the same step, so they stay start + the same relative index, and both offsets follow them. |
| `TileCopy.PartialCopyStep` | src/tile/copy.cc:83 | Writing the element at relative index rel extends the copied prefix from position I2L(rel) to I2L(rel) + 1, and both positions are in range. |
| `TileCopy.CopyElement` | src/tile/copy.cc:83 | dst[dst_offset] = src[src_offset] copies the element at the current relative index, one more in the copied prefix. |
| `TileCopy.PartialCopyNone` | src/tile/copy.cc:46-60 | Before any element is copied the destination is unchanged. |
| `TileCopy.PartialCopyComplete` | src/tile/copy.cc:63-86 | After all nelems elements the destination is the box copy. |
| `TileCopy.CopyRest` | src/tile/copy.cc:61-86 | The element loop keeps the indices in bounds at the counter's position and the offsets equal to the strided sums. It ends with the sub-box copied and every other element unchanged. |
| `TileCopy.CpuCopyIntersection` | src/tile/copy.cc:30-87 | For a non-empty sub-box, the destination sub-box holds the matching source elements and every other destination element keeps its value. |
| `TileCopy.CopyIntersectionWork` | src/tile/copy.cc:89-199 | The destination becomes the global intersection copy. The scalar codelet is used for ndim 0, there is no task for disjoint boxes or an empty tile, and otherwise the odometer codelet runs with a scratch buffer, write-only exactly when the destination box lies inside the source box. |
| `Gather.AssembledAt` | src/tensor/gather.cc:23-25 | Every element of every source tile lands in the gathered buffer at its global coordinate tile_start + local. |
| `Gather.AssembledConstant` | tests/tensor/clear.cc:62-76 | A tensor whose tiles hold only v (zero after clear) gathers to a buffer holding only v. |
| `Gather.SingleTileAssembled` | src/tensor/gather.cc:49-69 | A one-tile tensor assembled is its tile's buffer. |
| `Gather.GatheredNone` | src/tensor/gather.cc:76-89 | Before any tile is copied the destination is unchanged. |
| `Gather.GatheredAll` | src/tensor/gather.cc:92-121 | Once all grid positions are copied the destination is the assembled tensor. |
| `Gather.TileFacts` | src/tensor/gather.cc:109-117 | A grid tile, as a box copy from 0 of its own shape to its start, fits both buffers and is non-empty. |
| `Gather.GatheredStep` | src/tensor/gather.cc:114-117 | Copying tile t whole to its start extends the gathered prefix by exactly that tile's grid position. |
| `Gather.NextTileIndex` | src/tensor/gather.cc:95-102 | The tile-index carry loop computes the odometer successor Succ(grid, index). |
| `Gather.TileStartOf` | src/tensor/gather.cc:110-113 | dst_tile_start[k] = src_tile_index[k] * basetile[k] for every k. |
| `Gather.DataCopy` | src/tensor/gather.cc:57-60 | The whole-tile data copy makes the destination equal to the source tile. |
| `Gather.CopyTile` | src/tensor/gather.cc:103-118 | One strided copy of source tile t, from 0 with its whole shape to its start, adds tile t to the gathered destination. |
| `Gather.GatherTiles` | src/tensor/gather.cc:70-121 | The multi-tile path visits the tiles in grid order, the first write-only and the rest read-write, and leaves the destination equal to the assembled source. |
| `Gather.GatherAsync` | src/tensor/gather.cc:30-122 | It fails exactly when the destination is not single-tiled, and then exactly on a shape mismatch, in both cases with the destination unchanged. Otherwise the destination equals the source elementwise in global order, with one whole copy for one tile or one strided copy per tile in order, W then RW. |
| `Gather.Gather` | src/tensor/gather.cc:131-137 | Same outcome as gather_async once every task has run. |
| `TileBuffer.WrapDetect` | include/nntile/tile/tile.hh:46-51 | The test size / sizeof(T) != nelems on the wrapped product fails exactly when nelems * sizeof(T) does not fit in size_t. |
| `TileBuffer.GetSize` | include/nntile/tile/tile.hh:37-53 | It fails with insufficient memory if and only if nelems > ptr_nelems, then with overflow if and only if the byte size exceeds size_t. Otherwise it returns exactly nelems * sizeof(T). |
| `TileBuffer.TileFromBuffer` | include/nntile/tile/tile.hh:73-84 | A user-buffer tile is built if and only if the buffer is large enough and the size fits, registered RW with the exact byte size. Otherwise it fails with _get_size's error. |
| `TileBuffer.RuntimeTileAsWritten` | include/nntile/tile/tile.hh:61-72 | A runtime-allocated tile requests the size_t-wrapped product, which equals nelems * sizeof(T) exactly when that fits. |
| `TileBuffer.RuntimeRequestWraps` | include/nntile/tile/tile.hh:62-66 | A tile of 2^62 four-byte elements requests 0 bytes. |
| `TileBuffer.RuntimeTile` | include/nntile/tile/tile.hh:61-72 | Checked runtime allocation: it is built if and only if the byte size fits, and then requests exactly nelems * sizeof(T), read-only and runtime-owned. |
| `TileBuffer.RuntimeTileAgrees` | include/nntile/tile/tile.hh:61-72 | Where the checked constructor succeeds it requests what the unchecked one does. |
| `TileBuffer.TileLocalData.constructor` | include/nntile/tile/tile.hh:96-99 | Local data wraps the tile's buffer with the requested access mode. |
| `TileBuffer.TileLocalData.Get` | include/nntile/tile/tile.hh:100-104 | operator[](i) const: the body returns element i of the buffer; its ensures only says the value is one of the buffer's elements, and Set's contract gives read-after-write at i. |
| `TileBuffer.TileLocalData.Set` | include/nntile/tile/tile.hh:105-108 | Writing through operator[](i) changes element i to the value and no other element. |

## Left out

- Runtime: StarPU task insertion, `starpu_data_cpy`, asynchronous execution,
  `starpu_task_wait_for_all` and the `ret != 0` failures are not modelled.
  Every task runs when it is submitted. The returned `Task` / `Submission`
  values record the codelet, the destination access mode and whether a
  scratch buffer is attached.
- MPI: the model has a single node. `mpi_transfer` and `mpi_flush` do
  nothing, and the test whether this rank owns the destination tile is always
  true.
- Access modes are recorded but not given a semantics. A write-only
  destination is not made undefined before the copy.
  `TileCopy.WriteOnlyIndependent` and the fact that `Gather.Tensor.Assembled`
  does not mention the old destination show the result does not depend on
  the old contents.
- Integer width in the codelet and the planning loop: `Index` arithmetic on
  offsets, starts and `nelems` is unbounded here. 64-bit overflow of these is
  not modelled. Only `size_t` in `tile.hh` is written modulo 2^64.
- `TileTraits`, the tensor grid, `get_tile_shape`, `linear_to_index` and
  `index_to_linear`: their source is not among the modelled files, so they
  are stated from scratch in `IndexAlgebra` and `Tiling`, with Fortran
  strides and the first dimension fastest.
- `starpu::subcopy` (the codelet gather submits) is not part of this model.
  Each sub-copy uses the same strided box copy as `cpu_copy_intersection`,
  from start 0 with the whole tile shape.
- The codelet increments `src_index[0]` and `dst_index[0]` before either carry
  loop. The model advances the source vector with its carry, then the
  destination vector with its carry. The vectors occupy disjoint parts of the
  scratch buffer, so the state after the step is the same.
- The codelet computes both start offsets in one loop. The model runs
  `StartOffset` once per vector.
- Source tiles are read-only sequences. The destination and scratch are
  distinct arrays, as the distinct handles in the source guarantee. Aliasing
  between source and destination is not modelled.
- `Gather.GatherAsync`: the destination is the one buffer of the
  destination's tile 0, with as many elements as the destination shape. For
  a multi-tile destination the call fails before touching it. Its other
  tiles are not modelled.
- `Gather.Gather`: the wait for all tasks does nothing, because every task has
  already run.
- `Tile(traits, handle)` copies both bases and requests no memory, so it has
  no separate member. The constructors from a shape and from traits differ
  only in how the traits are obtained, and one function models each pair.
- `Tile::acquire` and releasing the local data are not modelled.
  `TileLocalData` is built directly over the buffer array. `get_ptr` is the
  `buffer` field.
- `TileCopy.CpuCopyIntersection` requires a sub-box with no zero extent
  (`Product(copyShape) >= 1`), which its caller as written does not
  guarantee: the codelet's unconditional first copy at `src/tile/copy.cc:60`
  has no meaning for an empty sub-box. See the first Findings row.
- `TileCopy.CopyIntersectionWork` submits no task when either tile is empty,
  where the code as written submits one (read-write for an empty source,
  write-only for an empty destination placed inside the source). It models
  the corrected rule of the first Findings row; the code as written is
  `TileCopy.SubmitsAsWritten`, characterised by `TileCopy.SubmitsEmptyIff`
  and shown by `TileCopy.EmptyTileSubmitted` and `TileCopy.EmptyDstSubmitted`.
- Error messages and exception types are not modelled, only which error is
  raised.

## Findings

| source | as written | input that shows it | evidently intended | confidence | as-written member | corrected member |
|---|---|---|---|---|---|---|
| src/tile/copy.cc:133-162 | Only disjoint boxes skip the task. An empty tile whose offset lies inside the other box's span is submitted with a zero `copy_shape`, and the codelet's unconditional first copy (line 60) reads one source element and writes one destination element. | source shape [0] at offset [1], destination shape [2] at offset [0]: copy_shape [0], a read-write task, first read at position 0 of a source with no element. Source shape [2] at offset [0], destination shape [0] at offset [1]: copy_shape [0] equals the destination shape, so full_overwrite stays true and a write-only task writes position 0 of a destination with no element | Nothing is done when the tiles do not intersect (the comment at src/tile/copy.cc:135), and a box with a zero extent intersects nothing: no task, destination unchanged | medium, not executed | `TileCopy.SubmitsEmptyIff`, `TileCopy.EmptyTileSubmitted`, `TileCopy.EmptyDstSubmitted` | `TileCopy.CopyIntersectionWork` |
| include/nntile/tile/tile.hh:61-72 | The runtime-allocated constructors request `nelems*sizeof(T)` without the overflow test `_get_size` makes for user buffers | shape [2^62] with a 4-byte element type: the request wraps to 0 bytes | Fail with the size_t overflow error, as `_get_size` does | low, not executed | `TileBuffer.RuntimeRequestWraps` | `TileBuffer.RuntimeTile` |
