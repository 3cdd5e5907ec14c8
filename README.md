# software-renderer-rs, core model in Dafny

This project models the logic at the centre of a hobby game-engine repository.

- **Voxel world.** `World` places voxel assets in a grid of cubic chunks and fills an overlay table. It composes one chunk from terrain plus its overlay record, and greedily meshes the chunk into single-colour quads. It regenerates the chunks that came into range. (Modules `ChunkCoords`, `Placement`, `Voxels`, `GreedyMesh`, `Registries`, `VoxelWorld`.)
- **RTS flow field.** `FlowField` holds a grid of `u32` costs. A worklist relaxation spreads costs from a destination, 100 per orthogonal step and 141 per diagonal step. Then every cell stores the direction of its steepest descent. (Module `Navigation`.)
- **Id generators and the flow-field holder** of the RTS client. (Module `Resources`.)
- **Renderer command queue.** `CommandFQueue` tags camera commands with frame numbers. (Module `CommandQueue`.)
- **Game input queue.** (Module `Input`.)
- **Software renderer frame buffer.** `Canvas` holds colours and depths. (Module `Windowing`.)
- **Game configuration decision:** unique model names, otherwise the empty default. (Module `Configuration`.)
- **RTS selection box.** (Module `Helpers`.)

Stateful parts of the program are Dafny classes with `modifies` frames; the buffers are arrays:
- `FlowField`, `Canvas`, `Mask`, `InputQueue`, `CommandFQueue`, the id generators and `World`.

Each loop of the program is a `method` with loop invariants. The method is proved against a specification function, such as:
- `FlowOf` for `calculate_flow`;
- `Rotations` for the event loop of `handle_input`;
- `MeshVertices`/`MeshIndices` for `greedy_mesh`;
- `Walk` for the per-axis loop of `add`, started from the program's own `chunk_number_and_offset`.

The properties the program promises are proved about those functions as lemmas. Code without a loop or a mutation is a function: `retrieve_commands`, for example, is the function `Filtered`.

Values outside the model's reach are parameters:
- The terrain test of `generate_chunk` is a predicate `Terrain`.
- The outcome of opening and parsing the configuration file is a `LoadOutcome`.
- The window's input queue seen by `handle_input` is a small `WindowInput` class: a FIFO of events and a set of held keys.
- The chunk coordinates that `range_diff` reports as added are a sequence of `Box`es.
- The number of winit key codes is a constructor argument.

## Model

| member | source | states |
|---|---|---|
| ChunkCoords.TruncDiv | low_poly_nice_graphics/src/world/world.rs:84 | Rust's signed `/` truncates toward zero: it is Euclidean division for non-negative operands, and the negated quotient of the negation otherwise |
| ChunkCoords.ChunkNumberAndOffset | low_poly_nice_graphics/src/world/world.rs:78-88 | the mapper as written; its offset always lies in `0..=chunk_size` (note: it can reach the size itself) |
| ChunkCoords.NonNegativeSplit | low_poly_nice_graphics/src/world/world.rs:79-82 | for `start >= 0` the result is `(start / size, start % size)`, so `chunk*size + offset == start` and `offset < size` |
| ChunkCoords.ChunkIndexIsFloor | low_poly_nice_graphics/src/world/world.rs:78-88 | for every `start`, negative ones included, the chunk index is `floor(start / size)` |
| ChunkCoords.NegativeSplitNearZero | low_poly_nice_graphics/src/world/world.rs:84-85 | for `-size <= start < 0` the negative branch gives `(-1, size + start)`, an exact split with the offset inside the chunk |
| ChunkCoords.AsWrittenFailsAtMinusFive | low_poly_nice_graphics/src/world/world.rs:84-85 | as written, `(-5, 4)` maps to `(-2, 4)`: the offset equals the chunk size and does not land on -5, against the unit test's `(-2, 3)` at line 373 |
| ChunkCoords.AsWrittenOffsetReachesSize | low_poly_nice_graphics/src/world/world.rs:84-85 | at every multiple of `-(size+1)` the as-written offset is `size` itself, so the first extent `min(size, chunk_size - offset)` that `add` computes (lines 101, 106, 111) is 0 |
| ChunkCoords.FloorChunkAndOffset | low_poly_nice_graphics/src/world/world.rs:78-88 | the corrected mapper: `chunk*size + offset == start` and `0 <= offset < size` for every start |
| ChunkCoords.AsWrittenAgreesAboveMinusSize | low_poly_nice_graphics/src/world/world.rs:78-88 | the code and the corrected mapper agree on every `start >= -size` |
| ChunkCoords.FloorMapperMatchesUnitTest | low_poly_nice_graphics/src/world/world.rs:371-376 | the corrected mapper meets all four cases of the repository's unit test |
| Placement.WalkShape | low_poly_nice_graphics/src/world/world.rs:105-130 | one axis of `add`, from any target offset up to `chunk_size`: consecutive chunk numbers; every run fits its chunk and is non-empty, except a first run that starts at offset `chunk_size`; target 0 after the first run; source offsets are running sums of earlier extents; the extents sum to the size |
| Placement.WalkWorldPosition | low_poly_nice_graphics/src/world/world.rs:110-125 | each run starts, in world coordinates, at the walk's start plus its source offset, also when the walk starts at offset `chunk_size` |
| Placement.RunsOrdered | low_poly_nice_graphics/src/world/world.rs:122 | an earlier run ends in the source before a later one starts, for any start offset up to `chunk_size` |
| Placement.WalkCovers | low_poly_nice_graphics/src/world/world.rs:110-125 | every source position of the walk lies in one of its runs, for any start offset up to `chunk_size` |
| Placement.WalkTiling | low_poly_nice_graphics/src/world/world.rs:105-130 | every source position lies in exactly one run of a walk, which puts it at the floor chunk and offset of the walk's start plus that position |
| Placement.AxisShape | low_poly_nice_graphics/src/world/world.rs:97-135 | the per-axis runs of `add`, walked from the program's `chunk_number_and_offset`: consecutive chunks from the first; each fits chunk and asset; only the first can be empty, and only at offset `chunk_size`; each sits at its world position shifted by the mapper's drift |
| Placement.AxisRunAt | low_poly_nice_graphics/src/world/world.rs:110-125 | run `i` lies in chunk `first + i`, fits chunk and asset, is empty only as a first run at offset `chunk_size`, and sits at the asset's world coordinate plus the drift |
| Placement.AxisTiling | low_poly_nice_graphics/src/world/world.rs:97-135 | every asset position lies in exactly one run, which puts it at the floor chunk and offset of its world coordinate shifted by the drift |
| Placement.AxisKey | low_poly_nice_graphics/src/world/world.rs:97-135 | the same property, keyed by chunk number: exactly one chunk holds a given asset position |
| Placement.WalkAtStart | low_poly_nice_graphics/src/world/world.rs:98-109 | each walk starts at the chunk and offset `chunk_number_and_offset` gives for the asset's coordinate, with source offset 0 |
| Placement.WalkAtStep | low_poly_nice_graphics/src/world/world.rs:111-124 | a loop step emits `min(remaining, chunk_size - target)` in the current chunk, then moves to the next chunk at target 0 |
| Placement.WalkAtEnd | low_poly_nice_graphics/src/world/world.rs:110 | once the size is used up, the chunk counter is one past the axis's last chunk |
| Placement.IntendedAxisTiling | low_poly_nice_graphics/src/world/world.rs:78-135 | with the corrected mapper, every asset position lies in exactly one non-empty run, at the floor chunk and offset of its own world coordinate |
| Placement.AxisSegmentsAboveMinusSize | low_poly_nice_graphics/src/world/world.rs:78-135 | for coordinates `>= -chunk_size` the program's runs are the corrected ones and the drift is 0 |
| Placement.AsWrittenFirstRunEmpty | low_poly_nice_graphics/src/world/world.rs:84-123 | at `-(chunk_size+1)*m` the first run has extent 0 at offset `chunk_size` in the coordinate's floor chunk; the asset then starts in the next chunk at offset 0 |
| Placement.AsWrittenOneBelowMinusSize | low_poly_nice_graphics/src/world/world.rs:84-130 | one voxel at `-(chunk_size+1)` gets an empty record in chunk -2 and lands in chunk -1 at offset 0, instead of chunk -2 at offset `chunk_size-1`: a drift of 1 |
| Placement.AsWrittenTwoBelowMinusSize | low_poly_nice_graphics/src/world/world.rs:84-130 | one voxel at `-(chunk_size+2)` lands at offset `chunk_size-1` of chunk -2 instead of `chunk_size-2`: a drift of 1 without an empty record |
| Placement.AxisRunShape | low_poly_nice_graphics/src/world/world.rs:112-120 | a chunk's run fits chunk and asset, lies at the asset's world coordinate plus the drift, and is empty only in the first chunk at offset `chunk_size` |
| Placement.PlacedRecordShape | low_poly_nice_graphics/src/world/world.rs:112-120 | every record of a placement refers to the asset just pushed (`entities.len()-1`), fits its chunk and asset on all axes, and is placed at the asset's world position shifted by each axis's drift; an empty extent occurs only in an axis's first chunk at offset `chunk_size` |
| Placement.PlacementTilesAsset | low_poly_nice_graphics/src/world/world.rs:97-135 | the records of one placement tile the asset's box: each voxel is copied by the record of exactly one chunk, at the floor chunk and local offset of its world position shifted by the drift |
| Placement.PlacedAboveMinusSize | low_poly_nice_graphics/src/world/world.rs:78-135 | a position whose coordinates are all `>= -chunk_size` is not shifted |
| VoxelWorld.World.constructor | low_poly_nice_graphics/src/world/world.rs:69-76 | a new world has no assets, no records and no chunks, and chunk size 32 |
| VoxelWorld.World.Add | low_poly_nice_graphics/src/world/world.rs:90-136 | pushes the asset; walks from the program's `chunk_number_and_offset` and writes the placement's record for every chunk the walks touch (the empty first record included), replacing an earlier record (HashMap insert); every other chunk keeps its record; chunks untouched; table consistency (`Records`) preserved |
| VoxelWorld.World.AddLayer | low_poly_nice_graphics/src/world/world.rs:102-130 | the y walk for one z run, from any start offset up to `chunk_size`, writes the records of that layer of chunks, and nothing else |
| VoxelWorld.World.AddRow | low_poly_nice_graphics/src/world/world.rs:107-125 | the x walk for one y and one z run, from any start offset up to `chunk_size`, writes the records of that row of chunks, and nothing else |
| VoxelWorld.PlacedUpToSame | low_poly_nice_graphics/src/world/world.rs:100-135 | two cut-off points of the z/y/x visiting order that select the same chunks describe the same table |
| VoxelWorld.PlacedUpToAll | low_poly_nice_graphics/src/world/world.rs:100-135 | once every chunk of the placement has been visited, the whole placement is written |
| VoxelWorld.PlacedUpToInsert | low_poly_nice_graphics/src/world/world.rs:112-120 | inserting the record for the current chunk moves the cut-off point past it |
| VoxelWorld.PlacedVoxelShows | low_poly_nice_graphics/src/world/world.rs:90-179 | after `add`, each non-empty asset voxel shows with its own colour id, whatever the terrain, in the chunk and at the offset of its world position shifted by the drift of the program's mapper |
| VoxelWorld.PlacedVoxelShowsInPlace | low_poly_nice_graphics/src/world/world.rs:90-179 | for an asset placed at or above `-chunk_size` on every axis, each non-empty voxel shows at its own world position |
| VoxelWorld.AsWrittenEmptyRecordReplaces | low_poly_nice_graphics/src/world/world.rs:84-179 | an asset whose x is a multiple of `-(chunk_size+1)` writes an empty record for its first chunk, replacing that chunk's earlier record, so the chunk shows only terrain |
| VoxelWorld.TerrainPass | low_poly_nice_graphics/src/world/world.rs:145-157 | a fresh cube of side `chunk_size` whose cells hold colour id 255 exactly where the terrain test holds |
| VoxelWorld.TerrainLayer | low_poly_nice_graphics/src/world/world.rs:147-156 | one z layer of the terrain pass; other layers unchanged |
| VoxelWorld.TerrainRow | low_poly_nice_graphics/src/world/world.rs:148-155 | one row of the terrain pass; other rows unchanged |
| VoxelWorld.OverlayPass | low_poly_nice_graphics/src/world/world.rs:158-179 | the overlay copy writes target cell `target+i` only where source cell `source+i` is non-empty; every other cell keeps its terrain value |
| VoxelWorld.OverlayLayer | low_poly_nice_graphics/src/world/world.rs:161-178 | one source layer of the overlay copy; other layers unchanged |
| VoxelWorld.OverlayRow | low_poly_nice_graphics/src/world/world.rs:162-177 | one source row of the overlay copy; other rows unchanged |
| VoxelWorld.OverlayCellAt | low_poly_nice_graphics/src/world/world.rs:164-175 | at the target of source offset `(i,j,l)`, the cell takes the source voxel when it is non-empty |
| VoxelWorld.RowUpToStep | low_poly_nice_graphics/src/world/world.rs:163-176 | copying one source cell extends the copied part of the row by one column |
| VoxelWorld.World.OverlayOf | low_poly_nice_graphics/src/world/world.rs:158-160 | a chunk has an overlay exactly when the table holds a record for it; that record fits the asset it copies from |
| VoxelWorld.World.BuildChunkVoxels | low_poly_nice_graphics/src/world/world.rs:145-179 | the composed chunk: terrain, with the chunk's record (if any) copied over it |
| VoxelWorld.World.ComposedHasVoxel | low_poly_nice_graphics/src/world/world.rs:180-196 | a composed chunk has a voxel exactly when not all its composed cells are empty |
| VoxelWorld.World.GenerateChunk | low_poly_nice_graphics/src/world/world.rs:138-198 | no chunk, with both registries unchanged, exactly when the composed chunk is empty; otherwise a new mesh (the greedy mesh of the chunk) and a new entity at the chunk's origin drawing it; the chunk has that entity and is marked just added |
| VoxelWorld.Cleared | low_poly_nice_graphics/src/world/world.rs:207 | `clear_just_added` keeps every chunk and unmarks all of them |
| VoxelWorld.World.ClearJustAdded | low_poly_nice_graphics/src/world/world.rs:207 | the chunk table becomes `Cleared` of the old one |
| VoxelWorld.World.SetChunk | low_poly_nice_graphics/src/world/world.rs:221-225 | `set_chunk` stores the generated chunk, or unloads the coordinate when there is none |
| VoxelWorld.World.TearDown | low_poly_nice_graphics/src/world/world.rs:216-219 | a stale chunk whose entity is still live loses that entity and the entity's mesh; nothing else is removed |
| VoxelWorld.World.Regenerate | low_poly_nice_graphics/src/world/world.rs:220-225 | generates the chunk afresh and stores it: no chunk exactly when the composed chunk is empty, otherwise a new entity drawing a new mesh that is the chunk's greedy mesh; registries stay consistent |
| VoxelWorld.World.GenerateStep | low_poly_nice_graphics/src/world/world.rs:220-225 | generating and storing a chunk whose pre-pass entity is gone keeps the pass invariant with the coordinate visited |
| VoxelWorld.World.TearDownStep | low_poly_nice_graphics/src/world/world.rs:214-219 | tearing down a stale chunk keeps the pass invariant, removes the chunk's pre-pass entity and records it as torn down |
| VoxelWorld.World.RefreshKey | low_poly_nice_graphics/src/world/world.rs:214-226 | a chunk generated earlier in the pass is left alone; a missing chunk is generated; a stale chunk is torn down and regenerated; the pass invariant is kept with the coordinate visited |
| VoxelWorld.World.RefreshRow | low_poly_nice_graphics/src/world/world.rs:213-227 | refreshes one row of a box in ascending x |
| VoxelWorld.World.RefreshLayer | low_poly_nice_graphics/src/world/world.rs:212-228 | refreshes one layer of a box in ascending y |
| VoxelWorld.World.RefreshBox | low_poly_nice_graphics/src/world/world.rs:211-229 | refreshes one box in ascending z |
| VoxelWorld.World.GenerateAround | low_poly_nice_graphics/src/world/world.rs:200-231 | after the pass:<br>• every coordinate in an added box holds a chunk generated in this pass exactly when its composed chunk is non-empty;<br>• coordinates outside every box keep their chunks, unmarked;<br>• each refreshed chunk's mesh is the greedy mesh of its composed voxels, and the new entities and meshes are live;<br>• exactly the entities and meshes of the replaced chunks are removed, and all others are unchanged |
| VoxelWorld.TearDownKeeps | low_poly_nice_graphics/src/world/world.rs:215-219 | tearing down a stale chunk keeps the pass state, and its old entity is then gone |
| VoxelWorld.RegenerateKeeps | low_poly_nice_graphics/src/world/world.rs:220-225 | generating and storing a chunk whose old entity is gone keeps the pass state, with the coordinate visited |
| VoxelWorld.JustAddedVisited | low_poly_nice_graphics/src/world/world.rs:215 | a chunk marked just added was generated earlier in the same pass |
| VoxelWorld.MissingOldEntityGone | low_poly_nice_graphics/src/world/world.rs:223-225 | at a coordinate with no chunk, the chunk it had before the pass (if any) has lost its entity |
| VoxelWorld.RefreshedStays | low_poly_nice_graphics/src/world/world.rs:220-225 | generating another chunk leaves a refreshed chunk refreshed |
| VoxelWorld.BoxesVisitedStep | low_poly_nice_graphics/src/world/world.rs:210-230 | after a box is done, the visited coordinates are exactly those of the boxes done so far |
| VoxelWorld.PassStart | low_poly_nice_graphics/src/world/world.rs:207-209 | a pass begins with nothing visited and nothing torn down |
| GreedyMesh.DescriptorTable | low_poly_nice_graphics/src/world/world.rs:238-245 | six well-formed descriptors: `u, v, w` is a permutation of the axes, the normal is the unit vector along `u` in the step direction, and entries `2a`/`2a+1` scan axis `a` forward and backward |
| GreedyMesh.Cursor | low_poly_nice_graphics/src/world/world.rs:258-265 | the cursor has `slice` on axis `u` and the mask position on axes `v`, `w` |
| GreedyMesh.CursorInGrid | low_poly_nice_graphics/src/world/world.rs:256-265 | a cursor of an in-range slice and mask cell is inside the voxel grid |
| GreedyMesh.BackCursor | low_poly_nice_graphics/src/world/world.rs:267-271 | `cursor - normal` moves one step back along `u` and keeps `v` and `w` |
| GreedyMesh.BackInGrid | low_poly_nice_graphics/src/world/world.rs:259-274 | except on the first slice in step direction (`no_voxel_back`), the back neighbour is inside the grid |
| GreedyMesh.MaskCellIsVisibleFace | low_poly_nice_graphics/src/world/world.rs:257-282 | a mask cell holds the voxel's colour id exactly when the face is visible: the voxel is filled and the back neighbour is absent, empty or of another id; otherwise None |
| GreedyMesh.Index | low_poly_nice_graphics/src/world/world.rs:50-58 | the row-major mask index `y*size_x + x` lies inside the mask buffer |
| GreedyMesh.IndexInjective | low_poly_nice_graphics/src/world/world.rs:50-58 | distinct mask cells have distinct indices |
| GreedyMesh.Mask.constructor | low_poly_nice_graphics/src/world/world.rs:42-48 | a `size_x × size_y` mask of empty cells |
| GreedyMesh.Mask.Get | low_poly_nice_graphics/src/world/world.rs:56-58 | reads cell `(x, y)` |
| GreedyMesh.Mask.Set | low_poly_nice_graphics/src/world/world.rs:50-54 | writes cell `(x, y)` only; requires both coordinates in range, as the asserts do |
| GreedyMesh.BuildMask | low_poly_nice_graphics/src/world/world.rs:261-283 | the mask of a slice is `size[v] × size[w]` and holds the mask cell of every position |
| GreedyMesh.FillMaskRow | low_poly_nice_graphics/src/world/world.rs:263-282 | fills one row `cursor_w` with its mask cells; other rows unchanged |
| GreedyMesh.ComputeMaskCell | low_poly_nice_graphics/src/world/world.rs:266-280 | computes the mask cell from the voxel and its back neighbour |
| GreedyMesh.QuadVertices | low_poly_nice_graphics/src/world/world.rs:307-340 | the four vertices are the base, the opposite corner, the corner along `v` and the corner along `w`, all with the outward normal and the quad's colour |
| GreedyMesh.QuadIndices | low_poly_nice_graphics/src/world/world.rs:341-345 | six indices, wound by step direction |
| GreedyMesh.QuadIndicesRange | low_poly_nice_graphics/src/world/world.rs:318-345 | the two triangles use exactly the quad's four vertices, `count..count+3` |
| GreedyMesh.MeshLengths | low_poly_nice_graphics/src/world/world.rs:319-345 | four vertices and six indices per quad |
| GreedyMesh.MeshIndicesInRange | low_poly_nice_graphics/src/world/world.rs:318-345 | every index of the mesh refers to a vertex of its vertex buffer |
| GreedyMesh.GrowWidth | low_poly_nice_graphics/src/world/world.rs:288-291 | the run along the row has the start cell's colour throughout and stops at the edge or at the first other cell |
| GreedyMesh.GrowHeight | low_poly_nice_graphics/src/world/world.rs:292-306 | the rectangle has that colour throughout and stops at the edge or at the first row that breaks it |
| GreedyMesh.ClearRect | low_poly_nice_graphics/src/world/world.rs:346-350 | empties exactly the rectangle's cells |
| GreedyMesh.MergeEmit | low_poly_nice_graphics/src/world/world.rs:287-350 | emitting a monochrome rectangle and clearing it keeps the merge invariant: rectangles single-coloured in the original mask and pairwise disjoint, and every earlier cell empty |
| GreedyMesh.MergeDone | low_poly_nice_graphics/src/world/world.rs:284-353 | at the end of the scan the rectangles partition the non-empty cells of the original mask, and the mask is empty |
| GreedyMesh.EmitQuad | low_poly_nice_graphics/src/world/world.rs:317-345 | appends the quad's four vertices and six indices, numbered from the current vertex count |
| GreedyMesh.MergeCell | low_poly_nice_graphics/src/world/world.rs:286-351 | one scan step: an empty cell is skipped; a non-empty one starts, grows, emits and clears a rectangle |
| GreedyMesh.MergeRectangle | low_poly_nice_graphics/src/world/world.rs:287-350 | the rectangle started at a non-empty cell is monochrome, and is emitted and cleared |
| GreedyMesh.MergeSlice | low_poly_nice_graphics/src/world/world.rs:284-353 | the emitted rectangles partition the slice's non-empty mask cells into monochrome, disjoint pieces; the mask ends empty; the buffers grow by exactly their quads |
| GreedyMesh.MeshSliceStep | low_poly_nice_graphics/src/world/world.rs:256-353 | meshing one more slice with a partition of its mask keeps the mesh invariant |
| GreedyMesh.MeshSlice | low_poly_nice_graphics/src/world/world.rs:256-353 | builds the slice's mask and merges it, keeping the mesh invariant |
| GreedyMesh.GreedyMeshOf | low_poly_nice_graphics/src/world/world.rs:234-365 | no mesh exactly when the grid was never touched; otherwise the buffers are those of the quads; each quad fits its slice and colour; quads of one slice never overlap; every visible face is covered, and only visible faces |
| GreedyMesh.MeshCoversVisibleFaces | low_poly_nice_graphics/src/world/world.rs:249-355 | once every direction is meshed, a face is covered by a quad exactly when it is visible |
| Navigation.Index | rts/src/client/navigation.rs:82-104 | the corrected cell layout `width*y + x` |
| Navigation.IndexInRange | rts/src/client/navigation.rs:82-104 | every in-grid cell's index lies in the `width*height` buffer |
| Navigation.IndexInjective | rts/src/client/navigation.rs:82-104 | distinct cells have distinct indices |
| Navigation.CellAt | rts/src/client/navigation.rs:49-56 | every buffer position is the index of some in-grid cell: with `IndexInjective`, the layout is a bijection |
| Navigation.AsWrittenIndexCollides | rts/src/client/navigation.rs:82-92 | as written (`height*y + x`), on a field wider than tall, cells `(height, 0)` and `(0, 1)` share an index |
| Navigation.AsWrittenIndexOverruns | rts/src/client/navigation.rs:82-92 | as written, on a field taller than wide, the last cell's index is past the buffer |
| Navigation.AsWrittenIndexOnSquare | rts/src/client/navigation.rs:82-104 | on square fields, such as every field the unit tests build, the written index equals the corrected one |
| Navigation.FlowField.Get | rts/src/client/navigation.rs:82-86 | the cost of the cell; on square fields, the entry at the program's own index `height*y + x` |
| Navigation.FlowField.GetFlowCell | rts/src/client/navigation.rs:100-104 | the direction of the cell; on square fields, the entry at the program's own index `height*y + x` |
| Navigation.AtWith | rts/src/client/navigation.rs:82-92 | after setting a cell, reading it gives the new value and reading any other cell the old one |
| Navigation.SumUpdate | rts/src/client/navigation.rs:221-247 | the termination measure: replacing one cost changes the total by the difference |
| Navigation.Neighbours | rts/src/client/navigation.rs:131-146 | for an in-grid cell, exactly the in-grid orthogonal neighbours, in the order right, left, up, down |
| Navigation.NeighboursCross | rts/src/client/navigation.rs:148-179 | exactly the in-grid diagonal neighbours whose two shared orthogonal neighbours are not blocked |
| Navigation.CrossStable | rts/src/client/navigation.rs:148-179 | the diagonal neighbourhood depends only on which cells are blocked |
| Navigation.NeighboursOfInteriorCell | rts/src/client/navigation.rs:326-334 | unit test: cell (3,3) of a 10×10 field has the four orthogonal neighbours |
| Navigation.NeighboursOfCornerCell | rts/src/client/navigation.rs:336-342 | unit test: the corner (0,0) has (1,0) and (0,1) |
| Navigation.NeighboursCrossOnFreshField | rts/src/client/navigation.rs:344-359 | unit tests: on a fresh 10×10 field (3,3) has four diagonals and (9,9) only (8,8) |
| Navigation.RelaxedOverDescends | rts/src/client/navigation.rs:228-245 | lowering costs keeps a neighbour set relaxed below a bound |
| Navigation.SettledExceptDescends | rts/src/client/navigation.rs:230-244 | lowering costs keeps the worklist invariant (reached cells are relaxed or queued), provided every lowered cell is queued |
| Navigation.SettledExceptRelease | rts/src/client/navigation.rs:226-245 | a popped cell, once relaxed, may leave the worklist |
| Navigation.PreparedStart | rts/src/client/navigation.rs:222-224 | on a field that only has blocked and unreached cells, the invariant holds with just the destination queued, and no other cell is reached yet |
| Navigation.SupportedStep | rts/src/client/navigation.rs:228-245 | one relaxation keeps every reached cell linked to a parent neighbour that is at least the step cost cheaper, once each lowered cell takes the popped cell as parent |
| Navigation.PopSupported | rts/src/client/navigation.rs:226-245 | a whole round (orthogonal, then diagonal relaxation) keeps every reached cell supported |
| Navigation.SettledSupportedExact | rts/src/client/navigation.rs:221-247 | on a settled, supported field every reached cell but the destination costs exactly a neighbour's cost plus the step cost |
| Navigation.ScanAppend | rts/src/client/navigation.rs:256-275 | scanning the orthogonal and then the diagonal candidates is one scan over their concatenation |
| Navigation.ScanStep | rts/src/client/navigation.rs:257-264 | one step of the scan replaces the best value and direction only when the candidate is strictly lower |
| Navigation.ScanPicksFirstLowest | rts/src/client/navigation.rs:253-275 | the scan yields the minimum of the start value and all candidate costs; when some candidate is strictly below the start, the direction points at the first candidate of minimum cost, otherwise it is unchanged |
| Navigation.Candidates | rts/src/client/navigation.rs:256-266 | every cell `calculate_flow` scans is an in-grid orthogonal or diagonal neighbour |
| Navigation.FlowOfSteepest | rts/src/client/navigation.rs:249-280 | a blocked cell, or a cell with no strictly cheaper candidate, gets the zero direction; any other cell points at its first cheapest candidate |
| Navigation.FlowOfIsStep | rts/src/client/navigation.rs:260-273 | every stored direction has both components in -1..1 |
| Navigation.OffsetIsStep | rts/src/client/navigation.rs:260-263 | the offset to an orthogonal or diagonal neighbour is a unit step |
| Navigation.FlowField.constructor | rts/src/client/navigation.rs:49-56 | buffers of length `width*height`; every cost `u32::MAX - 1`; every direction zero |
| Navigation.FlowField.Set | rts/src/client/navigation.rs:88-92 | sets exactly the given cell; requires it in range, as the asserts do |
| Navigation.FlowField.SetFlowCell | rts/src/client/navigation.rs:94-98 | sets exactly the given cell's direction |
| Navigation.FlowField.Reset | rts/src/client/navigation.rs:58-64 | blocked cells stay blocked and every other cell is unreached, so the field is prepared |
| Navigation.FlowField.SetBlockedCell | rts/src/client/navigation.rs:66-68 | the cell becomes `u32::MAX`; every other cell is unchanged |
| Navigation.FlowField.PositionToCell | rts/src/client/navigation.rs:181-187 | shifts by half the field through the `i32` cast; a non-negative sum is the cell coordinate, and a negative one becomes a huge `usize` |
| Navigation.FlowField.Map | rts/src/client/navigation.rs:202-207 | the same shift on `isize`, with the same non-negative meaning |
| Navigation.FlowField.MapMatchesPositionToCell | rts/src/client/navigation.rs:181-207 | on fields below 2^31 cells, `map` and `position_to_cell` agree |
| Navigation.FlowField.PositionToCellInGrid | rts/src/client/navigation.rs:181-187 | the cell is on the field exactly when the position is within half a field of the centre |
| Navigation.FlowField.BlockPositionWithSize | rts/src/client/navigation.rs:70-80 | blocks exactly the `size × size` square centred on the position's cell; every other cell is unchanged; requires an even size, as the assert does, and a square that lies on the field |
| Navigation.FlowField.SetDestinationCell | rts/src/client/navigation.rs:221-247 | the destination costs 0; no cost increases; blocked cells other than the destination stay blocked; the loop terminates; on a prepared field the result is the relaxation fixpoint in both directions: every reached cell is relaxed (no orthogonal neighbour costs more than it + 100, no unblocked-corner diagonal neighbour more than it + 141), and every reached cell other than the destination costs exactly an orthogonal neighbour's cost + 100 or an unblocked-corner diagonal neighbour's cost + 141 |
| Navigation.FlowField.PopStep | rts/src/client/navigation.rs:226-245 | after one round of both relaxations, the popped cell is relaxed and every lowered cell is queued |
| Navigation.FlowField.Relax | rts/src/client/navigation.rs:228-245 | every candidate that is not blocked and costs more than `value + cost` becomes exactly `value + cost` and is queued unless already queued; every other cell keeps its cost; the queue gains only candidates; the termination measure does not grow |
| Navigation.FlowField.RelaxCell | rts/src/client/navigation.rs:229-235 | one candidate: its cost becomes `value + cost` exactly when it is not blocked and costs more, otherwise it is unchanged; it is appended to the queue exactly when lowered and not yet queued; no other cell changes |
| Navigation.FlowField.CellFlow | rts/src/client/navigation.rs:252-276 | the direction computed for one cell is `FlowOf` of the current costs |
| Navigation.FlowField.CalculateFlow | rts/src/client/navigation.rs:249-280 | every cell's stored direction is its steepest descent (`FlowOf`); costs are untouched |
| Navigation.AsI32 | rts/src/client/navigation.rs:183-184 | `usize as i32` keeps the low 32 bits: the result is congruent modulo 2^32 and exact below 2^31 |
| Navigation.HalfIsize | rts/src/client/navigation.rs:204-205 | `usize as isize / 2` is exact below 2^63 |
| Navigation.SmallCasts | rts/src/client/navigation.rs:183-205 | below 2^31 both casts are the plain half |
| Resources.NextId | rts/src/client/resources.rs:33-41 | the first id is 0, and each later id is one more than the last |
| Resources.FreshIdsCount | rts/src/client/resources.rs:33-41 | a fresh generator numbers its first `n` calls `0..n-1`, so no id repeats |
| Resources.IdsCountFrom | rts/src/client/resources.rs:33-41 | from last id `l`, the next `n` calls return `l+1..l+n` |
| Resources.UnitIdGenerator.constructor | rts/src/client/resources.rs:15-18 | `Default`: no id issued |
| Resources.UnitIdGenerator.Generate | rts/src/client/resources.rs:33-41 | returns `NextId` of the last id and records it as the last id |
| Resources.BuildingIdGenerator.constructor | rts/src/client/resources.rs:44-47 | `Default`: no id issued |
| Resources.BuildingIdGenerator.Generate | rts/src/client/resources.rs:50-58 | the same numbering, with its own counter |
| Resources.FlowFields.constructor | rts/src/client/resources.rs:25-29 | holds a fresh `width × height` flow field, every cell unreached |
| CommandQueue.CommandFQueue.constructor | src/commandqueue.rs:38-42 | no commands |
| CommandQueue.CommandFQueue.Add | src/commandqueue.rs:44-46 | appends one command tagged with the frame; earlier entries unchanged |
| CommandQueue.CommandFQueue.ClearCommands | src/commandqueue.rs:48-50 | no commands remain |
| CommandQueue.Filtered | src/commandqueue.rs:52-54 | `retrieve_commands`: a command is in the result exactly when it is in the list with that frame; the result is no longer than the list |
| CommandQueue.CommandFQueue.RetrieveCommands | src/commandqueue.rs:52-54 | a command is retrieved exactly when it is in the list with that frame; no more commands than the list holds |
| CommandQueue.FilteredAppend | src/commandqueue.rs:52-54 | filtering keeps order: filtering a concatenation concatenates the filtered parts |
| CommandQueue.FilteredOwnFrame | src/commandqueue.rs:52-54 | a list whose commands all belong to the frame is kept whole |
| CommandQueue.FilteredOtherFrame | src/commandqueue.rs:52-54 | a list with no command of the frame contributes nothing |
| CommandQueue.Rotations | src/commandqueue.rs:63-72 | at most one command per event, all camera rotations tagged with the frame; one per event when all are mouse motions; none when no event is |
| CommandQueue.RotationsCons | src/commandqueue.rs:63-72 | the first event contributes its rotation, if it is a mouse motion, ahead of the rest |
| CommandQueue.DrainStep | src/commandqueue.rs:63-72 | handling one more event extends the added commands by that event's rotation |
| CommandQueue.WindowInput.Event | src/commandqueue.rs:63 | the input queue pops its oldest event, or reports none, and leaves the held keys alone |
| CommandQueue.CommandFQueue.HandleEvent | src/commandqueue.rs:64-71 | a mouse motion adds the rotation `(-y_rel/100, -x_rel/100)`; any other event adds nothing |
| CommandQueue.Rotation | src/commandqueue.rs:66-68 | a camera rotation of `-y_rel/100` about the local x axis and `-x_rel/100` about the global y axis |
| CommandQueue.CommandFQueue.HandleInput | src/commandqueue.rs:56-73 | appends one camera move carrying the W/S/A/D key states, then one rotation per mouse motion in event order; the event queue is drained; the held keys are unchanged |
| CommandQueue.RetrieveAfterHandleInput | src/commandqueue.rs:52-73 | after `handle_input` for a frame, retrieving that frame gives its earlier commands, then the move, then the rotations |
| CommandQueue.RetrieveOtherAfterHandleInput | src/commandqueue.rs:52-73 | `handle_input` for one frame changes nothing that another frame retrieves |
| Input.InputQueue.constructor | game/src/input.rs:21-26 | no events and every key up, one entry per key code |
| Input.Record | game/src/input.rs:32-47 | the key table after one keyboard input: that key's entry records whether it is pressed; the table keeps its length |
| Input.Announced | game/src/input.rs:32-47 | an input with a key code queues one `KeyEvent` with that key and state; one without queues nothing |
| Input.InputQueue.PushKeyboardInput | game/src/input.rs:32-47 | the table becomes `Record` of the old one, and the queue gets `Announced` appended at the back |
| Input.StateAfter | game/src/input.rs:32-47 | a series of inputs applied in order keeps the table's length |
| Input.KeyStateIsLastPress | game/src/input.rs:28-47 | after a series of inputs, `is_key_down(k)` reports the last input naming `k`, or `k`'s earlier state when none does |
| Input.StateAfterAppend | game/src/input.rs:32-47 | applying one more input to a series is recording it on the table the series left |
| Input.InputQueue.IsKeyDown | game/src/input.rs:28-30 | a key is down exactly when the last keyboard input naming it was a press; up when none named it |
| Input.TruncI32 | game/src/input.rs:49-54 | `f64 as i32`: rounds toward zero and saturates at the `i32` bounds |
| Input.InputQueue.PushMouseMovement | game/src/input.rs:49-54 | appends one `MouseMotion` with the truncated deltas at the back; the key table is untouched |
| Input.InputQueue.Event | game/src/input.rs:56-58 | pops the oldest event, or reports none when the queue is empty |
| Windowing.PixelIndex | src/windowing.rs:51-64 | the index `x + (height-1-y)*width` of an in-range pixel lies in the buffer and decomposes to column `x` of flipped row `height-1-y` |
| Windowing.PixelIndexOnto | src/windowing.rs:51-64 | every buffer index is the index of some pixel |
| Windowing.Canvas.constructor | src/windowing.rs:40-47 | both buffers have length `width*height`; every colour is the given one and every depth `f32::MIN` |
| Windowing.Canvas.Clear | src/windowing.rs:48-50 | every colour becomes the given one; depths unchanged |
| Windowing.Canvas.SetWithDepth | src/windowing.rs:51-59 | writes colour and depth at exactly the pixel's index when the pixel is in range and its stored depth is strictly lower, and changes nothing otherwise; no depth ever decreases; an in-range pixel ends at least as deep as the drawn depth |
| Windowing.Canvas.Set | src/windowing.rs:60-64 | writes exactly the pixel's index when in range, and is a no-op otherwise; depths unchanged |
| Windowing.Canvas.ClearZbuffer | src/windowing.rs:65-67 | a new depth buffer of length `width*height`, every depth `f32::MIN`; colours unchanged |
| Configuration.DefaultIsValid | game/src/configuration/mod.rs:40-51 | the default has no models, entities or cameras, and so is valid |
| Configuration.Default | game/src/configuration/mod.rs:40-46 | the default's model names are unique |
| Configuration.IsValid | game/src/configuration/mod.rs:47-51 | true exactly when no two models share a name; it reads nothing but the models |
| Configuration.LoadConfig | game/src/configuration/mod.rs:52-69 | a parsed, valid configuration is returned as is; an invalid one, a parse failure and an open failure all give the default; the result is always valid |
| Helpers.CalculateLowHigh | rts/src/helpers/mod.rs:3-13 | low is `(min(x0,x1), min(y0,y1))`, high is `(max(x0,x1), max(y0,y1))`, so low <= high componentwise |
| Helpers.LowHighSymmetric | rts/src/helpers/mod.rs:3-13 | swapping the two points does not change the box |
| Helpers.CalculateMidpointScale | rts/src/helpers/mod.rs:15-21 | the midpoint is the average of the two points, and the scale their distance per axis, never negative |
| Helpers.Gap | rts/src/helpers/mod.rs:23-31 | distance from an interval: 0 exactly inside it |
| Helpers.IsSelected | rts/src/helpers/mod.rs:23-31 | a point is selected exactly when it is less than the 0.5 margin away from the box on both axes |
| Helpers.ClosedBoxSelected | rts/src/helpers/mod.rs:24-30 | every point of the closed box is selected |
| Helpers.DragSelectsBetween | rts/src/helpers/mod.rs:3-31 | every point between the two drag corners is selected by the box they span |

## Left out

- Floating point:
  - Depths, rotation values, helper coordinates and configuration vectors are `real`. f32 rounding, NaN and infinities are not modelled: a NaN depth, for example, never passes the depth test in the source.
  - The trigonometric terrain test of `generate_chunk` is the abstract predicate `Terrain`.
  - The `/10.0` scale of `greedy_mesh` is not modelled: quads are in voxel units (the `q` corner offsets are added), and the float normal is kept as the integer normal.
  - The float `Transform` of chunk entities is left out; the entity origin is in voxel units.
  - Palette colours (`get_color`) are left out; vertices carry the colour id.
- Navigation.FlowField.SetDestinationCell: does not model the `u32` wrap of `value + 100` and `value + 141`. The model adds exactly, which matches the source whenever costs stay below `u32::MAX - 141`.
- Navigation.FlowField.CalculateFlow: the `usize as i32` casts of cell coordinates are exact. This holds for grids narrower than 2^31 cells.
- Navigation.FlowField.BlockPositionWithSize: requires `x, y >= size/2` and the square on the field. Below that, the `usize` subtraction at lines 75-76 panics in debug builds and wraps in release builds, giving an empty range that blocks nothing; a square past the field's edge trips `set`'s asserts at lines 89-90.
- Navigation.NeighboursCross: requires an in-grid cell (the source applies it only to such cells).
- Navigation: not modelled, since these are f32 floor/normalise arithmetic or stdout printing:
  - `set_destination` and `set_destination_i`;
  - `get_flow_bilininterpol` and `get_flow_cell_f32`;
  - `mapped_position` and `position_to_cell_floor`;
  - `print`, `print_flow` and `get_string_vector`.
- ChunkCoords.ChunkNumberAndOffset: world coordinates are `i32`, and `-start` at line 85 overflows at `i32::MIN` (a panic in debug builds, a wrap in release builds); the model negates exactly, and world positions (`Pos`) are unbounded integers.
- VoxelWorld.World.Add, VoxelWorld.World.GenerateChunk: the `unwrap` panics on a handle missing from the registry (lines 91 and 160) are excluded by the requires (`handle in assets`, and `Records`, which makes every placed asset's handle registered).
- CommandQueue.Rotation: the negation `-y_rel` overflows for `i32::MIN`; the model negates exactly.
- CommandQueue.WindowInput: the renderer's window input queue (`window::InputQueue`, declared from src/main.rs) is not among the modelled files. It is modelled as a FIFO of events with a set of held keys, and only W/S/A/D and mouse motion are distinguished.
- Input.InputQueue.constructor: the number of winit key codes (`Cut as usize + 1`) is a parameter, since winit is not part of this model.
- Resources.NextId: the `u32` overflow after `u32::MAX` ids (a panic in debug builds) is excluded by a precondition.
- Voxels, Registries: `Vox`, `Registry` and `Chunks` are not part of this model's source. They are modelled abstractly as a voxel grid value with a `touched` flag, a handle-keyed map with a next-handle counter, and a map from chunk coordinate to chunk.
- VoxelWorld.World.GenerateAround:
  - `set_position` and `range_diff` are not modelled; the added ranges are an input.
  - The pass requires the registries' handle invariant `TablesValid`.
- Configuration.LoadConfig: opening the file and RON parsing are an input `LoadOutcome`.
- `Window` (FFI calls and `Drop`) is left out.

## Findings

| source | as written | input that shows it | evidently intended | confidence | as-written member | corrected member |
|---|---|---|---|---|---|---|
| low_poly_nice_graphics/src/world/world.rs:84-85 | offset `size - (-start % (size + 1))` for negative starts | `chunk_number_and_offset(-5, 4)` gives `(-2, 4)`; the unit test at line 373 expects `(-2, 3)`. At `start = -(size+1)*m` the offset equals `size`: `add` writes an empty record for that chunk (replacing its earlier one), and the asset starts one chunk later at offset 0, one cell off. `add(-33)` with chunks of 32 puts a one-voxel asset in chunk -1 at offset 0 instead of chunk -2 at offset 31 | floor division with the remainder in `0..size` | not executed | ChunkCoords.AsWrittenFailsAtMinusFive, ChunkCoords.AsWrittenOffsetReachesSize, Placement.AsWrittenOneBelowMinusSize, VoxelWorld.AsWrittenEmptyRecordReplaces | ChunkCoords.FloorChunkAndOffset, Placement.IntendedAxisTiling |
| rts/src/client/navigation.rs:82-104 | cell index `height * y + x` | width 3, height 2: cells (2,0) and (0,1) share index 2. Width 1, height 2: cell (0,1) has index 2, past the 2-entry buffer | row-major `width * y + x` | not executed | Navigation.AsWrittenIndexCollides, Navigation.AsWrittenIndexOverruns | Navigation.Index, Navigation.IndexInjective, Navigation.IndexInRange |
