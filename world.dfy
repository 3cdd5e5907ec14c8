/**
 * The voxel world (`World`): placed assets, the overlay table that says which part of
 * which asset each chunk shows, and the loaded chunks with their meshes and entities.
 * `Add` fills the overlay table, `GenerateChunk` composes and meshes one chunk, and
 * `GenerateAround` (re)generates the chunks that came into range.
 */
module VoxelWorld {

  import opened Common
  import opened ChunkCoords
  import opened Voxels
  import opened Placement
  import opened GreedyMesh
  import opened Registries

  /** A placed asset (`(Handle<Vox>, [usize; 3], [i32; 3])`): the model's handle, its size and its world position. */
  datatype Placed = Placed(handle: nat, dims: Dims, position: Pos)

  /** A renderable entity: its mesh and the world origin of its chunk, in voxel units. */
  datatype Entity = Entity(meshHandle: nat, origin: Pos)

  /** A loaded chunk: the entity that draws it, and whether it was generated during the current pass. */
  datatype Chunk = Chunk(entity: nat, justAdded: bool)

  /** The size of a voxel model along the three axes. */
  function DimsOf(v: Vox): Dims
  {
    Dims(v.sizeX, v.sizeY, v.sizeZ)
  }

  /** Chunk `k` precedes chunk `c` in the order `add` visits chunks: by z, then y, then x. */
  predicate Before(k: Key, c: Key)
  {
    k.2 < c.2 || (k.2 == c.2 && (k.1 < c.1 || (k.1 == c.1 && k.0 < c.0)))
  }

  /**
   * Overlay table `m` is `m0` with the records of one placement written for every chunk that
   * precedes `c`: those chunks hold the placement's record, every other chunk keeps its entry.
   */
  ghost predicate PlacedUpTo(m0: map<Key, Overlay>, m: map<Key, Overlay>, asset: nat, position: Pos, dims: Dims,
                             chunkSize: nat, c: Key)
    requires chunkSize > 0
  {
    && (forall k :: k in m <==> k in m0 || (InPlacement(position, dims, chunkSize, k) && Before(k, c)))
    && (forall k | k in m :: m[k] ==
          if InPlacement(position, dims, chunkSize, k) && Before(k, c) then PlacedRecord(asset, position, dims, chunkSize, k)
          else m0[k])
  }

  /** Overlay table `m` is `m0` with the records of a whole placement written over it. */
  ghost predicate PlacementAdded(m0: map<Key, Overlay>, m: map<Key, Overlay>, asset: nat, position: Pos, dims: Dims,
                                 chunkSize: nat)
    requires chunkSize > 0
  {
    && (forall k :: k in m <==> k in m0 || InPlacement(position, dims, chunkSize, k))
    && (forall k | k in m :: m[k] ==
          if InPlacement(position, dims, chunkSize, k) then PlacedRecord(asset, position, dims, chunkSize, k) else m0[k])
  }

  /** Run `s` is the run of chunk `s.chunk` along an axis placed at `start` with length `size`. */
  ghost predicate RunOf(start: int, size: nat, chunkSize: nat, s: Segment)
    requires chunkSize > 0
  {
    AxisHas(start, size, chunkSize, s.chunk) && AxisRun(start, size, chunkSize, s.chunk) == s
  }

  /** The terrain test of `generate_chunk`, abstracted: does chunk `key` have terrain at local cell `(x, y, z)`? */
  type Terrain = (Key, nat, nat, nat) -> bool

  /** The colour id the terrain pass writes. */
  const TERRAIN_COLOR: ColorId := 255

  /** What the terrain pass leaves in a chunk cell. */
  function TerrainCell(terrain: Terrain, key: Key, x: nat, y: nat, z: nat): Option<ColorId>
  {
    if terrain(key, x, y, z) then Some(TERRAIN_COLOR) else None
  }

  /** The sub-box a record copies lies inside the asset. */
  predicate SourceFits(r: Overlay, asset: Vox)
  {
    r.source.x + r.extent.x <= asset.sizeX && r.source.y + r.extent.y <= asset.sizeY && r.source.z + r.extent.z <= asset.sizeZ
  }

  /** Chunk cell `(x, y, z)` lies in the target box of record `r`. */
  predicate Covers(r: Overlay, x: int, y: int, z: int)
  {
    && r.target.x <= x < r.target.x + r.extent.x
    && r.target.y <= y < r.target.y + r.extent.y
    && r.target.z <= z < r.target.z + r.extent.z
  }

  /**
   * Chunk cell `(x, y, z)` after record `r` of `asset` is copied over `below`: a covered cell
   * takes the asset's voxel at the matching source cell when that voxel is non-empty, and keeps
   * `below` otherwise.
   */
  function OverlayCell(r: Overlay, asset: Vox, below: Option<ColorId>, x: nat, y: nat, z: nat): Option<ColorId>
    requires asset.Valid() && SourceFits(r, asset)
  {
    if Covers(r, x, y, z) && asset.Get(x - r.target.x + r.source.x, y - r.target.y + r.source.y, z - r.target.z + r.source.z).Some?
    then asset.Get(x - r.target.x + r.source.x, y - r.target.y + r.source.y, z - r.target.z + r.source.z)
    else below
  }

  /** The overlay of a chunk, if it has one, is a record together with the asset it copies from. */
  ghost predicate OverlayFits(overlay: Option<(Overlay, Vox)>)
  {
    overlay.Some? ==> overlay.value.1.Valid() && SourceFits(overlay.value.0, overlay.value.1)
  }

  /** A cell of the composed chunk: the terrain, with the chunk's overlay (if any) copied over it. */
  function ComposedCell(terrain: Terrain, key: Key, overlay: Option<(Overlay, Vox)>, x: nat, y: nat, z: nat): Option<ColorId>
    requires OverlayFits(overlay)
  {
    var t := TerrainCell(terrain, key, x, y, z);
    if overlay.None? then t else OverlayCell(overlay.value.0, overlay.value.1, t, x, y, z)
  }

  /** The world origin of chunk `key`, in voxel units. */
  function Origin(key: Key, chunkSize: nat): Pos
  {
    Pos(key.0 * chunkSize, key.1 * chunkSize, key.2 * chunkSize)
  }

  /**
   * Asset voxel `(a, b, c)` shows, with its own colour id, in the chunk of table `m` that world
   * position `w + (a, b, c)` maps to, at that position's offset, and that chunk's record is
   * one of asset `idx`.
   */
  ghost predicate ShowsAt(m: map<Key, Overlay>, idx: nat, asset: Vox, chunkSize: nat, terrain: Terrain, w: Pos, a: nat, b: nat, c: nat)
    requires chunkSize > 0 && asset.Valid() && asset.InBounds(a, b, c)
  {
    var px := FloorChunkAndOffset(w.x + a, chunkSize);
    var py := FloorChunkAndOffset(w.y + b, chunkSize);
    var pz := FloorChunkAndOffset(w.z + c, chunkSize);
    var k := (px.0, py.0, pz.0);
    && k in m && m[k].asset == idx && OverlayFits(Some((m[k], asset)))
    && ComposedCell(terrain, k, Some((m[k], asset)), px.1, py.1, pz.1) == asset.Get(a, b, c)
  }

  /**
   * The point of `add` and `generate_chunk` together: after an asset is placed, each of its
   * non-empty voxels shows, with its own colour id, in the chunk and at the offset that its world
   * position, shifted by the drift of the as-written mapper (`Shifted`), maps to, whatever the
   * terrain there.
   */
  lemma PlacedVoxelShows(m0: map<Key, Overlay>, m: map<Key, Overlay>, idx: nat, position: Pos, asset: Vox,
                         chunkSize: nat, terrain: Terrain, a: nat, b: nat, c: nat)
    requires chunkSize > 0 && asset.Valid() && PlacementAdded(m0, m, idx, position, DimsOf(asset), chunkSize)
    requires asset.InBounds(a, b, c) && asset.Get(a, b, c).Some?
    ensures ShowsAt(m, idx, asset, chunkSize, terrain, Shifted(position, chunkSize), a, b, c)
  {
    var dims := DimsOf(asset);
    var k := PlacementTilesAsset(idx, position, dims, chunkSize, a, b, c);
    PlacedRecordShape(idx, position, dims, chunkSize, k);
    var r := PlacedRecord(idx, position, dims, chunkSize, k);
    assert k in m && m[k] == r;
    var t := (r.target.x + (a - r.source.x), r.target.y + (b - r.source.y), r.target.z + (c - r.source.z));
    assert Covers(r, t.0, t.1, t.2);
    assert (t.0 - r.target.x + r.source.x, t.1 - r.target.y + r.source.y, t.2 - r.target.z + r.source.z) == (a, b, c);
  }

  /**
   * For an asset placed at or above `-chunkSize` on every axis nothing drifts: each non-empty
   * voxel shows in the chunk and at the offset of its own world position.
   */
  lemma PlacedVoxelShowsInPlace(m0: map<Key, Overlay>, m: map<Key, Overlay>, idx: nat, position: Pos, asset: Vox,
                                chunkSize: nat, terrain: Terrain, a: nat, b: nat, c: nat)
    requires chunkSize > 0 && asset.Valid() && PlacementAdded(m0, m, idx, position, DimsOf(asset), chunkSize)
    requires position.x + chunkSize >= 0 && position.y + chunkSize >= 0 && position.z + chunkSize >= 0
    requires asset.InBounds(a, b, c) && asset.Get(a, b, c).Some?
    ensures ShowsAt(m, idx, asset, chunkSize, terrain, position, a, b, c)
  {
    PlacedAboveMinusSize(position, chunkSize);
    PlacedVoxelShows(m0, m, idx, position, asset, chunkSize, terrain, a, b, c);
  }

  /** Fills row `(y, z)` of `v` with the terrain: cells where the terrain test holds get colour id 255. */
  method TerrainRow(v: Vox, terrain: Terrain, key: Key, y: nat, z: nat) returns (v': Vox)
    requires v.Valid() && v.TouchedExact() && y < v.sizeY && z < v.sizeZ
    ensures v'.Valid() && DimsOf(v') == DimsOf(v) && v'.TouchedExact()
    ensures forall x': nat, y': nat, z': nat | v.InBounds(x', y', z') ::
      v'.Get(x', y', z') == if y' == y && z' == z && terrain(key, x', y', z') then Some(TERRAIN_COLOR) else v.Get(x', y', z')
  {
    v' := v;
    for x := 0 to v.sizeX
      invariant v'.Valid() && DimsOf(v') == DimsOf(v) && v'.TouchedExact()
      invariant forall x': nat, y': nat, z': nat | v.InBounds(x', y', z') ::
        v'.Get(x', y', z') == if y' == y && z' == z && x' < x && terrain(key, x', y', z') then Some(TERRAIN_COLOR) else v.Get(x', y', z')
    {
      if terrain(key, x, y, z) {
        v' := v'.Set(x, y, z, TERRAIN_COLOR);
      }
    }
  }

  /** Fills layer `z` of `v` with the terrain. */
  method TerrainLayer(v: Vox, terrain: Terrain, key: Key, z: nat) returns (v': Vox)
    requires v.Valid() && v.TouchedExact() && z < v.sizeZ
    ensures v'.Valid() && DimsOf(v') == DimsOf(v) && v'.TouchedExact()
    ensures forall x': nat, y': nat, z': nat | v.InBounds(x', y', z') ::
      v'.Get(x', y', z') == if z' == z && terrain(key, x', y', z') then Some(TERRAIN_COLOR) else v.Get(x', y', z')
  {
    v' := v;
    for y := 0 to v.sizeY
      invariant v'.Valid() && DimsOf(v') == DimsOf(v) && v'.TouchedExact()
      invariant forall x': nat, y': nat, z': nat | v.InBounds(x', y', z') ::
        v'.Get(x', y', z') == if z' == z && y' < y && terrain(key, x', y', z') then Some(TERRAIN_COLOR) else v.Get(x', y', z')
    {
      v' := TerrainRow(v', terrain, key, y, z);
    }
  }

  /** The terrain pass of `generate_chunk` on a fresh, empty `size`-cubed grid. */
  method TerrainPass(terrain: Terrain, key: Key, size: nat) returns (v: Vox)
    ensures v.Valid() && DimsOf(v) == Dims(size, size, size) && v.TouchedExact()
    ensures forall x: nat, y: nat, z: nat | v.InBounds(x, y, z) :: v.Get(x, y, z) == TerrainCell(terrain, key, x, y, z)
  {
    v := NewVox(size, size, size);
    for z := 0 to size
      invariant v.Valid() && DimsOf(v) == Dims(size, size, size) && v.TouchedExact()
      invariant forall x': nat, y': nat, z': nat | v.InBounds(x', y', z') ::
        v.Get(x', y', z') == if z' < z then TerrainCell(terrain, key, x', y', z') else None
    {
      v := TerrainLayer(v, terrain, key, z);
    }
  }

  /** The record's target box lies inside grid `v`, and its source box inside `asset`. */
  ghost predicate CopyFits(v: Vox, r: Overlay, asset: Vox)
  {
    && asset.Valid() && SourceFits(r, asset)
    && r.target.x + r.extent.x <= v.sizeX && r.target.y + r.extent.y <= v.sizeY && r.target.z + r.extent.z <= v.sizeZ
  }

  /** At the target cell of source offset `(i, j, l)`, the overlay takes the source voxel when there is one. */
  lemma OverlayCellAt(r: Overlay, asset: Vox, below: Option<ColorId>, i: nat, j: nat, l: nat)
    requires asset.Valid() && SourceFits(r, asset) && i < r.extent.x && j < r.extent.y && l < r.extent.z
    ensures var c := asset.Get(r.source.x + i, r.source.y + j, r.source.z + l);
      OverlayCell(r, asset, below, r.target.x + i, r.target.y + j, r.target.z + l) == if c.Some? then c else below
  {
  }

  /** Row `(j, l)` of `v` holds the overlay of `v0` for target columns below `r.target.x + n`, and `v0` elsewhere. */
  ghost predicate RowUpTo(v0: Vox, v: Vox, r: Overlay, asset: Vox, j: nat, l: nat, n: nat)
    requires v0.Valid() && v.Valid() && DimsOf(v) == DimsOf(v0) && CopyFits(v0, r, asset)
  {
    forall x': nat, y': nat, z': nat | v0.InBounds(x', y', z') ::
      v.Get(x', y', z') ==
        if y' == r.target.y + j && z' == r.target.z + l && x' < r.target.x + n then OverlayCell(r, asset, v0.Get(x', y', z'), x', y', z')
        else v0.Get(x', y', z')
  }

  /** Copying source cell `(i, j, l)` (when it is non-empty) extends `RowUpTo` by one column. */
  lemma RowUpToStep(v0: Vox, v: Vox, v': Vox, r: Overlay, asset: Vox, i: nat, j: nat, l: nat)
    requires v0.Valid() && v.Valid() && DimsOf(v) == DimsOf(v0) && CopyFits(v0, r, asset)
    requires i < r.extent.x && j < r.extent.y && l < r.extent.z && RowUpTo(v0, v, r, asset, j, l, i)
    requires var c := asset.Get(r.source.x + i, r.source.y + j, r.source.z + l);
      v' == if c.Some? then v.Set(r.target.x + i, r.target.y + j, r.target.z + l, c.value) else v
    ensures v'.Valid() && DimsOf(v') == DimsOf(v0) && RowUpTo(v0, v', r, asset, j, l, i + 1)
  {
    var t := (r.target.x + i, r.target.y + j, r.target.z + l);
    OverlayCellAt(r, asset, v0.Get(t.0, t.1, t.2), i, j, l);
    forall x': nat, y': nat, z': nat | v0.InBounds(x', y', z')
      ensures v'.Get(x', y', z') ==
        if y' == r.target.y + j && z' == r.target.z + l && x' < r.target.x + i + 1 then OverlayCell(r, asset, v0.Get(x', y', z'), x', y', z')
        else v0.Get(x', y', z')
    {
      if (x', y', z') != t {
        assert v'.Get(x', y', z') == v.Get(x', y', z');
      }
    }
  }

  /** Copies row `(j, l)` of record `r`: the non-empty source voxels of that row are written to the target. */
  method OverlayRow(v: Vox, r: Overlay, asset: Vox, j: nat, l: nat) returns (v': Vox)
    requires v.Valid() && v.TouchedExact() && CopyFits(v, r, asset) && j < r.extent.y && l < r.extent.z
    ensures v'.Valid() && DimsOf(v') == DimsOf(v) && v'.TouchedExact()
    ensures forall x': nat, y': nat, z': nat | v.InBounds(x', y', z') ::
      v'.Get(x', y', z') ==
        if y' == r.target.y + j && z' == r.target.z + l then OverlayCell(r, asset, v.Get(x', y', z'), x', y', z')
        else v.Get(x', y', z')
  {
    v' := v;
    for i := 0 to r.extent.x
      invariant v'.Valid() && DimsOf(v') == DimsOf(v) && v'.TouchedExact()
      invariant RowUpTo(v, v', r, asset, j, l, i)
    {
      var colorId := asset.Get(r.source.x + i, r.source.y + j, r.source.z + l);
      ghost var before := v';
      if colorId.Some? {
        v' := v'.Set(r.target.x + i, r.target.y + j, r.target.z + l, colorId.value);
      }
      RowUpToStep(v, before, v', r, asset, i, j, l);
    }
  }

  /** Copies layer `l` of record `r`. */
  method OverlayLayer(v: Vox, r: Overlay, asset: Vox, l: nat) returns (v': Vox)
    requires v.Valid() && v.TouchedExact() && CopyFits(v, r, asset) && l < r.extent.z
    ensures v'.Valid() && DimsOf(v') == DimsOf(v) && v'.TouchedExact()
    ensures forall x': nat, y': nat, z': nat | v.InBounds(x', y', z') ::
      v'.Get(x', y', z') ==
        if z' == r.target.z + l then OverlayCell(r, asset, v.Get(x', y', z'), x', y', z') else v.Get(x', y', z')
  {
    v' := v;
    for j := 0 to r.extent.y
      invariant v'.Valid() && DimsOf(v') == DimsOf(v) && v'.TouchedExact()
      invariant forall x': nat, y': nat, z': nat | v.InBounds(x', y', z') ::
        v'.Get(x', y', z') ==
          if z' == r.target.z + l && y' < r.target.y + j then OverlayCell(r, asset, v.Get(x', y', z'), x', y', z')
          else v.Get(x', y', z')
    {
      v' := OverlayRow(v', r, asset, j, l);
    }
  }

  /** The overlay pass of `generate_chunk`: record `r` of `asset` copied over `v`. */
  method OverlayPass(v: Vox, r: Overlay, asset: Vox) returns (v': Vox)
    requires v.Valid() && v.TouchedExact() && CopyFits(v, r, asset)
    ensures v'.Valid() && DimsOf(v') == DimsOf(v) && v'.TouchedExact()
    ensures forall x: nat, y: nat, z: nat | v.InBounds(x, y, z) :: v'.Get(x, y, z) == OverlayCell(r, asset, v.Get(x, y, z), x, y, z)
  {
    v' := v;
    for l := 0 to r.extent.z
      invariant v'.Valid() && DimsOf(v') == DimsOf(v) && v'.TouchedExact()
      invariant forall x': nat, y': nat, z': nat | v.InBounds(x', y', z') ::
        v'.Get(x', y', z') ==
          if z' < r.target.z + l then OverlayCell(r, asset, v.Get(x', y', z'), x', y', z') else v.Get(x', y', z')
    {
      v' := OverlayLayer(v', r, asset, l);
    }
  }

  /**
   * As written, an asset whose x coordinate is a multiple of `-(chunkSize + 1)` gets an empty
   * record in the first chunk of its x walk: that record replaces whatever the chunk had before,
   * and the chunk then shows nothing but terrain.
   */
  lemma AsWrittenEmptyRecordReplaces(m0: map<Key, Overlay>, m: map<Key, Overlay>, idx: nat, position: Pos, asset: Vox,
                                     chunkSize: nat, terrain: Terrain, n: nat, x: nat, y: nat, z: nat)
    requires chunkSize > 0 && n >= 1 && asset.Valid() && PlacementAdded(m0, m, idx, position, DimsOf(asset), chunkSize)
    requires position.x == -(chunkSize + 1) * n && asset.sizeX >= 1 && asset.sizeY >= 1 && asset.sizeZ >= 1
    ensures var k := (FirstChunk(position.x, chunkSize), FirstChunk(position.y, chunkSize), FirstChunk(position.z, chunkSize));
      && k in m && m[k].asset == idx && m[k].extent.x == 0 && OverlayFits(Some((m[k], asset)))
      && ComposedCell(terrain, k, Some((m[k], asset)), x, y, z) == TerrainCell(terrain, k, x, y, z)
  {
    var dims := DimsOf(asset);
    var k := (FirstChunk(position.x, chunkSize), FirstChunk(position.y, chunkSize), FirstChunk(position.z, chunkSize));
    AsWrittenFirstRunEmpty(n, dims.x, chunkSize);
    AxisShape(position.y, dims.y, chunkSize);
    AxisShape(position.z, dims.z, chunkSize);
    assert InPlacement(position, dims, chunkSize, k);
    PlacedRecordShape(idx, position, dims, chunkSize, k);
    assert m[k] == PlacedRecord(idx, position, dims, chunkSize, k);
    assert !Covers(m[k], x, y, z);
  }

  /** Two cut-off points that select the same chunks of a placement select the same table. */
  lemma PlacedUpToSame(m0: map<Key, Overlay>, m: map<Key, Overlay>, asset: nat, position: Pos, dims: Dims,
                       chunkSize: nat, c: Key, c': Key)
    requires chunkSize > 0 && PlacedUpTo(m0, m, asset, position, dims, chunkSize, c)
    requires forall k | InPlacement(position, dims, chunkSize, k) :: Before(k, c) <==> Before(k, c')
    ensures PlacedUpTo(m0, m, asset, position, dims, chunkSize, c')
  {
  }

  /** Once every chunk of the placement precedes the cut-off point, the whole placement is written. */
  lemma PlacedUpToAll(m0: map<Key, Overlay>, m: map<Key, Overlay>, asset: nat, position: Pos, dims: Dims,
                      chunkSize: nat, c: Key)
    requires chunkSize > 0 && PlacedUpTo(m0, m, asset, position, dims, chunkSize, c)
    requires forall k | InPlacement(position, dims, chunkSize, k) :: Before(k, c)
    ensures PlacementAdded(m0, m, asset, position, dims, chunkSize)
  {
  }

  /** Writing the placement's record for chunk `c` moves the cut-off point past `c`. */
  lemma PlacedUpToInsert(m0: map<Key, Overlay>, m: map<Key, Overlay>, asset: nat, position: Pos, dims: Dims,
                         chunkSize: nat, c: Key)
    requires chunkSize > 0 && PlacedUpTo(m0, m, asset, position, dims, chunkSize, c)
    requires InPlacement(position, dims, chunkSize, c)
    ensures PlacedUpTo(m0, m[c := PlacedRecord(asset, position, dims, chunkSize, c)], asset, position, dims, chunkSize,
                       (c.0 + 1, c.1, c.2))
  {
    forall k ensures Before(k, (c.0 + 1, c.1, c.2)) <==> Before(k, c) || k == c {
    }
  }

  /** One box of chunk coordinates that came into range: half-open ranges along x, y and z. */
  datatype Box = Box(lo: Key, hi: Key)

  predicate InBox(b: Box, k: Key)
  {
    b.lo.0 <= k.0 < b.hi.0 && b.lo.1 <= k.1 < b.hi.1 && b.lo.2 <= k.2 < b.hi.2
  }

  predicate InSomeBox(bs: seq<Box>, k: Key)
  {
    exists i | 0 <= i < |bs| :: InBox(bs[i], k)
  }

  /** The chunk table after `clear_just_added`: every chunk kept, none marked just added. */
  function Cleared(c: map<Key, Chunk>): (r: map<Key, Chunk>)
    ensures r.Keys == c.Keys
    ensures forall k | k in r :: r[k].entity == c[k].entity && !r[k].justAdded
  {
    map k | k in c :: c[k].(justAdded := false)
  }

  /**
   * `mesh` is what `generate_chunk` stores for voxels `vox` when the greedy mesher emits
   * `quads`: the quads' vertices and indices, where the quads fit the grid and cover exactly
   * its visible faces.
   */
  ghost predicate MeshedFrom(vox: Vox, quads: seq<Quad>, mesh: Mesh)
  {
    && vox.Valid()
    && mesh == Mesh(MeshVertices(quads), MeshIndices(quads), true)
    && (forall k | 0 <= k < |quads| :: QuadFits(vox, quads[k]))
    && (forall d: DescriptorIndex, s: nat, cv: nat, cw: nat | InSlice(vox, Desc(d), s, cv, cw) ::
          FaceVisible(vox, Desc(d), s, cv, cw) <==> CoveredBy(quads, d, s, cv, cw))
  }

  /** The chunk table and the two registries (live entries and next handle), as values. */
  datatype Tables = Tables(chunks: map<Key, Chunk>, entities: map<nat, Entity>, entityNext: nat,
                           meshes: map<nat, Mesh>, meshNext: nat)

  /**
   * What a pass has done so far: the chunk coordinates it has visited, each entity it tore
   * down with the chunk that owned it, and each mesh it removed with the entity that drew it.
   */
  datatype Log = Log(visited: set<Key>, torn: map<nat, Key>, tornMeshes: map<nat, nat>)

  /** Handles were issued by their registries: every live handle, chunk entity and entity mesh is below the next handle. */
  ghost predicate TablesValid(s: Tables)
  {
    && (forall e | e in s.entities :: e < s.entityNext && s.entities[e].meshHandle < s.meshNext)
    && (forall h | h in s.meshes :: h < s.meshNext)
    && (forall k | k in s.chunks :: s.chunks[k].entity < s.entityNext)
  }

  /**
   * Chunk `key` was generated after the handles `entityNext0` and `meshNext0`: it is loaded
   * exactly when its composed voxels are not all empty (`key !in empty`), and then it is marked
   * just added and drawn by a new entity at the chunk's origin whose new mesh is stored, and
   * that mesh is the greedy mesh of the composed chunk (`(key, mesh) in good`).
   */
  ghost predicate Refreshed(s: Tables, key: Key, empty: iset<Key>, good: iset<(Key, Mesh)>, entityNext0: nat, meshNext0: nat, chunkSize: nat)
  {
    && (key in s.chunks <==> key !in empty)
    && (key in s.chunks ==>
          var e := s.chunks[key].entity;
          && s.chunks[key].justAdded && entityNext0 <= e && e in s.entities
          && s.entities[e].origin == Origin(key, chunkSize)
          && meshNext0 <= s.entities[e].meshHandle && s.entities[e].meshHandle in s.meshes
          && (key, s.meshes[s.entities[e].meshHandle]) in good)
  }

  /** The chunk part of a pass begun at `s0`: unvisited chunks are as they were, visited ones are refreshed. */
  ghost predicate ChunksHold(s0: Tables, s: Tables, log: Log, empty: iset<Key>, good: iset<(Key, Mesh)>, chunkSize: nat)
  {
    && (forall k | k in s0.chunks :: !s0.chunks[k].justAdded)
    && (forall k | k !in log.visited :: (k in s.chunks <==> k in s0.chunks) && (k in s.chunks ==> s.chunks[k] == s0.chunks[k]))
    && (forall k | k in log.visited :: Refreshed(s, k, empty, good, s0.entityNext, s0.meshNext, chunkSize))
  }

  /**
   * The entity part of a pass begun at `s0`: the old entity of every visited chunk is gone,
   * and every entity of `s0` is either untouched or on the log of torn-down entities.
   */
  ghost predicate EntitiesHold(s0: Tables, s: Tables, log: Log)
  {
    && (forall k | k in log.visited && k in s0.chunks :: s0.chunks[k].entity !in s.entities)
    && (forall e | e in s.entities && e < s0.entityNext :: e in s0.entities && s.entities[e] == s0.entities[e])
    && (forall e | e in s0.entities && e !in s.entities :: e in log.torn)
    && (forall e | e in log.torn :: e !in s.entities && log.torn[e] in s0.chunks && s0.chunks[log.torn[e]].entity == e)
  }

  /**
   * The mesh part of a pass begun at `s0`: the mesh of every torn-down entity is gone, and
   * every mesh of `s0` is either untouched or on the log of removed meshes.
   */
  ghost predicate MeshesHold(s0: Tables, s: Tables, log: Log)
  {
    && (forall e | e in log.torn && e in s0.entities :: s0.entities[e].meshHandle !in s.meshes)
    && (forall h | h in s.meshes && h < s0.meshNext :: h in s0.meshes && s.meshes[h] == s0.meshes[h])
    && (forall h | h in s0.meshes && h !in s.meshes :: h in log.tornMeshes)
    && (forall h | h in log.tornMeshes ::
          h !in s.meshes && log.tornMeshes[h] in log.torn && log.tornMeshes[h] in s0.entities
          && s0.entities[log.tornMeshes[h]].meshHandle == h)
  }

  ghost predicate RegistriesHold(s0: Tables, s: Tables, log: Log)
  {
    EntitiesHold(s0, s, log) && MeshesHold(s0, s, log)
  }

  /** Every entity and mesh handle issued since `s0` is still live. */
  ghost predicate NewLive(s0: Tables, s: Tables)
  {
    && (forall e | s0.entityNext <= e < s.entityNext :: e in s.entities)
    && (forall h | s0.meshNext <= h < s.meshNext :: h in s.meshes)
  }

  /** The state of a `generate_around` pass begun at `s0` that has done what `log` records. */
  ghost predicate PassHolds(s0: Tables, s: Tables, log: Log, empty: iset<Key>, good: iset<(Key, Mesh)>, chunkSize: nat)
  {
    && TablesValid(s0) && TablesValid(s) && s0.entityNext <= s.entityNext && s0.meshNext <= s.meshNext
    && NewLive(s0, s) && ChunksHold(s0, s, log, empty, good, chunkSize) && RegistriesHold(s0, s, log)
  }

  /** Every entity on the log was torn down for a visited chunk. */
  ghost predicate TornVisited(log: Log)
  {
    forall e | e in log.torn :: log.torn[e] in log.visited
  }

  /** The tables after the stale chunk at `key` is torn down: its entity, if live, is removed with its mesh. */
  function TornDown(s: Tables, key: Key): Tables
    requires key in s.chunks
  {
    var e := s.chunks[key].entity;
    if e in s.entities then s.(entities := s.entities - {e}, meshes := s.meshes - {s.entities[e].meshHandle}) else s
  }

  /** The log after the stale chunk at `key` is torn down. */
  function TornLog(s: Tables, log: Log, key: Key): Log
    requires key in s.chunks
  {
    var e := s.chunks[key].entity;
    if e in s.entities then log.(torn := log.torn[e := key], tornMeshes := log.tornMeshes[s.entities[e].meshHandle := e])
    else log.(torn := log.torn[e := key])
  }

  /** Tearing down a stale chunk keeps the pass state, and the chunk's old entity is then gone. */
  lemma TearDownKeeps(s0: Tables, s: Tables, log: Log, empty: iset<Key>, good: iset<(Key, Mesh)>, chunkSize: nat, key: Key)
    requires PassHolds(s0, s, log, empty, good, chunkSize) && key in s.chunks && !s.chunks[key].justAdded
    ensures key !in log.visited && key in s0.chunks && s.chunks[key] == s0.chunks[key]
    ensures PassHolds(s0, TornDown(s, key), TornLog(s, log, key), empty, good, chunkSize)
    ensures s0.chunks[key].entity !in TornDown(s, key).entities
  {
    var e := s.chunks[key].entity;
    assert e < s0.entityNext;
    assert e in s.entities ==> s.entities[e] == s0.entities[e] && s.entities[e].meshHandle < s0.meshNext;
    TornTablesValid(s, key);
    TornChunksHold(s0, s, log, empty, good, chunkSize, key);
    TornRegistriesHold(s0, s, log, key);
  }

  lemma TornTablesValid(s: Tables, key: Key)
    requires TablesValid(s) && key in s.chunks
    ensures TablesValid(TornDown(s, key))
    ensures TornDown(s, key).entityNext == s.entityNext && TornDown(s, key).meshNext == s.meshNext
  {
  }

  lemma TornChunksHold(s0: Tables, s: Tables, log: Log, empty: iset<Key>, good: iset<(Key, Mesh)>, chunkSize: nat, key: Key)
    requires ChunksHold(s0, s, log, empty, good, chunkSize) && key in s.chunks && key !in log.visited
    requires s.chunks[key].entity < s0.entityNext
    requires s.chunks[key].entity in s.entities ==> s.entities[s.chunks[key].entity].meshHandle < s0.meshNext
    ensures ChunksHold(s0, TornDown(s, key), TornLog(s, log, key), empty, good, chunkSize)
  {
  }

  lemma TornRegistriesHold(s0: Tables, s: Tables, log: Log, key: Key)
    requires RegistriesHold(s0, s, log) && key in s0.chunks && key in s.chunks && s.chunks[key] == s0.chunks[key]
    requires s.chunks[key].entity < s0.entityNext
    requires s.chunks[key].entity in s.entities ==> s.entities[s.chunks[key].entity] == s0.entities[s.chunks[key].entity]
    ensures RegistriesHold(s0, TornDown(s, key), TornLog(s, log, key))
  {
    TornEntitiesHold(s0, s, log, key);
    TornMeshesHold(s0, s, log, key);
  }

  lemma TornEntitiesHold(s0: Tables, s: Tables, log: Log, key: Key)
    requires EntitiesHold(s0, s, log) && key in s0.chunks && key in s.chunks && s.chunks[key] == s0.chunks[key]
    ensures EntitiesHold(s0, TornDown(s, key), TornLog(s, log, key))
  {
  }

  lemma TornMeshesHold(s0: Tables, s: Tables, log: Log, key: Key)
    requires EntitiesHold(s0, s, log) && MeshesHold(s0, s, log) && key in s.chunks && s.chunks[key].entity < s0.entityNext
    requires s.chunks[key].entity in s.entities ==> s.entities[s.chunks[key].entity] == s0.entities[s.chunks[key].entity]
    ensures MeshesHold(s0, TornDown(s, key), TornLog(s, log, key))
  {
  }

  /** A chunk marked just added was generated earlier in the pass. */
  lemma JustAddedVisited(s0: Tables, s: Tables, log: Log, empty: iset<Key>, good: iset<(Key, Mesh)>, chunkSize: nat, key: Key)
    requires PassHolds(s0, s, log, empty, good, chunkSize) && key in s.chunks && s.chunks[key].justAdded
    ensures key in log.visited
  {
  }

  /** At a coordinate with no chunk, the chunk it had when the pass began (if any) has lost its entity. */
  lemma MissingOldEntityGone(s0: Tables, s: Tables, log: Log, empty: iset<Key>, good: iset<(Key, Mesh)>, chunkSize: nat, key: Key)
    requires PassHolds(s0, s, log, empty, good, chunkSize) && key !in s.chunks
    ensures key in s0.chunks ==> s0.chunks[key].entity !in s.entities
  {
  }

  /**
   * `s'` is `s` after chunk `key` was generated into `chunk` and stored: with no chunk, the
   * registries are as they were and the coordinate is unloaded; otherwise a new mesh and a new
   * entity at the chunk's origin drawing it were added, the mesh is one `good` allows, and the
   * chunk refers to that entity. Every handle issued on the way is live.
   */
  ghost predicate Generated(s: Tables, s': Tables, key: Key, chunk: Option<Chunk>, chunkSize: nat, good: iset<(Key, Mesh)>)
  {
    && s.entityNext <= s'.entityNext && s.meshNext <= s'.meshNext && NewLive(s, s')
    && (chunk.None? ==> s'.entities == s.entities && s'.meshes == s.meshes && s'.chunks == s.chunks - {key})
    && (chunk.Some? ==>
          var e := chunk.value.entity;
          && chunk.value.justAdded && e !in s.entities && s.entityNext <= e && e in s'.entities
          && var ent := s'.entities[e];
             && ent.origin == Origin(key, chunkSize)
             && ent.meshHandle !in s.meshes && s.meshNext <= ent.meshHandle && ent.meshHandle in s'.meshes
             && (key, s'.meshes[ent.meshHandle]) in good
             && s'.entities == s.entities[e := ent] && s'.meshes.Keys == s.meshes.Keys + {ent.meshHandle}
             && (forall h | h in s.meshes :: s'.meshes[h] == s.meshes[h])
             && s'.chunks == s.chunks[key := chunk.value])
  }

  /**
   * What `generate_chunk` and `set_chunk` do to the tables is a generation of chunk `key`: no
   * chunk leaves the registries alone and unloads `key`; a chunk stores `mesh` and an entity at
   * the chunk's origin drawing it under the next handles, and stores the chunk.
   */
  lemma StoredIsGenerated(s: Tables, s': Tables, key: Key, chunk: Option<Chunk>, chunkSize: nat, good: iset<(Key, Mesh)>,
                          mesh: Mesh)
    requires TablesValid(s)
    requires chunk.None? ==>
      && s'.entities == s.entities && s'.meshes == s.meshes && s'.chunks == s.chunks - {key}
      && s'.entityNext == s.entityNext && s'.meshNext == s.meshNext
    requires chunk.Some? ==>
      && chunk.value == Chunk(s.entityNext, true) && (key, mesh) in good
      && s'.entityNext == s.entityNext + 1 && s'.meshNext == s.meshNext + 1
      && s'.entities == s.entities[s.entityNext := Entity(s.meshNext, Origin(key, chunkSize))]
      && s'.meshes == s.meshes[s.meshNext := mesh] && s'.chunks == s.chunks[key := chunk.value]
    ensures TablesValid(s') && Generated(s, s', key, chunk, chunkSize, good)
  {
  }

  /** Generating and storing chunk `key` (whose old entity is gone) keeps the pass state with `key` visited. */
  lemma RegenerateKeeps(s0: Tables, s: Tables, s': Tables, log: Log, empty: iset<Key>, good: iset<(Key, Mesh)>, chunkSize: nat, key: Key,
                        chunk: Option<Chunk>)
    requires PassHolds(s0, s, log, empty, good, chunkSize) && TablesValid(s')
    requires key in s0.chunks ==> s0.chunks[key].entity !in s.entities
    requires (chunk.None? <==> key in empty) && Generated(s, s', key, chunk, chunkSize, good)
    ensures PassHolds(s0, s', log.(visited := log.visited + {key}), empty, good, chunkSize)
  {
    GeneratedChunksHold(s0, s, s', log, empty, good, chunkSize, key, chunk);
    GeneratedRegistriesHold(s0, s, s', log, chunkSize, key, chunk, good);
  }

  lemma GeneratedChunksHold(s0: Tables, s: Tables, s': Tables, log: Log, empty: iset<Key>, good: iset<(Key, Mesh)>, chunkSize: nat, key: Key,
                            chunk: Option<Chunk>)
    requires ChunksHold(s0, s, log, empty, good, chunkSize) && s0.entityNext <= s.entityNext && s0.meshNext <= s.meshNext
    requires (chunk.None? <==> key in empty) && Generated(s, s', key, chunk, chunkSize, good)
    ensures ChunksHold(s0, s', log.(visited := log.visited + {key}), empty, good, chunkSize)
  {
    forall k | k in log.visited + {key} ensures Refreshed(s', k, empty, good, s0.entityNext, s0.meshNext, chunkSize) {
      if k != key {
        RefreshedStays(s, s', k, key, chunk, empty, good, s0.entityNext, s0.meshNext, chunkSize);
      }
    }
  }

  /** Generating another chunk leaves a refreshed chunk refreshed. */
  lemma RefreshedStays(s: Tables, s': Tables, k: Key, key: Key, chunk: Option<Chunk>, empty: iset<Key>, good: iset<(Key, Mesh)>,
                       entityNext0: nat, meshNext0: nat, chunkSize: nat)
    requires k != key && Refreshed(s, k, empty, good, entityNext0, meshNext0, chunkSize) && Generated(s, s', key, chunk, chunkSize, good)
    ensures Refreshed(s', k, empty, good, entityNext0, meshNext0, chunkSize)
  {
  }

  lemma GeneratedRegistriesHold(s0: Tables, s: Tables, s': Tables, log: Log, chunkSize: nat, key: Key, chunk: Option<Chunk>, good: iset<(Key, Mesh)>)
    requires TablesValid(s0) && RegistriesHold(s0, s, log) && s0.entityNext <= s.entityNext && s0.meshNext <= s.meshNext
    requires key in s0.chunks ==> s0.chunks[key].entity !in s.entities
    requires Generated(s, s', key, chunk, chunkSize, good)
    ensures RegistriesHold(s0, s', log.(visited := log.visited + {key}))
  {
    GeneratedEntitiesHold(s0, s, s', log, chunkSize, key, chunk, good);
    GeneratedMeshesHold(s0, s, s', log, chunkSize, key, chunk, good);
  }

  lemma GeneratedEntitiesHold(s0: Tables, s: Tables, s': Tables, log: Log, chunkSize: nat, key: Key, chunk: Option<Chunk>, good: iset<(Key, Mesh)>)
    requires TablesValid(s0) && EntitiesHold(s0, s, log) && s0.entityNext <= s.entityNext
    requires key in s0.chunks ==> s0.chunks[key].entity !in s.entities
    requires Generated(s, s', key, chunk, chunkSize, good)
    ensures EntitiesHold(s0, s', log.(visited := log.visited + {key}))
  {
  }

  lemma GeneratedMeshesHold(s0: Tables, s: Tables, s': Tables, log: Log, chunkSize: nat, key: Key, chunk: Option<Chunk>, good: iset<(Key, Mesh)>)
    requires TablesValid(s0) && MeshesHold(s0, s, log) && s0.meshNext <= s.meshNext
    requires Generated(s, s', key, chunk, chunkSize, good)
    ensures MeshesHold(s0, s', log.(visited := log.visited + {key}))
  {
  }

  /** Visiting `(x, y, z)` extends the visited part of row `(y, z)` of box `b` by one column. */
  lemma RowVisitedStep(v0: set<Key>, v: set<Key>, b: Box, x: int, y: int, z: int)
    requires b.lo.0 <= x < b.hi.0 && b.lo.1 <= y < b.hi.1 && b.lo.2 <= z < b.hi.2
    requires forall k :: k in v <==> k in v0 || (InBox(b, k) && k.1 == y && k.2 == z && k.0 < x)
    ensures forall k :: k in v + {(x, y, z)} <==> k in v0 || (InBox(b, k) && k.1 == y && k.2 == z && k.0 < x + 1)
  {
  }

  /** After visiting box `bs[i]`, the visited coordinates are those of the first `i + 1` boxes. */
  lemma BoxesVisitedStep(bs: seq<Box>, i: nat, v: set<Key>, v': set<Key>)
    requires i < |bs|
    requires forall k :: k in v <==> InSomeBox(bs[..i], k)
    requires forall k :: k in v' <==> k in v || InBox(bs[i], k)
    ensures forall k :: k in v' <==> InSomeBox(bs[..i + 1], k)
  {
    forall k ensures k in v' <==> InSomeBox(bs[..i + 1], k) {
      if InBox(bs[i], k) {
        assert bs[..i + 1][i] == bs[i];
      }
      if InSomeBox(bs[..i + 1], k) {
        var j :| 0 <= j < i + 1 && InBox(bs[..i + 1][j], k);
        if j < i {
          assert bs[..i][j] == bs[..i + 1][j];
        }
      }
      if InSomeBox(bs[..i], k) {
        var j :| 0 <= j < i && InBox(bs[..i][j], k);
        assert bs[..i + 1][j] == bs[..i][j];
      }
    }
  }

  /** A pass begins with nothing visited and nothing torn down. */
  lemma PassStart(s0: Tables, empty: iset<Key>, good: iset<(Key, Mesh)>, chunkSize: nat)
    requires TablesValid(s0) && forall k | k in s0.chunks :: !s0.chunks[k].justAdded
    ensures PassHolds(s0, s0, Log({}, map[], map[]), empty, good, chunkSize) && TornVisited(Log({}, map[], map[]))
  {
  }

  class World {
    var entities: seq<Placed>
    /** Chunk coordinate to the overlay record of the asset it shows. */
    var chunkEntityMap: map<Key, Overlay>
    const chunkSize: nat
    /** The loaded chunks. */
    var chunks: map<Key, Chunk>

    /** An empty world with chunks of 32 voxels along every axis. */
    constructor ()
      ensures entities == [] && chunkEntityMap == map[] && chunkSize == 32 && chunks == map[]
    {
      entities := [];
      chunkEntityMap := map[];
      chunkSize := 32;
      chunks := map[];
    }

    /**
     * The overlay table is consistent with the placed assets: every placed asset's model is
     * registered with the size recorded for it, and every record refers to a placed asset and
     * fits both that asset and its chunk.
     */
    ghost predicate Records(assets: map<nat, Vox>)
      reads this`entities, this`chunkEntityMap
    {
      && chunkSize > 0
      && (forall i | 0 <= i < |entities| ::
            entities[i].handle in assets && assets[entities[i].handle].Valid()
            && DimsOf(assets[entities[i].handle]) == entities[i].dims)
      && (forall k | k in chunkEntityMap ::
            chunkEntityMap[k].asset < |entities| && Fits(chunkEntityMap[k], entities[chunkEntityMap[k].asset].dims, chunkSize))
    }

    /**
     * `World::add`: records the asset, then walks its box chunk by chunk along z, y and x,
     * each walk starting from the program's own `chunk_number_and_offset` of the asset's
     * coordinate, and writes, for every chunk it touches, the record of the part of the asset
     * that chunk shows; a chunk that already had a record gets the new one.
     */
    method Add(handle: nat, position: Pos, assets: map<nat, Vox>)
      requires chunkSize > 0 && handle in assets && assets[handle].Valid()
      modifies this
      ensures entities == old(entities) + [Placed(handle, DimsOf(assets[handle]), position)]
      ensures chunks == old(chunks)
      ensures PlacementAdded(old(chunkEntityMap), chunkEntityMap, |old(entities)|, position, DimsOf(assets[handle]), chunkSize)
      ensures old(Records(assets)) ==> Records(assets)
    {
      var dims := DimsOf(assets[handle]);
      entities := entities + [Placed(handle, dims, position)];
      ghost var m0 := chunkEntityMap;
      var asset := |entities| - 1;
      ghost var fx, fy := FirstChunk(position.x, chunkSize), FirstChunk(position.y, chunkSize);
      var zFirst := ChunkNumberAndOffset(position.z, chunkSize);
      var zNumber: int, zTarget: nat, zSource: nat, zSize: nat := zFirst.0, zFirst.1, 0, dims.z;
      ghost var iz := 0;
      WalkAtStart(position.z, dims.z, chunkSize);
      while zSize != 0
        invariant WalkAt(position.z, dims.z, chunkSize, iz, zNumber, zTarget, zSource, zSize)
        invariant PlacedUpTo(m0, chunkEntityMap, asset, position, dims, chunkSize, (fx, fy, zNumber))
        invariant entities == old(entities) + [Placed(handle, dims, position)] && chunks == old(chunks)
        decreases zSize, if zTarget == chunkSize then 1 else 0
      {
        var zCurrent := Min(zSize, chunkSize - zTarget);
        WalkAtStep(position.z, dims.z, chunkSize, iz, zNumber, zTarget, zSource, zSize);
        AddLayer(m0, asset, position, dims, Segment(zNumber, zSource, zTarget, zCurrent));
        zNumber, zSource, zTarget, zSize := zNumber + 1, zSource + zCurrent, 0, zSize - zCurrent;
        iz := iz + 1;
      }
      WalkAtEnd(position.z, dims.z, chunkSize, iz, zNumber, zTarget, zSource);
      PlacedUpToAll(m0, chunkEntityMap, asset, position, dims, chunkSize, (fx, fy, zNumber));
      if old(Records(assets)) {
        forall k | k in chunkEntityMap
          ensures chunkEntityMap[k].asset < |entities| && Fits(chunkEntityMap[k], entities[chunkEntityMap[k].asset].dims, chunkSize)
        {
          if InPlacement(position, dims, chunkSize, k) {
            PlacedRecordShape(asset, position, dims, chunkSize, k);
          } else {
            assert chunkEntityMap[k] == m0[k];
          }
        }
      }
    }

    /** The y walk of `add` (and the x walks inside it) for the run `z` of the z axis. */
    method AddLayer(ghost m0: map<Key, Overlay>, asset: nat, position: Pos, dims: Dims, z: Segment)
      requires chunkSize > 0 && RunOf(position.z, dims.z, chunkSize, z)
      requires PlacedUpTo(m0, chunkEntityMap, asset, position, dims, chunkSize,
                          (FirstChunk(position.x, chunkSize), FirstChunk(position.y, chunkSize), z.chunk))
      modifies this
      ensures entities == old(entities) && chunks == old(chunks)
      ensures PlacedUpTo(m0, chunkEntityMap, asset, position, dims, chunkSize,
                         (FirstChunk(position.x, chunkSize), FirstChunk(position.y, chunkSize), z.chunk + 1))
    {
      ghost var fx := FirstChunk(position.x, chunkSize);
      var yFirst := ChunkNumberAndOffset(position.y, chunkSize);
      var yNumber: int, yTarget: nat, ySource: nat, ySize: nat := yFirst.0, yFirst.1, 0, dims.y;
      ghost var iy := 0;
      WalkAtStart(position.y, dims.y, chunkSize);
      while ySize != 0
        invariant WalkAt(position.y, dims.y, chunkSize, iy, yNumber, yTarget, ySource, ySize)
        invariant PlacedUpTo(m0, chunkEntityMap, asset, position, dims, chunkSize, (fx, yNumber, z.chunk))
        invariant entities == old(entities) && chunks == old(chunks)
        decreases ySize, if yTarget == chunkSize then 1 else 0
      {
        var yCurrent := Min(ySize, chunkSize - yTarget);
        WalkAtStep(position.y, dims.y, chunkSize, iy, yNumber, yTarget, ySource, ySize);
        AddRow(m0, asset, position, dims, Segment(yNumber, ySource, yTarget, yCurrent), z);
        yNumber, ySource, yTarget, ySize := yNumber + 1, ySource + yCurrent, 0, ySize - yCurrent;
        iy := iy + 1;
      }
      WalkAtEnd(position.y, dims.y, chunkSize, iy, yNumber, yTarget, ySource);
      PlacedUpToSame(m0, chunkEntityMap, asset, position, dims, chunkSize, (fx, yNumber, z.chunk),
                     (fx, FirstChunk(position.y, chunkSize), z.chunk + 1));
    }

    /** The x walk of `add` for the runs `y` and `z`: one record per chunk of the row. */
    method AddRow(ghost m0: map<Key, Overlay>, asset: nat, position: Pos, dims: Dims, y: Segment, z: Segment)
      requires chunkSize > 0 && RunOf(position.y, dims.y, chunkSize, y) && RunOf(position.z, dims.z, chunkSize, z)
      requires PlacedUpTo(m0, chunkEntityMap, asset, position, dims, chunkSize,
                          (FirstChunk(position.x, chunkSize), y.chunk, z.chunk))
      modifies this
      ensures entities == old(entities) && chunks == old(chunks)
      ensures PlacedUpTo(m0, chunkEntityMap, asset, position, dims, chunkSize,
                         (FirstChunk(position.x, chunkSize), y.chunk + 1, z.chunk))
    {
      var xFirst := ChunkNumberAndOffset(position.x, chunkSize);
      var xNumber: int, xTarget: nat, xSource: nat, xSize: nat := xFirst.0, xFirst.1, 0, dims.x;
      ghost var ix := 0;
      WalkAtStart(position.x, dims.x, chunkSize);
      while xSize != 0
        invariant WalkAt(position.x, dims.x, chunkSize, ix, xNumber, xTarget, xSource, xSize)
        invariant PlacedUpTo(m0, chunkEntityMap, asset, position, dims, chunkSize, (xNumber, y.chunk, z.chunk))
        invariant entities == old(entities) && chunks == old(chunks)
        decreases xSize, if xTarget == chunkSize then 1 else 0
      {
        var xCurrent := Min(xSize, chunkSize - xTarget);
        WalkAtStep(position.x, dims.x, chunkSize, ix, xNumber, xTarget, xSource, xSize);
        var record := Overlay(asset, Dims(xSource, y.source, z.source), Dims(xTarget, y.target, z.target),
                              Dims(xCurrent, y.extent, z.extent));
        PlacedUpToInsert(m0, chunkEntityMap, asset, position, dims, chunkSize, (xNumber, y.chunk, z.chunk));
        chunkEntityMap := chunkEntityMap[(xNumber, y.chunk, z.chunk) := record];
        xNumber, xSource, xTarget, xSize := xNumber + 1, xSource + xCurrent, 0, xSize - xCurrent;
        ix := ix + 1;
      }
      WalkAtEnd(position.x, dims.x, chunkSize, ix, xNumber, xTarget, xSource);
      PlacedUpToSame(m0, chunkEntityMap, asset, position, dims, chunkSize, (xNumber, y.chunk, z.chunk),
                     (FirstChunk(position.x, chunkSize), y.chunk + 1, z.chunk));
    }
    /** The overlay record of chunk `key`, if `add` wrote one, together with the asset it copies from. */
    function OverlayOf(assets: map<nat, Vox>, key: Key): (r: Option<(Overlay, Vox)>)
      requires Records(assets)
      reads this`entities, this`chunkEntityMap
      ensures OverlayFits(r)
      ensures r.Some? <==> key in chunkEntityMap
      ensures r.Some? ==> Fits(r.value.0, DimsOf(r.value.1), chunkSize)
    {
      if key in chunkEntityMap then
        var rec := chunkEntityMap[key];
        Some((rec, assets[entities[rec.asset].handle]))
      else None
    }

    /** `v` is chunk `key` as `generate_chunk` composes it: a cube of side `chunkSize` holding the terrain with the chunk's overlay on top. */
    ghost predicate Composed(v: Vox, assets: map<nat, Vox>, terrain: Terrain, key: Key)
      requires Records(assets)
      reads this`entities, this`chunkEntityMap
    {
      && v.Valid() && DimsOf(v) == Dims(chunkSize, chunkSize, chunkSize) && v.TouchedExact()
      && forall x: nat, y: nat, z: nat | v.InBounds(x, y, z) :: v.Get(x, y, z) == ComposedCell(terrain, key, OverlayOf(assets, key), x, y, z)
    }

    /** The two composition passes of `generate_chunk`: terrain first, then the chunk's overlay record, if any. */
    method BuildChunkVoxels(assets: map<nat, Vox>, terrain: Terrain, key: Key) returns (v: Vox)
      requires Records(assets)
      ensures Composed(v, assets, terrain, key)
    {
      v := TerrainPass(terrain, key, chunkSize);
      if key in chunkEntityMap {
        var rec := chunkEntityMap[key];
        var asset := assets[entities[rec.asset].handle];
        v := OverlayPass(v, rec, asset);
      }
    }

    /**
     * `World::generate_chunk`: composes chunk `key` and meshes it. A chunk with no voxel yields
     * no chunk and leaves both registries alone; otherwise the mesh is stored under a new handle,
     * an entity at the chunk's origin drawing that mesh under another, and the chunk refers to
     * that entity and is marked just added.
     */
    method GenerateChunk(assets: map<nat, Vox>, terrain: Terrain, key: Key, meshes: Registry<Mesh>, entityRegistry: Registry<Entity>)
      returns (chunk: Option<Chunk>, ghost vox: Vox, ghost quads: seq<Quad>)
      requires Records(assets) && meshes.Valid() && entityRegistry.Valid()
      modifies meshes, entityRegistry
      ensures meshes.Valid() && entityRegistry.Valid()
      ensures old(meshes.next) <= meshes.next && old(entityRegistry.next) <= entityRegistry.next
      ensures chunk.None? ==> meshes.next == old(meshes.next) && entityRegistry.next == old(entityRegistry.next)
      ensures chunk.Some? ==> meshes.next == old(meshes.next) + 1 && entityRegistry.next == old(entityRegistry.next) + 1
      ensures Composed(vox, assets, terrain, key)
      ensures chunk.None? <==> !vox.HasVoxel()
      ensures chunk.None? ==> meshes.items == old(meshes.items) && entityRegistry.items == old(entityRegistry.items)
      ensures chunk.Some? ==>
        && chunk.value.justAdded
        && chunk.value.entity !in old(entityRegistry.items) && chunk.value.entity in entityRegistry.items
        && chunk.value.entity == old(entityRegistry.next)
        && var ent := entityRegistry.items[chunk.value.entity];
           && ent.origin == Origin(key, chunkSize)
           && ent.meshHandle !in old(meshes.items) && ent.meshHandle == old(meshes.next)
           && entityRegistry.items == old(entityRegistry.items)[chunk.value.entity := ent]
           && meshes.items == old(meshes.items)[ent.meshHandle := Mesh(MeshVertices(quads), MeshIndices(quads), true)]
      ensures MeshedFrom(vox, quads, Mesh(MeshVertices(quads), MeshIndices(quads), true))
    {
      var v := BuildChunkVoxels(assets, terrain, key);
      vox := v;
      var mesh;
      mesh, quads := GreedyMeshOf(v);
      if mesh.Some? {
        var meshHandle := meshes.Add(mesh.value);
        var e := entityRegistry.Add(Entity(meshHandle, Origin(key, chunkSize)));
        chunk := Some(Chunk(e, true));
      } else {
        chunk := None;
      }
    }

    /** The chunk table and the two registries, as values. */
    function TablesOf(meshes: Registry<Mesh>, entityRegistry: Registry<Entity>): Tables
      reads this, meshes, entityRegistry
    {
      Tables(chunks, entityRegistry.items, entityRegistry.next, meshes.items, meshes.next)
    }

    /** Composed chunk `key` has no voxel at all. */
    ghost predicate ChunkEmpty(assets: map<nat, Vox>, terrain: Terrain, key: Key)
      requires Records(assets)
      reads this`entities, this`chunkEntityMap
    {
      forall x: nat, y: nat, z: nat | x < chunkSize && y < chunkSize && z < chunkSize ::
        ComposedCell(terrain, key, OverlayOf(assets, key), x, y, z).None?
    }

    /** The chunk coordinates whose composed chunk is empty. */
    ghost function EmptyChunks(assets: map<nat, Vox>, terrain: Terrain): iset<Key>
      requires Records(assets)
      reads this`entities, this`chunkEntityMap
    {
      iset k | ChunkEmpty(assets, terrain, k)
    }

    /** A composed chunk has a voxel exactly when its cells are not all empty. */
    lemma ComposedHasVoxel(v: Vox, assets: map<nat, Vox>, terrain: Terrain, key: Key)
      requires Records(assets) && Composed(v, assets, terrain, key)
      ensures v.HasVoxel() <==> !ChunkEmpty(assets, terrain, key)
    {
      if !ChunkEmpty(assets, terrain, key) {
        var x: nat, y: nat, z: nat :| x < chunkSize && y < chunkSize && z < chunkSize &&
          ComposedCell(terrain, key, OverlayOf(assets, key), x, y, z).Some?;
        assert v.Get(x, y, z) != None;
      }
    }

    /** `empty` is the set of chunk coordinates whose composed chunk is empty. */
    ghost predicate EmptyIs(assets: map<nat, Vox>, terrain: Terrain, empty: iset<Key>)
      requires Records(assets)
      reads this`entities, this`chunkEntityMap
    {
      forall k {:trigger ChunkEmpty(assets, terrain, k)} :: ChunkEmpty(assets, terrain, k) <==> k in empty
    }

    /** `mesh` is the greedy mesh of chunk `key` as `generate_chunk` composes it. */
    ghost predicate MeshesChunk(assets: map<nat, Vox>, terrain: Terrain, key: Key, mesh: Mesh)
      requires Records(assets)
      reads this`entities, this`chunkEntityMap
    {
      exists vox: Vox, quads: seq<Quad> :: Composed(vox, assets, terrain, key) && MeshedFrom(vox, quads, mesh)
    }

    /** The pairs of a chunk coordinate and the greedy mesh of that composed chunk. */
    ghost function GoodMeshes(assets: map<nat, Vox>, terrain: Terrain): iset<(Key, Mesh)>
      requires Records(assets)
      reads this`entities, this`chunkEntityMap
    {
      iset p: (Key, Mesh) | MeshesChunk(assets, terrain, p.0, p.1)
    }

    /** The state of a `generate_around` pass begun at `s0` that has done what `log` records. */
    ghost predicate PassInv(assets: map<nat, Vox>, terrain: Terrain, meshes: Registry<Mesh>,
                            entityRegistry: Registry<Entity>, s0: Tables, log: Log, empty: iset<Key>, good: iset<(Key, Mesh)>)
      reads this, meshes, entityRegistry
    {
      && Records(assets) && EmptyIs(assets, terrain, empty) && good == GoodMeshes(assets, terrain) && meshes.Valid() && entityRegistry.Valid()
      && PassHolds(s0, TablesOf(meshes, entityRegistry), log, empty, good, chunkSize)
    }

    /** `Chunks::clear_just_added`: no chunk is marked just added any more. */
    method ClearJustAdded()
      modifies this
      ensures chunks == Cleared(old(chunks))
      ensures entities == old(entities) && chunkEntityMap == old(chunkEntityMap)
    {
      chunks := Cleared(chunks);
    }

    /** `Chunks::set_chunk`: stores a generated chunk, or unloads the coordinate when there is none. */
    method SetChunk(key: Key, chunk: Option<Chunk>)
      modifies this
      ensures chunks == if chunk.None? then old(chunks) - {key} else old(chunks)[key := chunk.value]
      ensures entities == old(entities) && chunkEntityMap == old(chunkEntityMap)
    {
      if chunk.None? {
        chunks := chunks - {key};
      } else {
        chunks := chunks[key := chunk.value];
      }
    }

    /**
     * Tears down the stale chunk at `key`: when its entity is still live, that entity's mesh
     * and then the entity itself are removed from their registries.
     */
    method TearDown(key: Key, meshes: Registry<Mesh>, entityRegistry: Registry<Entity>)
      requires meshes.Valid() && entityRegistry.Valid() && key in chunks && TablesValid(TablesOf(meshes, entityRegistry))
      modifies meshes, entityRegistry
      ensures meshes.Valid() && entityRegistry.Valid() && TablesValid(TablesOf(meshes, entityRegistry))
      ensures TablesOf(meshes, entityRegistry) == TornDown(old(TablesOf(meshes, entityRegistry)), key)
    {
      TornTablesValid(TablesOf(meshes, entityRegistry), key);
      var prev := chunks[key];
      var previousEntity := entityRegistry.Get(prev.entity);
      if previousEntity.Some? {
        meshes.Remove(previousEntity.value.meshHandle);
        entityRegistry.Remove(prev.entity);
      }
    }

    /** Generates chunk `key` afresh and stores the result. */
    method Regenerate(assets: map<nat, Vox>, terrain: Terrain, key: Key, meshes: Registry<Mesh>, entityRegistry: Registry<Entity>,
                      ghost good: iset<(Key, Mesh)>)
      returns (chunk: Option<Chunk>)
      requires Records(assets) && meshes.Valid() && entityRegistry.Valid() && TablesValid(TablesOf(meshes, entityRegistry))
      requires good == GoodMeshes(assets, terrain)
      modifies this, meshes, entityRegistry
      ensures meshes.Valid() && entityRegistry.Valid() && TablesValid(TablesOf(meshes, entityRegistry))
      ensures entities == old(entities) && chunkEntityMap == old(chunkEntityMap)
      ensures chunk.None? <==> ChunkEmpty(assets, terrain, key)
      ensures Generated(old(TablesOf(meshes, entityRegistry)), TablesOf(meshes, entityRegistry), key, chunk, chunkSize, good)
    {
      ghost var s := TablesOf(meshes, entityRegistry);
      ghost var vox, quads;
      chunk, vox, quads := GenerateChunk(assets, terrain, key, meshes, entityRegistry);
      ComposedHasVoxel(vox, assets, terrain, key);
      ghost var mesh := Mesh(MeshVertices(quads), MeshIndices(quads), true);
      if chunk.Some? {
        assert MeshesChunk(assets, terrain, key, mesh);
      }
      SetChunk(key, chunk);
      StoredIsGenerated(s, TablesOf(meshes, entityRegistry), key, chunk, chunkSize, good, mesh);
    }


    /**
     * One coordinate of the `generate_around` pass: a chunk generated earlier in the pass is
     * left alone, a missing one is generated, and a stale one is torn down and regenerated.
     */
    method RefreshKey(assets: map<nat, Vox>, terrain: Terrain, key: Key, meshes: Registry<Mesh>,
                      entityRegistry: Registry<Entity>, ghost s0: Tables, ghost log: Log, ghost empty: iset<Key>, ghost good: iset<(Key, Mesh)>)
      returns (ghost log': Log)
      requires PassInv(assets, terrain, meshes, entityRegistry, s0, log, empty, good)
      modifies this, meshes, entityRegistry
      ensures PassInv(assets, terrain, meshes, entityRegistry, s0, log', empty, good) && log'.visited == log.visited + {key}
      ensures TornVisited(log) ==> TornVisited(log')
      ensures entities == old(entities) && chunkEntityMap == old(chunkEntityMap)
    {
      if key !in chunks {
        MissingOldEntityGone(s0, TablesOf(meshes, entityRegistry), log, empty, good, chunkSize, key);
        GenerateStep(assets, terrain, key, meshes, entityRegistry, s0, log, empty, good);
        log' := log.(visited := log.visited + {key});
      } else if chunks[key].justAdded {
        JustAddedVisited(s0, TablesOf(meshes, entityRegistry), log, empty, good, chunkSize, key);
        log' := log;
      } else {
        ghost var mid := TearDownStep(key, meshes, entityRegistry, assets, terrain, s0, log, empty, good);
        GenerateStep(assets, terrain, key, meshes, entityRegistry, s0, mid, empty, good);
        log' := mid.(visited := mid.visited + {key});
      }
    }

    /** Generates and stores chunk `key`, whose chunk from before the pass (if any) has lost its entity. */
    method GenerateStep(assets: map<nat, Vox>, terrain: Terrain, key: Key, meshes: Registry<Mesh>,
                        entityRegistry: Registry<Entity>, ghost s0: Tables, ghost log: Log, ghost empty: iset<Key>, ghost good: iset<(Key, Mesh)>)
      requires PassInv(assets, terrain, meshes, entityRegistry, s0, log, empty, good)
      requires key in s0.chunks ==> s0.chunks[key].entity !in entityRegistry.items
      modifies this, meshes, entityRegistry
      ensures PassInv(assets, terrain, meshes, entityRegistry, s0, log.(visited := log.visited + {key}), empty, good)
      ensures entities == old(entities) && chunkEntityMap == old(chunkEntityMap)
    {
      ghost var s := TablesOf(meshes, entityRegistry);
      var chunk := Regenerate(assets, terrain, key, meshes, entityRegistry, good);
      ghost var s' := TablesOf(meshes, entityRegistry);
      RegenerateKeeps(s0, s, s', log, empty, good, chunkSize, key, chunk);
    }

    /** Tears down the stale chunk at `key`, a chunk loaded before the pass and not yet visited. */
    method TearDownStep(key: Key, meshes: Registry<Mesh>, entityRegistry: Registry<Entity>, ghost assets: map<nat, Vox>,
                        ghost terrain: Terrain, ghost s0: Tables, ghost log: Log, ghost empty: iset<Key>, ghost good: iset<(Key, Mesh)>)
      returns (ghost log': Log)
      requires PassInv(assets, terrain, meshes, entityRegistry, s0, log, empty, good) && key in chunks && !chunks[key].justAdded
      modifies meshes, entityRegistry
      ensures PassInv(assets, terrain, meshes, entityRegistry, s0, log', empty, good)
      ensures key in s0.chunks && s0.chunks[key].entity !in entityRegistry.items
      ensures log'.visited == log.visited && log'.torn == log.torn[s0.chunks[key].entity := key]
    {
      ghost var s := TablesOf(meshes, entityRegistry);
      TearDownKeeps(s0, s, log, empty, good, chunkSize, key);
      TearDown(key, meshes, entityRegistry);
      log' := TornLog(s, log, key);
    }


    /** Refreshes row `(y, z)` of box `b`, x ascending. */
    method RefreshRow(assets: map<nat, Vox>, terrain: Terrain, b: Box, y: int, z: int, meshes: Registry<Mesh>,
                      entityRegistry: Registry<Entity>, ghost s0: Tables, ghost log: Log, ghost empty: iset<Key>, ghost good: iset<(Key, Mesh)>)
      returns (ghost log': Log)
      requires PassInv(assets, terrain, meshes, entityRegistry, s0, log, empty, good) && TornVisited(log)
      requires b.lo.1 <= y < b.hi.1 && b.lo.2 <= z < b.hi.2
      modifies this, meshes, entityRegistry
      ensures PassInv(assets, terrain, meshes, entityRegistry, s0, log', empty, good) && TornVisited(log')
      ensures forall k :: k in log'.visited <==> k in log.visited || (InBox(b, k) && k.1 == y && k.2 == z)
      ensures entities == old(entities) && chunkEntityMap == old(chunkEntityMap)
    {
      log' := log;
      var x := b.lo.0;
      while x < b.hi.0
        invariant b.lo.0 <= x
        invariant PassInv(assets, terrain, meshes, entityRegistry, s0, log', empty, good) && TornVisited(log')
        invariant forall k :: k in log'.visited <==> k in log.visited || (InBox(b, k) && k.1 == y && k.2 == z && k.0 < x)
        invariant entities == old(entities) && chunkEntityMap == old(chunkEntityMap)
        decreases b.hi.0 - x
      {
        ghost var before := log'.visited;
        log' := RefreshKey(assets, terrain, (x, y, z), meshes, entityRegistry, s0, log', empty, good);
        RowVisitedStep(log.visited, before, b, x, y, z);
        x := x + 1;
      }
    }

    /** Refreshes layer `z` of box `b`, y ascending. */
    method RefreshLayer(assets: map<nat, Vox>, terrain: Terrain, b: Box, z: int, meshes: Registry<Mesh>,
                        entityRegistry: Registry<Entity>, ghost s0: Tables, ghost log: Log, ghost empty: iset<Key>, ghost good: iset<(Key, Mesh)>)
      returns (ghost log': Log)
      requires PassInv(assets, terrain, meshes, entityRegistry, s0, log, empty, good) && TornVisited(log)
      requires b.lo.2 <= z < b.hi.2
      modifies this, meshes, entityRegistry
      ensures PassInv(assets, terrain, meshes, entityRegistry, s0, log', empty, good) && TornVisited(log')
      ensures forall k :: k in log'.visited <==> k in log.visited || (InBox(b, k) && k.2 == z)
      ensures entities == old(entities) && chunkEntityMap == old(chunkEntityMap)
    {
      log' := log;
      var y := b.lo.1;
      while y < b.hi.1
        invariant b.lo.1 <= y
        invariant PassInv(assets, terrain, meshes, entityRegistry, s0, log', empty, good) && TornVisited(log')
        invariant forall k :: k in log'.visited <==> k in log.visited || (InBox(b, k) && k.2 == z && k.1 < y)
        invariant entities == old(entities) && chunkEntityMap == old(chunkEntityMap)
        decreases b.hi.1 - y
      {
        log' := RefreshRow(assets, terrain, b, y, z, meshes, entityRegistry, s0, log', empty, good);
        y := y + 1;
      }
    }

    /** Refreshes box `b`, z ascending. */
    method RefreshBox(assets: map<nat, Vox>, terrain: Terrain, b: Box, meshes: Registry<Mesh>,
                      entityRegistry: Registry<Entity>, ghost s0: Tables, ghost log: Log, ghost empty: iset<Key>, ghost good: iset<(Key, Mesh)>)
      returns (ghost log': Log)
      requires PassInv(assets, terrain, meshes, entityRegistry, s0, log, empty, good) && TornVisited(log)
      modifies this, meshes, entityRegistry
      ensures PassInv(assets, terrain, meshes, entityRegistry, s0, log', empty, good) && TornVisited(log')
      ensures forall k :: k in log'.visited <==> k in log.visited || InBox(b, k)
      ensures entities == old(entities) && chunkEntityMap == old(chunkEntityMap)
    {
      log' := log;
      var z := b.lo.2;
      while z < b.hi.2
        invariant b.lo.2 <= z
        invariant PassInv(assets, terrain, meshes, entityRegistry, s0, log', empty, good) && TornVisited(log')
        invariant forall k :: k in log'.visited <==> k in log.visited || (InBox(b, k) && k.2 < z)
        invariant entities == old(entities) && chunkEntityMap == old(chunkEntityMap)
        decreases b.hi.2 - z
      {
        log' := RefreshLayer(assets, terrain, b, z, meshes, entityRegistry, s0, log', empty, good);
        z := z + 1;
      }
    }


    /**
     * `World::generate_around`, for the boxes of chunk coordinates `added` that came into range:
     * after clearing every chunk's just-added mark, every coordinate of every box is refreshed
     * (`RefreshKey`). Afterwards every coordinate in a box holds a chunk generated in this pass
     * exactly when its composed voxels are not all empty, coordinates outside every box keep
     * their chunks, and exactly the entities and meshes of the replaced chunks have been removed:
     * `torn` maps each removed entity to the coordinate whose chunk it drew, `tornMeshes` each
     * removed mesh to the entity that drew it.
     */
    method GenerateAround(assets: map<nat, Vox>, terrain: Terrain, added: seq<Box>, meshes: Registry<Mesh>,
                          entityRegistry: Registry<Entity>) returns (ghost torn: map<nat, Key>, ghost tornMeshes: map<nat, nat>)
      requires Records(assets) && meshes.Valid() && entityRegistry.Valid() && TablesValid(TablesOf(meshes, entityRegistry))
      modifies this, meshes, entityRegistry
      ensures entities == old(entities) && chunkEntityMap == old(chunkEntityMap)
      ensures meshes.Valid() && entityRegistry.Valid() && TablesValid(TablesOf(meshes, entityRegistry))
      ensures forall k | InSomeBox(added, k) ::
        Refreshed(TablesOf(meshes, entityRegistry), k, EmptyChunks(assets, terrain), GoodMeshes(assets, terrain),
                  old(entityRegistry.next), old(meshes.next), chunkSize)
      ensures forall e | old(entityRegistry.next) <= e < entityRegistry.next :: e in entityRegistry.items
      ensures forall h | old(meshes.next) <= h < meshes.next :: h in meshes.items
      ensures forall k | !InSomeBox(added, k) ::
        (k in chunks <==> k in old(chunks)) && (k in chunks ==> chunks[k] == old(chunks)[k].(justAdded := false))
      ensures forall k | InSomeBox(added, k) && k in old(chunks) :: old(chunks)[k].entity !in entityRegistry.items
      ensures forall e | e in entityRegistry.items && e < old(entityRegistry.next) ::
        e in old(entityRegistry.items) && entityRegistry.items[e] == old(entityRegistry.items)[e]
      ensures forall e | e in old(entityRegistry.items) && e !in entityRegistry.items :: e in torn
      ensures forall e | e in torn ::
        e !in entityRegistry.items && torn[e] in old(chunks) && InSomeBox(added, torn[e]) && old(chunks)[torn[e]].entity == e
      ensures forall e | e in torn && e in old(entityRegistry.items) :: old(entityRegistry.items)[e].meshHandle !in meshes.items
      ensures forall h | h in meshes.items && h < old(meshes.next) :: h in old(meshes.items) && meshes.items[h] == old(meshes.items)[h]
      ensures forall h | h in old(meshes.items) && h !in meshes.items :: h in tornMeshes
      ensures forall h | h in tornMeshes ::
        && h !in meshes.items && tornMeshes[h] in torn && tornMeshes[h] in old(entityRegistry.items)
        && old(entityRegistry.items)[tornMeshes[h]].meshHandle == h
    {
      ClearJustAdded();
      ghost var s0 := TablesOf(meshes, entityRegistry);
      ghost var empty := EmptyChunks(assets, terrain);
      ghost var good := GoodMeshes(assets, terrain);
      ghost var log := Log({}, map[], map[]);
      PassStart(s0, empty, good, chunkSize);
      for i := 0 to |added|
        invariant PassInv(assets, terrain, meshes, entityRegistry, s0, log, empty, good) && TornVisited(log)
        invariant forall k :: k in log.visited <==> InSomeBox(added[..i], k)
        invariant entities == old(entities) && chunkEntityMap == old(chunkEntityMap)
      {
        ghost var before := log.visited;
        log := RefreshBox(assets, terrain, added[i], meshes, entityRegistry, s0, log, empty, good);
        BoxesVisitedStep(added, i, before, log.visited);
      }
      assert added[..|added|] == added;
      torn := log.torn;
      tornMeshes := log.tornMeshes;
    }

  }
}
