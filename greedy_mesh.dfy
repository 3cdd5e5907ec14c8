/**
 * The greedy mesher of the voxel world (`greedy_mesh`): for each of six face directions
 * and each slice across the scan axis it builds an occlusion mask of visible faces,
 * merges the mask greedily into single-colour rectangles, and emits one quad (four
 * vertices, two triangles) per rectangle. Positions are in voxel units.
 */
module GreedyMesh {

  import opened Common
  import opened Voxels

  /** A face direction: scan axis `u`, in-plane axes `v` and `w`, step direction, face normal and corner offset. */
  datatype Descriptor = Descriptor(u: nat, v: nat, w: nat, step: int, normal: seq<int>, q: seq<int>)

  /** The fixed table of six face descriptors, two per axis. */
  const Descriptors: seq<Descriptor> := [
    Descriptor(0, 1, 2, 1, [1, 0, 0], [0, 0, 0]),
    Descriptor(0, 1, 2, -1, [-1, 0, 0], [1, 0, 0]),
    Descriptor(1, 2, 0, 1, [0, 1, 0], [0, 0, 0]),
    Descriptor(1, 2, 0, -1, [0, -1, 0], [1, 0, 0]),
    Descriptor(2, 0, 1, 1, [0, 0, 1], [0, 0, 0]),
    Descriptor(2, 0, 1, -1, [0, 0, -1], [1, 0, 0])
  ]

  type DescriptorIndex = i: nat | i < 6

  /** Axes `u, v, w` are a permutation of x, y, z; the normal is the unit vector along `u` pointing in the step direction. */
  predicate WellFormed(d: Descriptor)
  {
    && d.u < 3 && d.v < 3 && d.w < 3 && d.u != d.v && d.v != d.w && d.u != d.w
    && (d.step == 1 || d.step == -1)
    && |d.normal| == 3 && |d.q| == 3
    && d.normal[d.u] == d.step && d.normal[d.v] == 0 && d.normal[d.w] == 0
  }

  /** Every entry of the table is well formed; entries `2a` and `2a + 1` scan axis `a` forwards and backwards. */
  lemma DescriptorTable()
    ensures |Descriptors| == 6
    ensures forall i | 0 <= i < 6 :: WellFormed(Descriptors[i])
    ensures forall i | 0 <= i < 6 ::
      Descriptors[i].u == i / 2 && Descriptors[i].step == (if i % 2 == 0 then 1 else -1)
  {
  }

  function Desc(i: DescriptorIndex): (d: Descriptor)
    ensures WellFormed(d)
  {
    DescriptorTable();
    Descriptors[i]
  }

  // ---------------------------------------------------------------------------
  // Cursor arithmetic and the occlusion mask

  /** The voxel coordinate with `slice` on axis `u` and mask position `(cv, cw)` on axes `v`, `w`. */
  function Cursor(d: Descriptor, slice: int, cv: int, cw: int): (c: seq<int>)
    requires WellFormed(d)
    ensures |c| == 3 && c[d.u] == slice && c[d.v] == cv && c[d.w] == cw
  {
    [0, 0, 0][d.u := slice][d.v := cv][d.w := cw]
  }

  predicate InGrid(vox: Vox, c: seq<int>)
  {
    && |c| == 3
    && 0 <= c[0] < vox.sizeX && 0 <= c[1] < vox.sizeY && 0 <= c[2] < vox.sizeZ
  }

  function VoxAt(vox: Vox, c: seq<int>): Option<ColorId>
    requires vox.Valid() && InGrid(vox, c)
  {
    vox.Get(c[0], c[1], c[2])
  }

  /** The slice and mask position lie inside the grid along the descriptor's axes. */
  predicate InSlice(vox: Vox, d: Descriptor, slice: int, cv: int, cw: int)
    requires WellFormed(d)
  {
    0 <= slice < vox.Size(d.u) && 0 <= cv < vox.Size(d.v) && 0 <= cw < vox.Size(d.w)
  }

  lemma CursorInGrid(vox: Vox, d: Descriptor, slice: int, cv: int, cw: int)
    requires WellFormed(d) && InSlice(vox, d, slice, cv, cw)
    ensures InGrid(vox, Cursor(d, slice, cv, cw))
  {
    var c := Cursor(d, slice, cv, cw);
    forall a | 0 <= a < 3 ensures 0 <= c[a] < vox.Size(a) {
      assert a == d.u || a == d.v || a == d.w;
    }
    assert 0 <= c[0] < vox.Size(0) && 0 <= c[1] < vox.Size(1) && 0 <= c[2] < vox.Size(2);
  }

  /** The voxel under the cursor. */
  function CursorVoxel(vox: Vox, d: Descriptor, slice: int, cv: int, cw: int): Option<ColorId>
    requires vox.Valid() && WellFormed(d) && InSlice(vox, d, slice, cv, cw)
  {
    CursorInGrid(vox, d, slice, cv, cw);
    VoxAt(vox, Cursor(d, slice, cv, cw))
  }

  /** The code's test for "no voxel behind": the first slice in the step direction. */
  predicate NoVoxelBack(d: Descriptor, slice: int, sizeU: int)
  {
    (slice == 0 && d.step == 1) || (slice == sizeU - 1 && d.step != 1)
  }

  /** The neighbour one step back along the face normal, `cursor - normal`. */
  function BackCursor(c: seq<int>, d: Descriptor): (b: seq<int>)
    requires |c| == 3 && WellFormed(d)
    ensures |b| == 3
  {
    [c[0] - d.normal[0], c[1] - d.normal[1], c[2] - d.normal[2]]
  }

  lemma BackCursorOnAxes(c: seq<int>, d: Descriptor)
    requires |c| == 3 && WellFormed(d)
    ensures var b := BackCursor(c, d);
      b[d.u] == c[d.u] - d.step && b[d.v] == c[d.v] && b[d.w] == c[d.w]
  {
  }

  lemma BackInGrid(vox: Vox, d: Descriptor, slice: int, cv: int, cw: int)
    requires WellFormed(d) && InSlice(vox, d, slice, cv, cw)
    requires !NoVoxelBack(d, slice, vox.Size(d.u))
    ensures InGrid(vox, BackCursor(Cursor(d, slice, cv, cw), d))
  {
    var b := BackCursor(Cursor(d, slice, cv, cw), d);
    BackCursorOnAxes(Cursor(d, slice, cv, cw), d);
    forall a | 0 <= a < 3 ensures 0 <= b[a] < vox.Size(a) {
      assert a == d.u || a == d.v || a == d.w;
    }
    assert 0 <= b[0] < vox.Size(0) && 0 <= b[1] < vox.Size(1) && 0 <= b[2] < vox.Size(2);
  }

  /** The voxel behind the cursor, when there is one. */
  function BackVoxel(vox: Vox, d: Descriptor, slice: int, cv: int, cw: int): Option<ColorId>
    requires vox.Valid() && WellFormed(d) && InSlice(vox, d, slice, cv, cw)
    requires !NoVoxelBack(d, slice, vox.Size(d.u))
  {
    BackInGrid(vox, d, slice, cv, cw);
    VoxAt(vox, BackCursor(Cursor(d, slice, cv, cw), d))
  }

  /** The mask cell as the code computes it: the voxel's id, unless the voxel behind exists and has the same id. */
  function MaskCell(vox: Vox, d: Descriptor, slice: int, cv: int, cw: int): Option<ColorId>
    requires vox.Valid() && WellFormed(d) && InSlice(vox, d, slice, cv, cw)
  {
    CursorInGrid(vox, d, slice, cv, cw);
    var c := Cursor(d, slice, cv, cw);
    var voxel := VoxAt(vox, c);
    var back := if NoVoxelBack(d, slice, vox.Size(d.u)) then None else BackVoxel(vox, d, slice, cv, cw);
    if back != None && voxel != None && back == voxel then None else voxel
  }

  /** A face is visible when its voxel is filled and the cell behind it is outside the grid, empty, or of another colour. */
  ghost predicate FaceVisible(vox: Vox, d: Descriptor, slice: int, cv: int, cw: int)
    requires vox.Valid() && WellFormed(d) && InSlice(vox, d, slice, cv, cw)
  {
    CursorInGrid(vox, d, slice, cv, cw);
    var c := Cursor(d, slice, cv, cw);
    var behind := slice - d.step;
    && VoxAt(vox, c) != None
    && (behind < 0 || behind >= vox.Size(d.u) ||
        (InGrid(vox, BackCursor(c, d)) && VoxAt(vox, BackCursor(c, d)) != VoxAt(vox, c)))
  }

  /** The mask holds exactly the visible faces, each with its voxel's colour id. */
  lemma MaskCellIsVisibleFace(vox: Vox, d: Descriptor, slice: int, cv: int, cw: int)
    requires vox.Valid() && WellFormed(d) && InSlice(vox, d, slice, cv, cw)
    ensures MaskCell(vox, d, slice, cv, cw) ==
      (if FaceVisible(vox, d, slice, cv, cw) then CursorVoxel(vox, d, slice, cv, cw) else None)
  {
    CursorInGrid(vox, d, slice, cv, cw);
    var c := Cursor(d, slice, cv, cw);
    BackCursorOnAxes(c, d);
    var behind := slice - d.step;
    if NoVoxelBack(d, slice, vox.Size(d.u)) {
      assert behind < 0 || behind >= vox.Size(d.u);
    } else {
      assert 0 <= behind < vox.Size(d.u);
      BackInGrid(vox, d, slice, cv, cw);
    }
  }

  // ---------------------------------------------------------------------------
  // The mask: a row-major array of optional colour ids

  /** A rectangular grid of mask cells, indexed `g[y][x]`. */
  type Grid = seq<seq<Option<ColorId>>>

  ghost predicate IsGrid(g: Grid, sizeX: nat, sizeY: nat)
  {
    |g| == sizeY && forall j | 0 <= j < sizeY :: |g[j]| == sizeX
  }

  /** The row-major position of cell `(x, y)` in a grid with rows of length `sizeX`. */
  function Index(x: nat, y: nat, sizeX: nat, sizeY: nat): (k: nat)
    requires x < sizeX && y < sizeY
    ensures k < sizeX * sizeY
  {
    RowMajorBound(x, y, sizeX, sizeY);
    y * sizeX + x
  }

  /** Distinct cells have distinct positions. */
  lemma IndexInjective(x1: nat, y1: nat, x2: nat, y2: nat, sizeX: nat, sizeY: nat)
    requires x1 < sizeX && y1 < sizeY && x2 < sizeX && y2 < sizeY
    requires Index(x1, y1, sizeX, sizeY) == Index(x2, y2, sizeX, sizeY)
    ensures x1 == x2 && y1 == y2
  {
    RowMajorInjective(x1, y1, x2, y2, sizeX);
  }

  class Mask {
    const sizeX: nat
    const sizeY: nat
    /** Cell `(x, y)` is stored at `y * sizeX + x`. */
    const data: array<Option<ColorId>>
    /** The contents as rows of cells. */
    ghost var cells: Grid

    ghost predicate Valid()
      reads this, data
    {
      && data.Length == sizeX * sizeY
      && IsGrid(cells, sizeX, sizeY)
      && forall i: nat, j: nat | i < sizeX && j < sizeY :: data[Index(i, j, sizeX, sizeY)] == cells[j][i]
    }

    /** A mask of `sizeX` by `sizeY` empty cells. */
    constructor (sizeX: nat, sizeY: nat)
      ensures Valid() && this.sizeX == sizeX && this.sizeY == sizeY && fresh(data)
      ensures forall i: nat, j: nat | i < sizeX && j < sizeY :: cells[j][i] == None
    {
      this.sizeX := sizeX;
      this.sizeY := sizeY;
      data := new Option<ColorId>[sizeY * sizeX](_ => None);
      cells := seq(sizeY, _ => seq(sizeX, _ => None));
      new;
      assert data.Length == sizeX * sizeY;
      forall i: nat, j: nat | i < sizeX && j < sizeY ensures data[Index(i, j, sizeX, sizeY)] == cells[j][i] {
      }
    }

    function Get(x: nat, y: nat): (c: Option<ColorId>)
      reads this, data
      requires Valid() && x < sizeX && y < sizeY
      ensures c == cells[y][x]
    {
      data[Index(x, y, sizeX, sizeY)]
    }

    /** Stores `c` at `(x, y)`; `x` and `y` must lie inside the mask. */
    method Set(x: nat, y: nat, c: Option<ColorId>)
      requires Valid() && x < sizeX && y < sizeY
      modifies this, data
      ensures Valid() && cells == old(cells)[y := old(cells)[y][x := c]]
    {
      var k := Index(x, y, sizeX, sizeY);
      data[k] := c;
      cells := cells[y := cells[y][x := c]];
      forall i: nat, j: nat | i < sizeX && j < sizeY ensures data[Index(i, j, sizeX, sizeY)] == cells[j][i] {
        if Index(i, j, sizeX, sizeY) == k {
          IndexInjective(i, j, x, y, sizeX, sizeY);
        } else {
          assert data[Index(i, j, sizeX, sizeY)] == old(data[Index(i, j, sizeX, sizeY)]);
        }
      }
    }
  }

  /** `g` is the mask of slice `slice` of direction `di`, cell by cell. */
  ghost predicate MaskOf(vox: Vox, di: DescriptorIndex, slice: nat, g: Grid)
    requires vox.Valid() && slice < vox.Size(Desc(di).u)
  {
    var d := Desc(di);
    && IsGrid(g, vox.Size(d.v), vox.Size(d.w))
    && forall x: nat, y: nat | x < vox.Size(d.v) && y < vox.Size(d.w) :: g[y][x] == MaskCell(vox, d, slice, x, y)
  }

  /** Builds the occlusion mask of slice `slice` of face direction `di`; the mask is `Size(v)` by `Size(w)`. */
  method BuildMask(vox: Vox, di: DescriptorIndex, slice: nat) returns (mask: Mask)
    requires vox.Valid() && slice < vox.Size(Desc(di).u)
    ensures fresh(mask) && fresh(mask.data) && mask.Valid()
    ensures mask.sizeX == vox.Size(Desc(di).v) && mask.sizeY == vox.Size(Desc(di).w)
    ensures MaskOf(vox, di, slice, mask.cells)
  {
    var d := Desc(di);
    mask := new Mask(vox.Size(d.v), vox.Size(d.w));
    var cw := 0;
    while cw < vox.Size(d.w)
      invariant cw <= vox.Size(d.w) && mask.Valid() && fresh(mask.data)
      invariant forall x: nat, y: nat | x < mask.sizeX && y < mask.sizeY ::
        mask.cells[y][x] == if y < cw then MaskCell(vox, d, slice, x, y) else None
    {
      FillMaskRow(vox, d, slice, cw, mask);
      cw := cw + 1;
    }
  }

  /** Fills row `cw` of an otherwise untouched mask with the mask cells of that row. */
  method FillMaskRow(vox: Vox, d: Descriptor, slice: nat, cw: nat, mask: Mask)
    requires vox.Valid() && WellFormed(d) && slice < vox.Size(d.u) && cw < vox.Size(d.w)
    requires mask.Valid() && mask.sizeX == vox.Size(d.v) && mask.sizeY == vox.Size(d.w)
    modifies mask, mask.data
    ensures mask.Valid()
    ensures forall x: nat, y: nat | x < mask.sizeX && y < mask.sizeY ::
      mask.cells[y][x] == if y == cw then MaskCell(vox, d, slice, x, y) else old(mask.cells[y][x])
  {
    var cv := 0;
    while cv < vox.Size(d.v)
      invariant cv <= vox.Size(d.v) && mask.Valid()
      invariant forall x: nat, y: nat | x < mask.sizeX && y < mask.sizeY ::
        mask.cells[y][x] == if y == cw && x < cv then MaskCell(vox, d, slice, x, y) else old(mask.cells[y][x])
    {
      var colorId := ComputeMaskCell(vox, d, slice, cv, cw);
      mask.Set(cv, cw, colorId);
      cv := cv + 1;
    }
  }

  /** Reads the voxel at the cursor and the one behind it and decides whether the face is drawn. */
  method ComputeMaskCell(vox: Vox, d: Descriptor, slice: nat, cv: nat, cw: nat) returns (colorId: Option<ColorId>)
    requires vox.Valid() && WellFormed(d) && InSlice(vox, d, slice, cv, cw)
    ensures colorId == MaskCell(vox, d, slice, cv, cw)
  {
    var c := Cursor(d, slice, cv, cw);
    CursorInGrid(vox, d, slice, cv, cw);
    var noVoxelBack := NoVoxelBack(d, slice, vox.Size(d.u));
    var voxelBack := None;
    if !noVoxelBack {
      BackInGrid(vox, d, slice, cv, cw);
      var b := BackCursor(c, d);
      voxelBack := vox.Get(b[0], b[1], b[2]);
    }
    var voxel := vox.Get(c[0], c[1], c[2]);
    colorId := if voxelBack != None && voxel != None && voxelBack == voxel then None else voxel;
  }

  // ---------------------------------------------------------------------------
  // Quads, vertices and triangle indices

  /** A merged rectangle of mask cells `[x, x + width) x [y, y + height)` in slice `slice` of direction `descriptor`. */
  datatype Quad = Quad(descriptor: DescriptorIndex, slice: nat, x: nat, y: nat, width: nat, height: nat, color: ColorId)

  /** A mesh vertex; the colour is kept as the palette id. */
  datatype Vertex = Vertex(position: seq<int>, normal: seq<int>, color: ColorId)

  datatype Mesh = Mesh(vertices: seq<Vertex>, indices: seq<int>, justLoaded: bool)

  predicate InRect(q: Quad, i: int, j: int)
  {
    q.x <= i < q.x + q.width && q.y <= j < q.y + q.height
  }

  function Add3(a: seq<int>, b: seq<int>): (r: seq<int>)
    requires |a| == 3 && |b| == 3
    ensures |r| == 3 && forall k | 0 <= k < 3 :: r[k] == a[k] + b[k]
  {
    [a[0] + b[0], a[1] + b[1], a[2] + b[2]]
  }

  /** The corner from which the quad's four vertices are laid out. */
  function QuadBase(q: Quad): (b: seq<int>)
    ensures |b| == 3
  {
    var d := Desc(q.descriptor);
    [0, 0, 0][d.u := q.slice + d.q[0]][d.v := q.x + d.q[1]][d.w := q.y + d.q[2]]
  }

  /** The four corners: base, opposite corner, along `v`, along `w`; all carry the outward normal. */
  function QuadVertices(q: Quad): (vs: seq<Vertex>)
    ensures |vs| == 4
    ensures forall k | 0 <= k < 4 :: vs[k].color == q.color
  {
    var d := Desc(q.descriptor);
    var base := QuadBase(q);
    var dv := [0, 0, 0][d.v := q.width];
    var dw := [0, 0, 0][d.w := q.height];
    var out := [-d.normal[0], -d.normal[1], -d.normal[2]];
    [ Vertex(base, out, q.color), Vertex(Add3(Add3(base, dv), dw), out, q.color),
      Vertex(Add3(base, dv), out, q.color), Vertex(Add3(base, dw), out, q.color) ]
  }

  /** Two triangles over the four vertices from `count`, wound according to the step direction. */
  function QuadIndices(step: int, count: int): (ix: seq<int>)
    ensures |ix| == 6
  {
    if step == 1 then [count, count + 1, count + 2, count, count + 3, count + 1]
    else [count, count + 2, count + 1, count, count + 1, count + 3]
  }

  /** The two triangles use each of the quad's four vertices, and no other. */
  lemma QuadIndicesRange(step: int, count: int)
    ensures forall k | 0 <= k < 6 :: count <= QuadIndices(step, count)[k] <= count + 3
    ensures forall c | count <= c <= count + 3 :: c in QuadIndices(step, count)
  {
  }

  /** The vertex buffer emitted for a sequence of quads. */
  function MeshVertices(qs: seq<Quad>): seq<Vertex>
  {
    if qs == [] then [] else MeshVertices(qs[..|qs| - 1]) + QuadVertices(qs[|qs| - 1])
  }

  /** The index buffer emitted for a sequence of quads. */
  function MeshIndices(qs: seq<Quad>): seq<int>
  {
    if qs == [] then []
    else MeshIndices(qs[..|qs| - 1]) + QuadIndices(StepOf(qs[|qs| - 1]), 4 * (|qs| - 1))
  }

  /** The step direction of the quad's face descriptor. */
  function StepOf(q: Quad): int
  {
    Desc(q.descriptor).step
  }

  lemma {:induction false} MeshLengths(qs: seq<Quad>)
    ensures |MeshVertices(qs)| == 4 * |qs| && |MeshIndices(qs)| == 6 * |qs|
  {
    if qs != [] {
      MeshLengths(qs[..|qs| - 1]);
    }
  }

  /** Every index of the mesh is in range of its vertex buffer. */
  lemma {:induction false} MeshIndicesInRange(qs: seq<Quad>)
    ensures forall i | 0 <= i < |MeshIndices(qs)| :: 0 <= MeshIndices(qs)[i] < |MeshVertices(qs)|
  {
    MeshLengths(qs);
    if qs != [] {
      var p := qs[..|qs| - 1];
      MeshIndicesInRange(p);
      MeshLengths(p);
      var ix := MeshIndices(qs);
      forall i | 0 <= i < |ix| ensures 0 <= ix[i] < |MeshVertices(qs)| {
        if i < |MeshIndices(p)| {
          assert ix[i] == MeshIndices(p)[i];
        } else {
          QuadIndicesRange(StepOf(qs[|p|]), 4 * |p|);
          assert ix[i] == QuadIndices(StepOf(qs[|p|]), 4 * |p|)[i - 6 * |p|];
        }
      }
    }
  }

  lemma MeshVerticesSnoc(qs: seq<Quad>, q: Quad)
    ensures MeshVertices(qs + [q]) == MeshVertices(qs) + QuadVertices(q)
  {
    assert (qs + [q])[..|qs|] == qs;
  }

  lemma MeshIndicesSnoc(qs: seq<Quad>, q: Quad)
    ensures MeshIndices(qs + [q]) == MeshIndices(qs) + QuadIndices(StepOf(q), 4 * |qs|)
  {
    assert (qs + [q])[..|qs|] == qs;
  }

  // ---------------------------------------------------------------------------
  // Greedy merging of one mask into rectangles

  /** Some rectangle of `rs` contains cell `(i, j)`. */
  ghost predicate Covered(rs: seq<Quad>, i: int, j: int)
  {
    exists k | 0 <= k < |rs| :: InRect(rs[k], i, j)
  }

  lemma CoveredSnoc(rs: seq<Quad>, q: Quad)
    ensures forall i, j :: Covered(rs + [q], i, j) <==> Covered(rs, i, j) || InRect(q, i, j)
  {
    forall i, j ensures Covered(rs + [q], i, j) <==> Covered(rs, i, j) || InRect(q, i, j) {
      if Covered(rs, i, j) {
        var k :| 0 <= k < |rs| && InRect(rs[k], i, j);
        assert (rs + [q])[k] == rs[k];
      }
      if InRect(q, i, j) {
        assert (rs + [q])[|rs|] == q;
      }
      if Covered(rs + [q], i, j) {
        var k :| 0 <= k < |rs| + 1 && InRect((rs + [q])[k], i, j);
        if k < |rs| {
          assert (rs + [q])[k] == rs[k];
        }
      }
    }
  }

  /** The rectangle lies inside the `sx` by `sy` grid `m` and every cell of it holds the quad's colour. */
  ghost predicate Monochrome(m: Grid, sx: nat, sy: nat, q: Quad)
    requires IsGrid(m, sx, sy)
  {
    && 1 <= q.width && 1 <= q.height && q.x + q.width <= sx && q.y + q.height <= sy
    && forall i: nat, j: nat | InRect(q, i, j) :: m[j][i] == Some(q.color)
  }

  /** No cell lies in two rectangles. */
  ghost predicate Disjoint(rs: seq<Quad>)
  {
    forall k1, k2, i, j | 0 <= k1 < k2 < |rs| && InRect(rs[k1], i, j) :: !InRect(rs[k2], i, j)
  }

  /** The rectangles partition the non-empty cells of `m` into single-colour pieces. */
  ghost predicate Partition(m: Grid, sx: nat, sy: nat, rs: seq<Quad>)
    requires IsGrid(m, sx, sy)
  {
    && (forall k | 0 <= k < |rs| :: Monochrome(m, sx, sy, rs[k]))
    && Disjoint(rs)
    && (forall i: nat, j: nat | i < sx && j < sy && m[j][i] != None :: Covered(rs, i, j))
  }

  /** Extends a run of colour `c` from `(x, y)` along the row as far as it goes. */
  method GrowWidth(mask: Mask, x: nat, y: nat, c: Option<ColorId>) returns (width: nat)
    requires mask.Valid() && x < mask.sizeX && y < mask.sizeY && mask.cells[y][x] == c
    ensures 1 <= width && x + width <= mask.sizeX
    ensures forall i: nat | x <= i < x + width :: mask.cells[y][i] == c
    ensures x + width < mask.sizeX ==> mask.cells[y][x + width] != c
  {
    width := 1;
    while x + width < mask.sizeX && mask.Get(x + width, y) == c
      invariant 1 <= width && x + width <= mask.sizeX
      invariant forall i: nat | x <= i < x + width :: mask.cells[y][i] == c
    {
      width := width + 1;
    }
  }

  /** Some cell of row `row` of `g` in `[x, x + width)` does not have colour `c`. */
  ghost predicate RowBreaks(g: Grid, x: nat, width: nat, row: nat, c: Option<ColorId>)
    requires row < |g| && x + width <= |g[row]|
  {
    exists i: nat | x <= i < x + width :: g[row][i] != c
  }

  /** Extends the run `[x, x + width)` downwards while every cell of the next row has colour `c`. */
  method GrowHeight(mask: Mask, x: nat, y: nat, width: nat, c: Option<ColorId>) returns (height: nat)
    requires mask.Valid() && 1 <= width && x + width <= mask.sizeX && y < mask.sizeY
    requires forall i: nat | x <= i < x + width :: mask.cells[y][i] == c
    ensures 1 <= height && y + height <= mask.sizeY
    ensures forall i: nat, j: nat | x <= i < x + width && y <= j < y + height :: mask.cells[j][i] == c
    ensures y + height < mask.sizeY ==> RowBreaks(mask.cells, x, width, y + height, c)
  {
    height := 1;
    var done := false;
    while y + height < mask.sizeY && !done
      invariant 1 <= height && y + height <= mask.sizeY
      invariant forall i: nat, j: nat | x <= i < x + width && y <= j < y + height :: mask.cells[j][i] == c
      invariant done ==> y + height < mask.sizeY
      invariant done ==> RowBreaks(mask.cells, x, width, y + height, c)
      decreases mask.sizeY - height, if done then 0 else 1
    {
      var row := y + height;
      var k := 0;
      while k < width && !done
        invariant k <= width
        invariant forall i: nat | x <= i < x + k :: mask.cells[row][i] == c
        invariant done ==> k < width && mask.cells[row][x + k] != c
        decreases width - k, if done then 0 else 1
      {
        if mask.Get(x + k, row) == c {
          k := k + 1;
        } else {
          done := true;
        }
      }
      if !done {
        height := height + 1;
      }
    }
  }

  /** Grid `next` is grid `g` with the rectangle `[x, x + width) x [y, y + height)` emptied. */
  ghost predicate ClearedFrom(g: Grid, next: Grid, sx: nat, sy: nat, x: nat, y: nat, width: nat, height: nat)
    requires IsGrid(g, sx, sy) && IsGrid(next, sx, sy)
  {
    forall i: nat, j: nat | i < sx && j < sy ::
      next[j][i] == if x <= i < x + width && y <= j < y + height then None else g[j][i]
  }

  /** Empties every cell of the rectangle `[x, x + width) x [y, y + height)` and leaves the rest alone. */
  method ClearRect(mask: Mask, x: nat, y: nat, width: nat, height: nat)
    requires mask.Valid() && x + width <= mask.sizeX && y + height <= mask.sizeY
    modifies mask, mask.data
    ensures mask.Valid() && ClearedFrom(old(mask.cells), mask.cells, mask.sizeX, mask.sizeY, x, y, width, height)
  {
    var yy := y;
    while yy < y + height
      invariant y <= yy <= y + height && mask.Valid()
      invariant forall i: nat, j: nat | i < mask.sizeX && j < mask.sizeY ::
        mask.cells[j][i] == if x <= i < x + width && y <= j < yy then None else old(mask.cells[j][i])
    {
      var xx := x;
      while xx < x + width
        invariant x <= xx <= x + width && mask.Valid()
        invariant forall i: nat, j: nat | i < mask.sizeX && j < mask.sizeY ::
          mask.cells[j][i] ==
            if x <= i < x + width && (y <= j < yy || (j == yy && i < xx)) then None else old(mask.cells[j][i])
      {
        mask.Set(xx, yy, None);
        xx := xx + 1;
      }
      yy := yy + 1;
    }
  }

  /**
   * The state of the greedy merge before cell `(x, y)`: the mask `cur` is the original mask `m0`
   * with the emitted rectangles cleared, the rectangles are single-coloured in `m0` and pairwise
   * disjoint, and every cell before `(x, y)` in row-major order is already empty.
   */
  ghost predicate MergeInv(m0: Grid, cur: Grid, sx: nat, sy: nat, rects: seq<Quad>, x: nat, y: nat)
    requires IsGrid(m0, sx, sy) && IsGrid(cur, sx, sy)
  {
    && (forall i: nat, j: nat | i < sx && j < sy :: cur[j][i] == if Covered(rects, i, j) then None else m0[j][i])
    && (forall k | 0 <= k < |rects| :: Monochrome(m0, sx, sy, rects[k]))
    && Disjoint(rects)
    && (forall i: nat, j: nat | i < sx && j < sy && (j < y || (j == y && i < x)) :: cur[j][i] == None)
  }

  lemma MergeStart(m0: Grid, sx: nat, sy: nat)
    requires IsGrid(m0, sx, sy)
    ensures MergeInv(m0, m0, sx, sy, [], 0, 0)
  {
  }

  /** An empty cell is skipped. */
  lemma MergeSkip(m0: Grid, cur: Grid, sx: nat, sy: nat, rects: seq<Quad>, x: nat, y: nat)
    requires IsGrid(m0, sx, sy) && IsGrid(cur, sx, sy) && x < sx && y < sy
    requires MergeInv(m0, cur, sx, sy, rects, x, y) && cur[y][x] == None
    ensures MergeInv(m0, cur, sx, sy, rects, x + 1, y)
  {
  }

  /** The end of a row. */
  lemma MergeNextRow(m0: Grid, cur: Grid, sx: nat, sy: nat, rects: seq<Quad>, y: nat)
    requires IsGrid(m0, sx, sy) && IsGrid(cur, sx, sy)
    requires MergeInv(m0, cur, sx, sy, rects, sx, y)
    ensures MergeInv(m0, cur, sx, sy, rects, 0, y + 1)
  {
  }

  /**
   * Emitting a rectangle at `(q.x, q.y)` whose cells all hold its colour in `cur`, and clearing it
   * (giving `next`), keeps the invariant and moves past `(q.x, q.y)`.
   */
  lemma MergeEmit(m0: Grid, cur: Grid, next: Grid, sx: nat, sy: nat, rects: seq<Quad>, q: Quad, x: nat, y: nat)
    requires IsGrid(m0, sx, sy) && IsGrid(cur, sx, sy) && IsGrid(next, sx, sy)
    requires q.x == x && q.y == y && 1 <= q.width && 1 <= q.height && x + q.width <= sx && y + q.height <= sy
    requires MergeInv(m0, cur, sx, sy, rects, x, y)
    requires forall i: nat, j: nat | InRect(q, i, j) :: cur[j][i] == Some(q.color)
    requires ClearedFrom(cur, next, sx, sy, x, y, q.width, q.height)
    ensures MergeInv(m0, next, sx, sy, rects + [q], x + 1, y)
  {
    var rs := rects + [q];
    CoveredSnoc(rects, q);
    forall k | 0 <= k < |rs| ensures Monochrome(m0, sx, sy, rs[k]) {
      if k < |rects| {
        assert rs[k] == rects[k];
      } else {
        forall i: nat, j: nat | InRect(q, i, j) ensures m0[j][i] == Some(q.color) {
          assert cur[j][i] == Some(q.color);
        }
      }
    }
    forall k1, k2, i, j | 0 <= k1 < k2 < |rs| && InRect(rs[k1], i, j) ensures !InRect(rs[k2], i, j) {
      assert rs[k1] == rects[k1];
      if k2 < |rects| {
        assert rs[k2] == rects[k2];
      }
    }
  }

  /** At the end of the scan the rectangles partition the original mask and the mask is empty. */
  lemma MergeDone(m0: Grid, cur: Grid, sx: nat, sy: nat, rects: seq<Quad>)
    requires IsGrid(m0, sx, sy) && IsGrid(cur, sx, sy)
    requires MergeInv(m0, cur, sx, sy, rects, 0, sy)
    ensures Partition(m0, sx, sy, rects)
    ensures forall i: nat, j: nat | i < sx && j < sy :: cur[j][i] == None
  {
    forall i: nat, j: nat | i < sx && j < sy && m0[j][i] != None ensures Covered(rects, i, j) {
      assert cur[j][i] == None;
    }
  }

  /** Every rectangle belongs to slice `slice` of direction `di`. */
  ghost predicate InSliceOf(rects: seq<Quad>, di: DescriptorIndex, slice: nat)
  {
    forall k | 0 <= k < |rects| :: rects[k].descriptor == di && rects[k].slice == slice
  }

  lemma InSliceOfSnoc(rects: seq<Quad>, q: Quad)
    requires InSliceOf(rects, q.descriptor, q.slice)
    ensures InSliceOf(rects + [q], q.descriptor, q.slice)
  {
  }

  /** Appends the four vertices and six indices of `quad`, numbering its vertices from the current vertex count. */
  method EmitQuad(vertices: seq<Vertex>, indices: seq<int>, quad: Quad, ghost done: seq<Quad>, ghost rects: seq<Quad>)
    returns (vertices': seq<Vertex>, indices': seq<int>)
    requires vertices == MeshVertices(done + rects) && indices == MeshIndices(done + rects)
    ensures vertices' == MeshVertices(done + (rects + [quad])) && indices' == MeshIndices(done + (rects + [quad]))
  {
    var count := |vertices|;
    MeshLengths(done + rects);
    MeshVerticesSnoc(done + rects, quad);
    MeshIndicesSnoc(done + rects, quad);
    vertices' := vertices + QuadVertices(quad);
    indices' := indices + QuadIndices(StepOf(quad), count);
    assert done + rects + [quad] == done + (rects + [quad]);
  }

  /**
   * One step of the scan at cell `(x, y)`: a non-empty cell starts a rectangle that is grown
   * along the row, then downwards, emitted as a quad and cleared from the mask.
   */
  method MergeCell(mask: Mask, di: DescriptorIndex, slice: nat, x: nat, y: nat,
                   vertices: seq<Vertex>, indices: seq<int>, ghost done: seq<Quad>, ghost m0: Grid, ghost rects: seq<Quad>)
    returns (vertices': seq<Vertex>, indices': seq<int>, ghost rects': seq<Quad>)
    requires mask.Valid() && x < mask.sizeX && y < mask.sizeY && IsGrid(m0, mask.sizeX, mask.sizeY)
    requires MergeInv(m0, mask.cells, mask.sizeX, mask.sizeY, rects, x, y) && InSliceOf(rects, di, slice)
    requires vertices == MeshVertices(done + rects) && indices == MeshIndices(done + rects)
    modifies mask, mask.data
    ensures mask.Valid()
    ensures MergeInv(m0, mask.cells, mask.sizeX, mask.sizeY, rects', x + 1, y) && InSliceOf(rects', di, slice)
    ensures vertices' == MeshVertices(done + rects') && indices' == MeshIndices(done + rects')
  {
    var colorId := mask.Get(x, y);
    if colorId.Some? {
      ghost var cur := mask.cells;
      var quad;
      vertices', indices', quad := MergeRectangle(mask, di, slice, x, y, colorId.value, vertices, indices, done, rects);
      MergeEmit(m0, cur, mask.cells, mask.sizeX, mask.sizeY, rects, quad, x, y);
      InSliceOfSnoc(rects, quad);
      rects' := rects + [quad];
    } else {
      vertices', indices', rects' := vertices, indices, rects;
      MergeSkip(m0, mask.cells, mask.sizeX, mask.sizeY, rects, x, y);
    }
  }

  /**
   * The rectangle started by non-empty cell `(x, y)` of colour `color`: grown along the row and
   * then downwards over cells of that colour, emitted as a quad and cleared from the mask.
   */
  method MergeRectangle(mask: Mask, di: DescriptorIndex, slice: nat, x: nat, y: nat, color: ColorId,
                        vertices: seq<Vertex>, indices: seq<int>, ghost done: seq<Quad>, ghost rects: seq<Quad>)
    returns (vertices': seq<Vertex>, indices': seq<int>, quad: Quad)
    requires mask.Valid() && x < mask.sizeX && y < mask.sizeY && mask.cells[y][x] == Some(color)
    requires vertices == MeshVertices(done + rects) && indices == MeshIndices(done + rects)
    modifies mask, mask.data
    ensures mask.Valid()
    ensures quad.descriptor == di && quad.slice == slice && quad.x == x && quad.y == y && quad.color == color
    ensures 1 <= quad.width && 1 <= quad.height && x + quad.width <= mask.sizeX && y + quad.height <= mask.sizeY
    ensures forall i: nat, j: nat | InRect(quad, i, j) :: old(mask.cells)[j][i] == Some(color)
    ensures ClearedFrom(old(mask.cells), mask.cells, mask.sizeX, mask.sizeY, x, y, quad.width, quad.height)
    ensures vertices' == MeshVertices(done + (rects + [quad])) && indices' == MeshIndices(done + (rects + [quad]))
  {
    var width := GrowWidth(mask, x, y, Some(color));
    var height := GrowHeight(mask, x, y, width, Some(color));
    quad := Quad(di, slice, x, y, width, height, color);
    vertices', indices' := EmitQuad(vertices, indices, quad, done, rects);
    ClearRect(mask, x, y, width, height);
  }

  /**
   * Greedily merges the mask of slice `slice` of direction `di` into rectangles, appending one
   * quad per rectangle to the buffers. The rectangles partition the non-empty cells of the mask
   * as it was on entry; on exit the mask is empty.
   */
  method MergeSlice(mask: Mask, di: DescriptorIndex, slice: nat, vertices: seq<Vertex>, indices: seq<int>,
                    ghost done: seq<Quad>)
    returns (vertices': seq<Vertex>, indices': seq<int>, ghost rects: seq<Quad>)
    requires mask.Valid()
    requires vertices == MeshVertices(done) && indices == MeshIndices(done)
    modifies mask, mask.data
    ensures mask.Valid() && Partition(old(mask.cells), mask.sizeX, mask.sizeY, rects)
    ensures InSliceOf(rects, di, slice)
    ensures forall i: nat, j: nat | i < mask.sizeX && j < mask.sizeY :: mask.cells[j][i] == None
    ensures vertices' == MeshVertices(done + rects) && indices' == MeshIndices(done + rects)
  {
    ghost var m0 := mask.cells;
    var sx, sy := mask.sizeX, mask.sizeY;
    vertices', indices', rects := vertices, indices, [];
    assert done + rects == done;
    MergeStart(m0, sx, sy);
    var y := 0;
    while y < sy
      invariant y <= sy && mask.Valid()
      invariant MergeInv(m0, mask.cells, sx, sy, rects, 0, y)
      invariant InSliceOf(rects, di, slice)
      invariant vertices' == MeshVertices(done + rects) && indices' == MeshIndices(done + rects)
    {
      var x := 0;
      while x < sx
        invariant x <= sx && mask.Valid()
        invariant MergeInv(m0, mask.cells, sx, sy, rects, x, y)
        invariant InSliceOf(rects, di, slice)
        invariant vertices' == MeshVertices(done + rects) && indices' == MeshIndices(done + rects)
      {
        vertices', indices', rects := MergeCell(mask, di, slice, x, y, vertices', indices', done, m0, rects);
        x := x + 1;
      }
      MergeNextRow(m0, mask.cells, sx, sy, rects, y);
      y := y + 1;
    }
    MergeDone(m0, mask.cells, sx, sy, rects);
  }

  // ---------------------------------------------------------------------------
  // The whole mesh

  /** Quad `q` lies in its slice and covers only mask cells of its own colour. */
  ghost predicate QuadFits(vox: Vox, q: Quad)
    requires vox.Valid()
  {
    var d := Desc(q.descriptor);
    && q.slice < vox.Size(d.u) && 1 <= q.width && 1 <= q.height
    && q.x + q.width <= vox.Size(d.v) && q.y + q.height <= vox.Size(d.w)
    && forall i: nat, j: nat | InRect(q, i, j) :: MaskCell(vox, d, q.slice, i, j) == Some(q.color)
  }

  /** Quads of the same slice of the same direction never overlap. */
  ghost predicate SliceDisjoint(qs: seq<Quad>)
  {
    forall k1, k2, i, j |
      && 0 <= k1 < k2 < |qs| && qs[k1].descriptor == qs[k2].descriptor && qs[k1].slice == qs[k2].slice
      && InRect(qs[k1], i, j)
      :: !InRect(qs[k2], i, j)
  }

  /** Some quad of slice `s` of direction `d` covers mask cell `(i, j)`. */
  ghost predicate CoveredBy(qs: seq<Quad>, d: DescriptorIndex, s: nat, i: int, j: int)
  {
    exists k | 0 <= k < |qs| :: qs[k].descriptor == d && qs[k].slice == s && InRect(qs[k], i, j)
  }

  /** Slice `s` of direction `d` has been meshed once the scan is at step `i` of direction `di`. */
  ghost predicate Meshed(vox: Vox, di: nat, i: nat, d: DescriptorIndex, s: nat)
  {
    d < di || (d == di && if Desc(d).step == 1 then s < i else vox.Size(Desc(d).u) - i <= s)
  }

  /** The slice visited at step `i` of direction `d`: forwards or backwards along the scan axis. */
  function SliceAt(vox: Vox, d: Descriptor, i: nat): nat
    requires WellFormed(d) && i < vox.Size(d.u)
  {
    if d.step == 1 then i else vox.Size(d.u) - (i + 1)
  }

  /** The quads emitted so far fit, do not overlap, and cover every non-empty mask cell of every meshed slice. */
  ghost predicate MeshInv(vox: Vox, qs: seq<Quad>, di: nat, i: nat)
    requires vox.Valid()
  {
    AllFit(vox, qs, di, i) && SliceDisjoint(qs) && AllCovered(vox, qs, di, i)
  }

  lemma MeshStart(vox: Vox)
    requires vox.Valid()
    ensures MeshInv(vox, [], 0, 0)
  {
    assert Desc(0).step == 1;
  }

  /** The quads emitted so far fit their slices and belong to slices meshed before step `i` of direction `di`. */
  ghost predicate AllFit(vox: Vox, qs: seq<Quad>, di: nat, i: nat)
    requires vox.Valid()
  {
    forall k | 0 <= k < |qs| :: QuadFits(vox, qs[k]) && Meshed(vox, di, i, qs[k].descriptor, qs[k].slice)
  }

  /** Every non-empty mask cell of every slice meshed before step `i` of direction `di` is covered by a quad. */
  ghost predicate AllCovered(vox: Vox, qs: seq<Quad>, di: nat, i: nat)
    requires vox.Valid()
  {
    forall d: DescriptorIndex, s: nat, cv: nat, cw: nat |
      Meshed(vox, di, i, d, s) && InSlice(vox, Desc(d), s, cv, cw) && MaskCell(vox, Desc(d), s, cv, cw) != None
      :: CoveredBy(qs, d, s, cv, cw)
  }

  /** The rectangles of the slice at step `i` fit, and the slice counts as meshed from step `i + 1` on. */
  lemma MeshStepFits(vox: Vox, qs: seq<Quad>, di: DescriptorIndex, i: nat, m0: Grid, rects: seq<Quad>)
    requires vox.Valid() && i < vox.Size(Desc(di).u) && AllFit(vox, qs, di, i)
    requires MaskOf(vox, di, SliceAt(vox, Desc(di), i), m0)
    requires forall k | 0 <= k < |rects| :: Monochrome(m0, vox.Size(Desc(di).v), vox.Size(Desc(di).w), rects[k])
    requires InSliceOf(rects, di, SliceAt(vox, Desc(di), i))
    ensures AllFit(vox, qs + rects, di, i + 1)
  {
    var d := Desc(di);
    var sv, sw := vox.Size(d.v), vox.Size(d.w);
    var all := qs + rects;
    forall k | 0 <= k < |all| ensures QuadFits(vox, all[k]) && Meshed(vox, di, i + 1, all[k].descriptor, all[k].slice) {
      if k >= |qs| {
        var r := rects[k - |qs|];
        assert all[k] == r && Monochrome(m0, sv, sw, r);
        forall x: nat, y: nat | InRect(r, x, y) ensures MaskCell(vox, d, r.slice, x, y) == Some(r.color) {
          assert m0[y][x] == Some(r.color);
        }
      } else {
        assert all[k] == qs[k];
      }
    }
  }

  /** Adding the disjoint rectangles of a slice not meshed before keeps quads of one slice disjoint. */
  lemma MeshStepDisjoint(vox: Vox, qs: seq<Quad>, di: DescriptorIndex, i: nat, rects: seq<Quad>)
    requires vox.Valid() && i < vox.Size(Desc(di).u) && AllFit(vox, qs, di, i) && SliceDisjoint(qs)
    requires Disjoint(rects) && InSliceOf(rects, di, SliceAt(vox, Desc(di), i))
    ensures SliceDisjoint(qs + rects)
  {
    var all := qs + rects;
    forall k1, k2 | 0 <= k1 < |qs| <= k2 < |all|
      ensures all[k1].descriptor != all[k2].descriptor || all[k1].slice != all[k2].slice
    {
      assert all[k1] == qs[k1] && all[k2] == rects[k2 - |qs|];
      assert Meshed(vox, di, i, qs[k1].descriptor, qs[k1].slice);
    }
    forall k1, k2, x, y |
      && 0 <= k1 < k2 < |all| && all[k1].descriptor == all[k2].descriptor && all[k1].slice == all[k2].slice
      && InRect(all[k1], x, y)
      ensures !InRect(all[k2], x, y)
    {
      if k2 < |qs| {
        assert all[k1] == qs[k1] && all[k2] == qs[k2];
      } else if k1 >= |qs| {
        assert all[k1] == rects[k1 - |qs|] && all[k2] == rects[k2 - |qs|];
      }
    }
  }

  /** Rectangles covering the non-empty cells of the slice's mask extend the coverage to step `i + 1`. */
  lemma MeshStepCovers(vox: Vox, qs: seq<Quad>, di: DescriptorIndex, i: nat, m0: Grid, rects: seq<Quad>)
    requires vox.Valid() && i < vox.Size(Desc(di).u) && AllCovered(vox, qs, di, i)
    requires MaskOf(vox, di, SliceAt(vox, Desc(di), i), m0)
    requires forall x: nat, y: nat | x < vox.Size(Desc(di).v) && y < vox.Size(Desc(di).w) && m0[y][x] != None :: Covered(rects, x, y)
    requires InSliceOf(rects, di, SliceAt(vox, Desc(di), i))
    ensures AllCovered(vox, qs + rects, di, i + 1)
  {
    var all := qs + rects;
    forall e: DescriptorIndex, s: nat, cv: nat, cw: nat |
      Meshed(vox, di, i + 1, e, s) && InSlice(vox, Desc(e), s, cv, cw) && MaskCell(vox, Desc(e), s, cv, cw) != None
      ensures CoveredBy(all, e, s, cv, cw)
    {
      if Meshed(vox, di, i, e, s) {
        var k :| 0 <= k < |qs| && qs[k].descriptor == e && qs[k].slice == s && InRect(qs[k], cv, cw);
        assert all[k] == qs[k];
      } else {
        assert e == di && s == SliceAt(vox, Desc(di), i);
        assert m0[cw][cv] != None;
        assert Covered(rects, cv, cw);
        var k :| 0 <= k < |rects| && InRect(rects[k], cv, cw);
        assert all[|qs| + k] == rects[k];
      }
    }
  }

  /** Meshing one more slice of direction `di` with a partition `rects` of its mask keeps the invariant. */
  lemma MeshSliceStep(vox: Vox, qs: seq<Quad>, di: DescriptorIndex, i: nat, m0: Grid, rects: seq<Quad>)
    requires vox.Valid() && i < vox.Size(Desc(di).u) && MeshInv(vox, qs, di, i)
    requires MaskOf(vox, di, SliceAt(vox, Desc(di), i), m0)
    requires Partition(m0, vox.Size(Desc(di).v), vox.Size(Desc(di).w), rects)
    requires InSliceOf(rects, di, SliceAt(vox, Desc(di), i))
    ensures MeshInv(vox, qs + rects, di, i + 1)
  {
    MeshStepFits(vox, qs, di, i, m0, rects);
    MeshStepDisjoint(vox, qs, di, i, rects);
    MeshStepCovers(vox, qs, di, i, m0, rects);
  }

  /** After the last slice of direction `di`, the scan moves to direction `di + 1`. */
  lemma MeshNextDirection(vox: Vox, qs: seq<Quad>, di: DescriptorIndex)
    requires vox.Valid() && MeshInv(vox, qs, di, vox.Size(Desc(di).u))
    ensures MeshInv(vox, qs, di + 1, 0)
  {
    forall k | 0 <= k < |qs| ensures Meshed(vox, di + 1, 0, qs[k].descriptor, qs[k].slice) {
      assert QuadFits(vox, qs[k]);
    }
    forall e: DescriptorIndex, s: nat, cv: nat, cw: nat |
      Meshed(vox, di + 1, 0, e, s) && InSlice(vox, Desc(e), s, cv, cw) && MaskCell(vox, Desc(e), s, cv, cw) != None
      ensures CoveredBy(qs, e, s, cv, cw)
    {
      assert Meshed(vox, di, vox.Size(Desc(di).u), e, s);
    }
  }

  /** Meshes step `i` of direction `di`: builds the slice's mask and merges it into quads. */
  method MeshSlice(vox: Vox, di: DescriptorIndex, i: nat, vertices: seq<Vertex>, indices: seq<int>, ghost qs: seq<Quad>)
    returns (vertices': seq<Vertex>, indices': seq<int>, ghost qs': seq<Quad>)
    requires vox.Valid() && i < vox.Size(Desc(di).u) && MeshInv(vox, qs, di, i)
    requires vertices == MeshVertices(qs) && indices == MeshIndices(qs)
    ensures MeshInv(vox, qs', di, i + 1)
    ensures vertices' == MeshVertices(qs') && indices' == MeshIndices(qs')
  {
    var slice := SliceAt(vox, Desc(di), i);
    var mask := BuildMask(vox, di, slice);
    ghost var m0 := mask.cells;
    ghost var rects;
    vertices', indices', rects := MergeSlice(mask, di, slice, vertices, indices, qs);
    MeshSliceStep(vox, qs, di, i, m0, rects);
    qs' := qs + rects;
  }

  /**
   * Meshes a voxel model: for each of the six directions and each slice, builds the mask and
   * merges it. Returns no mesh exactly when the model was never written to. The ghost `quads` are
   * the emitted rectangles: each fits its slice and colour, quads of one slice never overlap, and
   * together they cover every visible face.
   */
  method GreedyMeshOf(vox: Vox) returns (mesh: Option<Mesh>, ghost quads: seq<Quad>)
    requires vox.Valid()
    ensures mesh.None? <==> !vox.touched
    ensures mesh.Some? ==>
      && mesh.value.vertices == MeshVertices(quads) && mesh.value.indices == MeshIndices(quads)
      && mesh.value.justLoaded
    ensures forall k | 0 <= k < |quads| :: QuadFits(vox, quads[k])
    ensures SliceDisjoint(quads)
    ensures forall d: DescriptorIndex, s: nat, cv: nat, cw: nat | InSlice(vox, Desc(d), s, cv, cw) ::
      FaceVisible(vox, Desc(d), s, cv, cw) <==> CoveredBy(quads, d, s, cv, cw)
  {
    var vertices: seq<Vertex> := [];
    var indices: seq<int> := [];
    quads := [];
    MeshStart(vox);
    var di := 0;
    while di < 6
      invariant di <= 6 && MeshInv(vox, quads, di, 0)
      invariant vertices == MeshVertices(quads) && indices == MeshIndices(quads)
    {
      var d := Desc(di);
      var i := 0;
      while i < vox.Size(d.u)
        invariant i <= vox.Size(d.u) && MeshInv(vox, quads, di, i)
        invariant vertices == MeshVertices(quads) && indices == MeshIndices(quads)
      {
        vertices, indices, quads := MeshSlice(vox, di, i, vertices, indices, quads);
        i := i + 1;
      }
      MeshNextDirection(vox, quads, di);
      di := di + 1;
    }
    MeshCoversVisibleFaces(vox, quads);
    if vox.touched {
      mesh := Some(Mesh(vertices, indices, true));
    } else {
      mesh := None;
    }
  }

  /** Once every direction is meshed, a mask face is covered by a quad exactly when it is visible. */
  lemma MeshCoversVisibleFaces(vox: Vox, qs: seq<Quad>)
    requires vox.Valid() && MeshInv(vox, qs, 6, 0)
    ensures forall d: DescriptorIndex, s: nat, cv: nat, cw: nat | InSlice(vox, Desc(d), s, cv, cw) ::
      FaceVisible(vox, Desc(d), s, cv, cw) <==> CoveredBy(qs, d, s, cv, cw)
  {
    forall d: DescriptorIndex, s: nat, cv: nat, cw: nat | InSlice(vox, Desc(d), s, cv, cw)
      ensures FaceVisible(vox, Desc(d), s, cv, cw) <==> CoveredBy(qs, d, s, cv, cw)
    {
      MaskCellIsVisibleFace(vox, Desc(d), s, cv, cw);
      assert Meshed(vox, 6, 0, d, s);
      if CoveredBy(qs, d, s, cv, cw) {
        var k :| 0 <= k < |qs| && qs[k].descriptor == d && qs[k].slice == s && InRect(qs[k], cv, cw);
        assert QuadFits(vox, qs[k]);
      }
    }
  }
}
