/**
 * The dense voxel grid (`Vox`) a chunk is composed into and meshed from: a box of
 * optional colour ids and a `touched` flag that records whether any cell was ever
 * written. Only the behaviour the world code relies on is modelled: reading a cell,
 * writing a colour id into a cell, and the flag. The cells are held as z-slices of
 * y-rows of x-cells.
 */
module Voxels {

  import opened Common

  /** A palette index (`u8`). */
  type ColorId = c: int | 0 <= c < 256

  datatype Vox = Vox(sizeX: nat, sizeY: nat, sizeZ: nat, cells: seq<seq<seq<Option<ColorId>>>>, touched: bool)
  {
    ghost predicate Valid()
    {
      && |cells| == sizeZ
      && (forall z | 0 <= z < sizeZ :: |cells[z]| == sizeY)
      && (forall z, y | 0 <= z < sizeZ && 0 <= y < sizeY :: |cells[z][y]| == sizeX)
    }

    /** The size along axis 0 (x), 1 (y) or 2 (z). */
    function Size(axis: nat): nat
      requires axis < 3
    {
      if axis == 0 then sizeX else if axis == 1 then sizeY else sizeZ
    }

    predicate InBounds(x: nat, y: nat, z: nat)
    {
      x < sizeX && y < sizeY && z < sizeZ
    }

    function Get(x: nat, y: nat, z: nat): Option<ColorId>
      requires Valid() && InBounds(x, y, z)
    {
      cells[z][y][x]
    }

    /** Some cell of the grid is non-empty. */
    ghost predicate HasVoxel()
      requires Valid()
    {
      exists x: nat, y: nat, z: nat | InBounds(x, y, z) :: Get(x, y, z) != None
    }

    /** `touched` is exactly "some cell is non-empty": every write sets it and only writes fill cells. */
    ghost predicate TouchedExact()
      requires Valid()
    {
      touched <==> HasVoxel()
    }

    /** `Vox::set`: write a colour id into one cell and mark the grid touched; no other cell changes. */
    function Set(x: nat, y: nat, z: nat, c: ColorId): (r: Vox)
      requires Valid() && InBounds(x, y, z)
      ensures r.Valid() && r.sizeX == sizeX && r.sizeY == sizeY && r.sizeZ == sizeZ
      ensures r.touched
      ensures r.Get(x, y, z) == Some(c)
      ensures forall x': nat, y': nat, z': nat | InBounds(x', y', z') && (x', y', z') != (x, y, z) ::
        r.Get(x', y', z') == Get(x', y', z')
      ensures TouchedExact() ==> r.TouchedExact()
    {
      var r := Vox(sizeX, sizeY, sizeZ, cells[z := cells[z][y := cells[z][y][x := Some(c)]]], true);
      assert r.Get(x, y, z) != None;
      r
    }
  }

  /** `Vox::new`: an untouched grid of the given size, every cell empty. */
  function NewVox(sx: nat, sy: nat, sz: nat): (v: Vox)
    ensures v.Valid() && v.sizeX == sx && v.sizeY == sy && v.sizeZ == sz
    ensures !v.touched && v.TouchedExact()
    ensures forall x: nat, y: nat, z: nat | v.InBounds(x, y, z) :: v.Get(x, y, z) == None
  {
    Vox(sx, sy, sz, seq(sz, _ => seq(sy, _ => seq(sx, _ => None))), false)
  }
}
