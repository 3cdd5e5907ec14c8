/**
 * The flow-field pathfinder of the RTS client (`FlowField` in rts/src/client/navigation.rs).
 *
 * A field is a `width × height` grid of `u32` costs. `u32::MAX` marks a blocked cell and
 * `u32::MAX - 1` a cell not yet reached. `set_destination_cell` relaxes costs outwards from
 * a destination with a worklist (100 per orthogonal step, 141 per diagonal step), and
 * `calculate_flow` then stores in every cell the direction of its steepest descent.
 *
 * The cells are stored row by row at index `width * y + x` (see `Index`); the program
 * itself computes `height * y + x`, which is only right on square fields (`AsWrittenIndex`).
 */
module Navigation {

  import opened Common

  /** The cost that marks a blocked cell. */
  const BLOCKED: U32 := U32_MAX
  /** The cost of a cell the last relaxation has not reached. */
  const UNREACHED: U32 := U32_MAX - 1
  const ORTHOGONAL_COST: nat := 100
  const DIAGONAL_COST: nat := 141

  const I32_MODULUS: int := 0x1_0000_0000
  const ISIZE_MIN: int := -0x8000_0000_0000_0000
  const ISIZE_MAX: int := 0x7FFF_FFFF_FFFF_FFFF

  datatype Cell = Cell(x: nat, y: nat)

  /** A flow direction; `calculate_flow` only ever stores components in -1..1. */
  datatype IVec2 = IVec2(x: int, y: int)

  const ZERO := IVec2(0, 0)

  predicate InGrid(width: nat, height: nat, c: Cell)
  {
    c.x < width && c.y < height
  }

  /*
   * Cell indexing
   */

  /** Row-major position of a cell in the `values` and `flow` buffers. */
  function Index(width: nat, c: Cell): nat
  {
    width * c.y + c.x
  }

  lemma IndexInRange(width: nat, height: nat, c: Cell)
    requires InGrid(width, height, c)
    ensures Index(width, c) < width * height
  {
    RowMajorBound(c.x, c.y, width, height);
  }

  lemma IndexInjective(width: nat, c: Cell, d: Cell)
    requires c.x < width && d.x < width && Index(width, c) == Index(width, d)
    ensures c == d
  {
    RowMajorInjective(c.x, c.y, d.x, d.y, width);
  }

  /** Every buffer position belongs to exactly one cell: the layout is a bijection. */
  function CellAt(width: nat, height: nat, i: nat): (c: Cell)
    requires i < width * height
    ensures InGrid(width, height, c) && Index(width, c) == i
  {
    assert width != 0;
    var c := Cell(i % width, i / width);
    assert i == width * (i / width) + i % width;
    assert c.y < height by {
      if c.y >= height {
        MulMonotone(height, c.y, width);
      }
    }
    c
  }

  /** The index as the program writes it. */
  function AsWrittenIndex(height: nat, c: Cell): nat
  {
    height * c.y + c.x
  }

  /** On a field wider than it is tall, two distinct cells share one as-written index. */
  lemma AsWrittenIndexCollides(width: nat, height: nat)
    requires width > height >= 2
    ensures InGrid(width, height, Cell(height, 0)) && InGrid(width, height, Cell(0, 1))
    ensures AsWrittenIndex(height, Cell(height, 0)) == AsWrittenIndex(height, Cell(0, 1))
  {
  }

  /** On a field taller than it is wide, the last cell's as-written index is past the buffer. */
  lemma AsWrittenIndexOverruns(width: nat, height: nat)
    requires height > width >= 1
    ensures InGrid(width, height, Cell(width - 1, height - 1))
    ensures AsWrittenIndex(height, Cell(width - 1, height - 1)) >= width * height
  {
    var d := height - width;
    assert height * (height - 1) == (width + d) * (height - 1);
    assert (width + d) * (height - 1) == width * height - width + d * (height - 1);
    assert d * (height - 1) >= 1 by { MulMonotone(1, d, height - 1); }
  }

  /** On the square fields the program is used with, the two indexings agree. */
  lemma AsWrittenIndexOnSquare(width: nat, height: nat, c: Cell)
    requires width == height
    ensures AsWrittenIndex(height, c) == Index(width, c)
  {
  }

  /*
   * Costs as values
   */

  /** The cost stored for cell `c` in the buffer `vs`. */
  function At(vs: seq<U32>, width: nat, height: nat, c: Cell): U32
    requires |vs| == width * height && InGrid(width, height, c)
  {
    IndexInRange(width, height, c);
    vs[Index(width, c)]
  }

  /** `vs` with the cost of cell `c` replaced by `v`. */
  function With(vs: seq<U32>, width: nat, height: nat, c: Cell, v: U32): (r: seq<U32>)
    requires |vs| == width * height && InGrid(width, height, c)
    ensures |r| == |vs|
  {
    IndexInRange(width, height, c);
    vs[Index(width, c) := v]
  }

  lemma AtWith(vs: seq<U32>, width: nat, height: nat, c: Cell, v: U32, d: Cell)
    requires |vs| == width * height && InGrid(width, height, c) && InGrid(width, height, d)
    ensures At(With(vs, width, height, c, v), width, height, d) == if d == c then v else At(vs, width, height, d)
  {
    IndexInRange(width, height, c);
    IndexInRange(width, height, d);
    if d != c && Index(width, d) == Index(width, c) {
      IndexInjective(width, c, d);
    }
  }

  predicate Passable(vs: seq<U32>, width: nat, height: nat, c: Cell)
    requires |vs| == width * height && InGrid(width, height, c)
  {
    At(vs, width, height, c) != BLOCKED
  }

  /** Only the blocked cells (`u32::MAX`) and unreached cells (`u32::MAX - 1`) occur. */
  predicate Prepared(vs: seq<U32>)
  {
    forall i | 0 <= i < |vs| :: vs[i] >= UNREACHED
  }

  /** No cost of `vs` has gone up in `vs'`. */
  predicate Descends(vs: seq<U32>, vs': seq<U32>)
  {
    |vs| == |vs'| && forall i | 0 <= i < |vs| :: vs'[i] <= vs[i]
  }

  /** `vs` and `vs'` block the same cells. */
  predicate SameBlocked(vs: seq<U32>, vs': seq<U32>)
  {
    |vs| == |vs'| && forall i | 0 <= i < |vs| :: (vs[i] == BLOCKED <==> vs'[i] == BLOCKED)
  }

  function Sum(s: seq<U32>): nat
  {
    if s == [] then 0 else s[0] + Sum(s[1..])
  }

  lemma {:induction false} SumUpdate(s: seq<U32>, i: nat, v: U32)
    requires i < |s|
    ensures Sum(s[i := v]) == Sum(s) - s[i] + v
    decreases |s|
  {
    if i == 0 {
      assert s[i := v][1..] == s[1..];
    } else {
      assert s[i := v][1..] == s[1..][i - 1 := v];
      SumUpdate(s[1..], i - 1, v);
    }
  }

  /*
   * Neighbourhoods
   */

  predicate Orthogonal(c: Cell, n: Cell)
  {
    (n.y == c.y && (n.x == c.x + 1 || n.x + 1 == c.x)) || (n.x == c.x && (n.y == c.y + 1 || n.y + 1 == c.y))
  }

  predicate Diagonal(c: Cell, n: Cell)
  {
    (n.x == c.x + 1 || n.x + 1 == c.x) && (n.y == c.y + 1 || n.y + 1 == c.y)
  }

  /** `get_neighbours`: the orthogonal neighbours in the order right, left, up, down. */
  function Neighbours(width: nat, height: nat, c: Cell): (r: seq<Cell>)
    ensures forall n | n in r :: Orthogonal(c, n)
    ensures InGrid(width, height, c) ==> forall n :: n in r <==> InGrid(width, height, n) && Orthogonal(c, n)
  {
    (if c.x + 1 < width then [Cell(c.x + 1, c.y)] else [])
    + (if c.x > 0 then [Cell(c.x - 1, c.y)] else [])
    + (if c.y + 1 < height then [Cell(c.x, c.y + 1)] else [])
    + (if c.y > 0 then [Cell(c.x, c.y - 1)] else [])
  }

  /**
   * `get_neighbours_cross`: the diagonal neighbours whose two shared orthogonal neighbours
   * are not blocked, so that no diagonal step cuts a blocked corner.
   */
  function NeighboursCross(width: nat, height: nat, vs: seq<U32>, c: Cell): (r: seq<Cell>)
    requires |vs| == width * height && InGrid(width, height, c)
    ensures forall n :: n in r <==>
      InGrid(width, height, n) && Diagonal(c, n)
      && Passable(vs, width, height, Cell(n.x, c.y)) && Passable(vs, width, height, Cell(c.x, n.y))
  {
    var right, left, up, down := c.x + 1 < width, c.x > 0, c.y + 1 < height, c.y > 0;
    (if right && up && Passable(vs, width, height, Cell(c.x + 1, c.y)) && Passable(vs, width, height, Cell(c.x, c.y + 1))
     then [Cell(c.x + 1, c.y + 1)] else [])
    + (if right && down && Passable(vs, width, height, Cell(c.x + 1, c.y)) && Passable(vs, width, height, Cell(c.x, c.y - 1))
       then [Cell(c.x + 1, c.y - 1)] else [])
    + (if left && up && Passable(vs, width, height, Cell(c.x - 1, c.y)) && Passable(vs, width, height, Cell(c.x, c.y + 1))
       then [Cell(c.x - 1, c.y + 1)] else [])
    + (if left && down && Passable(vs, width, height, Cell(c.x - 1, c.y)) && Passable(vs, width, height, Cell(c.x, c.y - 1))
       then [Cell(c.x - 1, c.y - 1)] else [])
  }

  /** The diagonal neighbourhood depends only on which cells are blocked. */
  lemma CrossStable(width: nat, height: nat, vs: seq<U32>, vs': seq<U32>, c: Cell)
    requires |vs| == width * height && InGrid(width, height, c) && SameBlocked(vs, vs')
    ensures NeighboursCross(width, height, vs, c) == NeighboursCross(width, height, vs', c)
  {
    forall d | InGrid(width, height, d)
      ensures Passable(vs, width, height, d) == Passable(vs', width, height, d)
    {
      IndexInRange(width, height, d);
    }
  }

  /** The unit test on a fresh 10×10 field: an interior cell has four orthogonal neighbours. */
  lemma NeighboursOfInteriorCell()
    ensures var r := Neighbours(10, 10, Cell(3, 3));
      |r| == 4 && Cell(3, 4) in r && Cell(3, 2) in r && Cell(2, 3) in r && Cell(4, 3) in r
  {
  }

  /** The unit test on a fresh 10×10 field: the corner has two orthogonal neighbours. */
  lemma NeighboursOfCornerCell()
    ensures Neighbours(10, 10, Cell(0, 0)) == [Cell(1, 0), Cell(0, 1)]
  {
  }

  /** The unit tests on a fresh 10×10 field: four diagonals inside, one in the far corner. */
  lemma NeighboursCrossOnFreshField()
    ensures var vs := seq(100, _ => UNREACHED);
      var r := NeighboursCross(10, 10, vs, Cell(3, 3));
      |r| == 4 && Cell(4, 4) in r && Cell(2, 4) in r && Cell(4, 2) in r && Cell(2, 2) in r
    ensures NeighboursCross(10, 10, seq(100, _ => UNREACHED), Cell(9, 9)) == [Cell(8, 8)]
  {
  }

  /*
   * The relaxation fixpoint
   */

  /** Every cell of `cands` is blocked or costs at most `bound`. */
  ghost predicate RelaxedOver(vs: seq<U32>, width: nat, height: nat, cands: seq<Cell>, bound: int)
    requires |vs| == width * height && forall n | n in cands :: InGrid(width, height, n)
  {
    forall n | n in cands :: At(vs, width, height, n) == BLOCKED || At(vs, width, height, n) <= bound
  }

  /** No neighbour of `d` could be lowered through `d` any further. */
  ghost predicate Relaxed(vs: seq<U32>, width: nat, height: nat, d: Cell)
    requires |vs| == width * height && InGrid(width, height, d)
  {
    var v := At(vs, width, height, d);
    RelaxedOver(vs, width, height, Neighbours(width, height, d), v + ORTHOGONAL_COST)
    && RelaxedOver(vs, width, height, NeighboursCross(width, height, vs, d), v + DIAGONAL_COST)
  }

  /** Every reached cell is relaxed. */
  ghost predicate Settled(vs: seq<U32>, width: nat, height: nat)
    requires |vs| == width * height
  {
    forall d | InGrid(width, height, d) :: At(vs, width, height, d) < UNREACHED ==> Relaxed(vs, width, height, d)
  }

  /** The worklist invariant: every reached cell is relaxed or still queued. */
  ghost predicate SettledExcept(vs: seq<U32>, width: nat, height: nat, open: seq<Cell>)
    requires |vs| == width * height
  {
    forall d | InGrid(width, height, d) :: d in open || At(vs, width, height, d) >= UNREACHED || Relaxed(vs, width, height, d)
  }

  lemma RelaxedOverDescends(vs: seq<U32>, vs': seq<U32>, width: nat, height: nat, cands: seq<Cell>, bound: int)
    requires |vs| == width * height && forall n | n in cands :: InGrid(width, height, n)
    requires Descends(vs, vs') && SameBlocked(vs, vs')
    requires RelaxedOver(vs, width, height, cands, bound)
    ensures RelaxedOver(vs', width, height, cands, bound)
  {
    forall n | n in cands
      ensures At(vs', width, height, n) == BLOCKED || At(vs', width, height, n) <= bound
    {
      IndexInRange(width, height, n);
    }
  }

  /** Lowering costs keeps the worklist invariant as long as every lowered cell is queued. */
  lemma SettledExceptDescends(vs: seq<U32>, vs': seq<U32>, width: nat, height: nat, open: seq<Cell>, open': seq<Cell>)
    requires |vs| == width * height && Descends(vs, vs') && SameBlocked(vs, vs')
    requires forall d | InGrid(width, height, d) && At(vs', width, height, d) != At(vs, width, height, d) :: d in open'
    requires forall d | d in open :: d in open'
    requires SettledExcept(vs, width, height, open)
    ensures SettledExcept(vs', width, height, open')
  {
    forall d | InGrid(width, height, d) && d !in open' && At(vs', width, height, d) < UNREACHED
      ensures Relaxed(vs', width, height, d)
    {
      assert Relaxed(vs, width, height, d);
      RelaxedOverDescends(vs, vs', width, height, Neighbours(width, height, d), At(vs, width, height, d) + ORTHOGONAL_COST);
      CrossStable(width, height, vs, vs', d);
      RelaxedOverDescends(vs, vs', width, height, NeighboursCross(width, height, vs, d), At(vs, width, height, d) + DIAGONAL_COST);
    }
  }

  /** Once the popped cell `c` is relaxed it may leave the worklist. */
  lemma SettledExceptRelease(vs: seq<U32>, width: nat, height: nat, c: Cell, open: seq<Cell>)
    requires |vs| == width * height && InGrid(width, height, c)
    requires SettledExcept(vs, width, height, [c] + open) && Relaxed(vs, width, height, c)
    ensures SettledExcept(vs, width, height, open)
  {
    forall d | InGrid(width, height, d) && d !in open && At(vs, width, height, d) < UNREACHED
      ensures Relaxed(vs, width, height, d)
    {
      assert d in [c] + open || Relaxed(vs, width, height, d);
    }
  }

  /** On a prepared field, only the destination is reached once it has been set to 0. */
  lemma PreparedStart(vs: seq<U32>, width: nat, height: nat, c: Cell)
    requires |vs| == width * height && InGrid(width, height, c) && Prepared(vs)
    ensures SettledExcept(With(vs, width, height, c, 0), width, height, [c])
    ensures Supported(With(vs, width, height, c, 0), width, height, c, map[])
  {
    forall d | InGrid(width, height, d) && d != c
      ensures At(With(vs, width, height, c, 0), width, height, d) >= UNREACHED
    {
      AtWith(vs, width, height, c, 0, d);
      IndexInRange(width, height, d);
    }
  }

  /**
   * `d` got its cost through `p`: `p` is an orthogonal neighbour at least 100 cheaper, or a
   * diagonal neighbour, past two unblocked corners, at least 141 cheaper.
   */
  ghost predicate LinkedThrough(vs: seq<U32>, width: nat, height: nat, d: Cell, p: Cell)
    requires |vs| == width * height && InGrid(width, height, d)
  {
    && InGrid(width, height, p)
    && ((Orthogonal(d, p) && At(vs, width, height, p) + ORTHOGONAL_COST <= At(vs, width, height, d))
        || (Diagonal(d, p) && Passable(vs, width, height, Cell(p.x, d.y)) && Passable(vs, width, height, Cell(d.x, p.y))
            && At(vs, width, height, p) + DIAGONAL_COST <= At(vs, width, height, d)))
  }

  /** Every reached cell but the destination is linked through the cell `parent` records for it. */
  ghost predicate Supported(vs: seq<U32>, width: nat, height: nat, dest: Cell, parent: map<Cell, Cell>)
    requires |vs| == width * height
  {
    forall d | InGrid(width, height, d) && d != dest && At(vs, width, height, d) < UNREACHED ::
      d in parent && LinkedThrough(vs, width, height, d, parent[d])
  }

  /** `d` costs exactly as much as reaching it from one of the neighbours the relaxation steps from. */
  ghost predicate ReachedThroughNeighbour(vs: seq<U32>, width: nat, height: nat, d: Cell)
    requires |vs| == width * height && InGrid(width, height, d)
  {
    || (exists n | n in Neighbours(width, height, d) :: At(vs, width, height, n) + ORTHOGONAL_COST == At(vs, width, height, d))
    || (exists n | n in NeighboursCross(width, height, vs, d) :: At(vs, width, height, n) + DIAGONAL_COST == At(vs, width, height, d))
  }

  /**
   * One relaxation from `current` keeps every reached cell supported, once every lowered cell
   * records `current` as its parent: each lowered cell costs exactly `current`'s cost plus the
   * step, and the other links only get slack as costs fall.
   */
  lemma SupportedStep(vs: seq<U32>, vs': seq<U32>, width: nat, height: nat, dest: Cell, parent: map<Cell, Cell>,
                      current: Cell, cands: seq<Cell>, cost: nat, parent': map<Cell, Cell>)
    requires |vs| == width * height && InGrid(width, height, current)
    requires Descends(vs, vs') && SameBlocked(vs, vs') && Supported(vs, width, height, dest, parent)
    requires At(vs', width, height, current) == At(vs, width, height, current)
    requires forall n | n in cands :: InGrid(width, height, n)
    requires cost == ORTHOGONAL_COST ==> forall n | n in cands :: Orthogonal(n, current)
    requires cost != ORTHOGONAL_COST ==> cost == DIAGONAL_COST && cands == NeighboursCross(width, height, vs, current)
    requires forall d | InGrid(width, height, d) && At(vs', width, height, d) != At(vs, width, height, d) ::
      d in cands && At(vs', width, height, d) == At(vs, width, height, current) + cost
    requires forall d | InGrid(width, height, d) && At(vs', width, height, d) != At(vs, width, height, d) ::
      d in parent' && parent'[d] == current
    requires forall d | InGrid(width, height, d) && At(vs', width, height, d) == At(vs, width, height, d) && d in parent ::
      d in parent' && parent'[d] == parent[d]
    ensures Supported(vs', width, height, dest, parent')
  {
    forall d | InGrid(width, height, d) && d != dest && At(vs', width, height, d) < UNREACHED
      ensures d in parent' && LinkedThrough(vs', width, height, d, parent'[d])
    {
      if At(vs', width, height, d) == At(vs, width, height, d) {
        assert d in parent;
      }
      SupportedCell(vs, vs', width, height, dest, parent, current, cands, cost, d, parent'[d]);
    }
  }

  /** `SupportedStep` for one cell `d`, whose new parent is `p`. */
  lemma SupportedCell(vs: seq<U32>, vs': seq<U32>, width: nat, height: nat, dest: Cell, parent: map<Cell, Cell>,
                      current: Cell, cands: seq<Cell>, cost: nat, d: Cell, p: Cell)
    requires |vs| == width * height && InGrid(width, height, current)
    requires Descends(vs, vs') && SameBlocked(vs, vs') && Supported(vs, width, height, dest, parent)
    requires At(vs', width, height, current) == At(vs, width, height, current)
    requires cost == ORTHOGONAL_COST ==> forall n | n in cands :: Orthogonal(n, current)
    requires cost != ORTHOGONAL_COST ==> cost == DIAGONAL_COST && cands == NeighboursCross(width, height, vs, current)
    requires InGrid(width, height, d) && d != dest && At(vs', width, height, d) < UNREACHED
    requires At(vs', width, height, d) != At(vs, width, height, d) ==>
      d in cands && At(vs', width, height, d) == At(vs, width, height, current) + cost && p == current
    requires At(vs', width, height, d) == At(vs, width, height, d) ==> d in parent && p == parent[d]
    ensures LinkedThrough(vs', width, height, d, p)
  {
    IndexInRange(width, height, d);
    IndexInRange(width, height, p);
    IndexInRange(width, height, Cell(p.x, d.y));
    IndexInRange(width, height, Cell(d.x, p.y));
    if At(vs', width, height, d) != At(vs, width, height, d) {
      IndexInRange(width, height, current);
      if cost != ORTHOGONAL_COST {
        assert Passable(vs, width, height, Cell(current.x, d.y)) && Passable(vs, width, height, Cell(d.x, current.y));
      }
    } else {
      assert LinkedThrough(vs, width, height, d, p);
    }
  }

  /**
   * One round of `set_destination_cell` from popped cell `c`: with every cell the orthogonal
   * relaxation lowered, then every cell the diagonal one lowered, recording `c` as its parent,
   * the reached cells stay supported.
   */
  lemma PopSupported(vsA: seq<U32>, vsB: seq<U32>, vsC: seq<U32>, width: nat, height: nat, dest: Cell,
                     parent: map<Cell, Cell>, c: Cell, ns: seq<Cell>, cs: seq<Cell>) returns (parent': map<Cell, Cell>)
    requires |vsA| == width * height && InGrid(width, height, c) && Supported(vsA, width, height, dest, parent)
    requires Descends(vsA, vsB) && SameBlocked(vsA, vsB) && Descends(vsB, vsC) && SameBlocked(vsB, vsC)
    requires ns == Neighbours(width, height, c) && cs == NeighboursCross(width, height, vsB, c)
    requires forall d | InGrid(width, height, d) && At(vsB, width, height, d) != At(vsA, width, height, d) ::
      d in ns && At(vsB, width, height, d) == At(vsA, width, height, c) + ORTHOGONAL_COST
    requires forall d | InGrid(width, height, d) && At(vsC, width, height, d) != At(vsB, width, height, d) ::
      d in cs && At(vsC, width, height, d) == At(vsA, width, height, c) + DIAGONAL_COST
    ensures Supported(vsC, width, height, dest, parent')
  {
    assert At(vsB, width, height, c) == At(vsA, width, height, c);
    assert At(vsC, width, height, c) == At(vsB, width, height, c);
    var pB := Reparent(vsA, vsB, width, height, parent, c, ns);
    SupportedStep(vsA, vsB, width, height, dest, parent, c, ns, ORTHOGONAL_COST, pB);
    parent' := Reparent(vsB, vsC, width, height, pB, c, cs);
    SupportedStep(vsB, vsC, width, height, dest, pB, c, cs, DIAGONAL_COST, parent');
  }

  /** Records `c` as the parent of every cell of `cands` whose cost changed from `vs` to `vs'`. */
  lemma Reparent(vs: seq<U32>, vs': seq<U32>, width: nat, height: nat, parent: map<Cell, Cell>, c: Cell, cands: seq<Cell>)
    returns (parent': map<Cell, Cell>)
    requires |vs| == width * height && |vs'| == width * height
    requires forall d | InGrid(width, height, d) && At(vs', width, height, d) != At(vs, width, height, d) :: d in cands
    ensures forall d | InGrid(width, height, d) && At(vs', width, height, d) != At(vs, width, height, d) ::
      d in parent' && parent'[d] == c
    ensures forall d | InGrid(width, height, d) && At(vs', width, height, d) == At(vs, width, height, d) && d in parent ::
      d in parent' && parent'[d] == parent[d]
  {
    parent' := parent + map d | d in cands && InGrid(width, height, d) && At(vs', width, height, d) != At(vs, width, height, d) :: c;
  }

  /**
   * A settled field whose reached cells are supported is a fixpoint in both directions: every
   * reached cell but the destination costs exactly a neighbour's cost plus the step cost.
   */
  lemma SettledSupportedExact(vs: seq<U32>, width: nat, height: nat, dest: Cell, parent: map<Cell, Cell>, d: Cell)
    requires |vs| == width * height && Settled(vs, width, height) && Supported(vs, width, height, dest, parent)
    requires InGrid(width, height, d) && d != dest && At(vs, width, height, d) < UNREACHED
    ensures ReachedThroughNeighbour(vs, width, height, d)
  {
    var p := parent[d];
    assert LinkedThrough(vs, width, height, d, p);
    assert Relaxed(vs, width, height, p);
    if Orthogonal(d, p) && At(vs, width, height, p) + ORTHOGONAL_COST <= At(vs, width, height, d) {
      assert d in Neighbours(width, height, p);
      assert p in Neighbours(width, height, d);
    } else {
      assert d in NeighboursCross(width, height, vs, p);
      assert p in NeighboursCross(width, height, vs, d);
    }
  }

  /*
   * Steepest descent
   */

  datatype Pick = Pick(best: int, dir: IVec2)

  /** The direction from `c` to its neighbour `n`, as `calculate_flow` computes it. */
  function Offset(c: Cell, n: Cell): IVec2
  {
    IVec2(n.x - c.x, n.y - c.y)
  }

  /**
   * Scans `cands` in order, keeping the lowest cost seen (starting from `best`) and the
   * direction to the cell that first reached it; later cells replace it only when strictly lower.
   */
  function Scan(vs: seq<U32>, width: nat, height: nat, c: Cell, cands: seq<Cell>, best: int, dir: IVec2): Pick
    requires |vs| == width * height && forall n | n in cands :: InGrid(width, height, n)
    decreases |cands|
  {
    if cands == [] then Pick(best, dir)
    else
      var n := cands[0];
      var v := At(vs, width, height, n);
      if v < best then Scan(vs, width, height, c, cands[1..], v, Offset(c, n))
      else Scan(vs, width, height, c, cands[1..], best, dir)
  }

  lemma {:induction false} ScanAppend(vs: seq<U32>, width: nat, height: nat, c: Cell, a: seq<Cell>, b: seq<Cell>, best: int, dir: IVec2)
    requires |vs| == width * height
    requires forall n | n in a :: InGrid(width, height, n)
    requires forall n | n in b :: InGrid(width, height, n)
    ensures var p := Scan(vs, width, height, c, a, best, dir);
      Scan(vs, width, height, c, a + b, best, dir) == Scan(vs, width, height, c, b, p.best, p.dir)
    decreases |a|
  {
    if a == [] {
      assert a + b == b;
    } else {
      assert (a + b)[0] == a[0] && (a + b)[1..] == a[1..] + b;
      var v := At(vs, width, height, a[0]);
      if v < best {
        ScanAppend(vs, width, height, c, a[1..], b, v, Offset(c, a[0]));
      } else {
        ScanAppend(vs, width, height, c, a[1..], b, best, dir);
      }
    }
  }

  /** One step of `Scan` over a suffix of `cands`. */
  lemma ScanStep(vs: seq<U32>, width: nat, height: nat, c: Cell, cands: seq<Cell>, i: nat, best: int, dir: IVec2)
    requires |vs| == width * height && (forall n | n in cands :: InGrid(width, height, n)) && i < |cands|
    ensures var v := At(vs, width, height, cands[i]);
      Scan(vs, width, height, c, cands[i..], best, dir)
      == if v < best then Scan(vs, width, height, c, cands[i + 1..], v, Offset(c, cands[i]))
         else Scan(vs, width, height, c, cands[i + 1..], best, dir)
  {
    assert cands[i..][0] == cands[i] && cands[i..][1..] == cands[i + 1..];
  }

  /**
   * `cands[k]` is the first candidate of minimum cost among `cands`, and it is strictly
   * cheaper than `below`.
   */
  ghost predicate FirstCheapest(vs: seq<U32>, width: nat, height: nat, cands: seq<Cell>, k: int, below: int)
    requires |vs| == width * height && forall n | n in cands :: InGrid(width, height, n)
  {
    0 <= k < |cands| && At(vs, width, height, cands[k]) < below
    && (forall j | 0 <= j < |cands| :: At(vs, width, height, cands[k]) <= At(vs, width, height, cands[j]))
    && (forall j | 0 <= j < k :: At(vs, width, height, cands[j]) > At(vs, width, height, cands[k]))
  }

  /**
   * What `Scan` computes: the minimum of `best` and the candidates' costs, and, when some
   * candidate is strictly below `best`, the direction to the first candidate of minimum cost.
   */
  lemma {:induction false} ScanPicksFirstLowest(vs: seq<U32>, width: nat, height: nat, c: Cell, cands: seq<Cell>, best: int, dir: IVec2)
    requires |vs| == width * height && forall n | n in cands :: InGrid(width, height, n)
    ensures var p := Scan(vs, width, height, c, cands, best, dir);
      p.best <= best && (forall j | 0 <= j < |cands| :: p.best <= At(vs, width, height, cands[j]))
      && (p.best == best ==> p.dir == dir)
      && (p.best < best ==>
            exists k :: (FirstCheapest(vs, width, height, cands, k, best)
              && At(vs, width, height, cands[k]) == p.best && p.dir == Offset(c, cands[k])))
    decreases |cands|
  {
    if cands != [] {
      var n, rest := cands[0], cands[1..];
      var v := At(vs, width, height, n);
      var p := Scan(vs, width, height, c, cands, best, dir);
      var best', dir' := if v < best then v else best, if v < best then Offset(c, n) else dir;
      assert p == Scan(vs, width, height, c, rest, best', dir');
      ScanPicksFirstLowest(vs, width, height, c, rest, best', dir');
      assert forall j | 0 <= j < |cands| :: p.best <= At(vs, width, height, cands[j]) by {
        forall j | 0 <= j < |cands|
          ensures p.best <= At(vs, width, height, cands[j])
        {
          if j > 0 { assert cands[j] == rest[j - 1]; }
        }
      }
      if p.best < best {
        if p.best == v && v < best {
          assert FirstCheapest(vs, width, height, cands, 0, best);
        } else {
          var k :| FirstCheapest(vs, width, height, rest, k, best') && At(vs, width, height, rest[k]) == p.best
            && p.dir == Offset(c, rest[k]);
          assert cands[k + 1] == rest[k];
          forall j | 0 <= j < k + 1
            ensures At(vs, width, height, cands[j]) > p.best
          {
            if j > 0 { assert cands[j] == rest[j - 1]; }
          }
          assert FirstCheapest(vs, width, height, cands, k + 1, best);
        }
      }
    }
  }

  /** The candidates `calculate_flow` scans for `c`: orthogonal neighbours first, then diagonals. */
  function Candidates(vs: seq<U32>, width: nat, height: nat, c: Cell): (r: seq<Cell>)
    requires |vs| == width * height && InGrid(width, height, c)
    ensures forall n | n in r :: InGrid(width, height, n) && (Orthogonal(c, n) || Diagonal(c, n))
  {
    Neighbours(width, height, c) + NeighboursCross(width, height, vs, c)
  }

  /** The direction `calculate_flow` stores for `c`. */
  function FlowOf(vs: seq<U32>, width: nat, height: nat, c: Cell): IVec2
    requires |vs| == width * height && InGrid(width, height, c)
  {
    var v := At(vs, width, height, c);
    if v == BLOCKED then ZERO
    else Scan(vs, width, height, c, Candidates(vs, width, height, c), v, ZERO).dir
  }

  /**
   * A blocked cell, and a cell with no strictly cheaper candidate, get no direction; any other
   * cell points at the first cheapest candidate.
   */
  lemma FlowOfSteepest(vs: seq<U32>, width: nat, height: nat, c: Cell)
    requires |vs| == width * height && InGrid(width, height, c)
    ensures var cands, v, f := Candidates(vs, width, height, c), At(vs, width, height, c), FlowOf(vs, width, height, c);
      (v == BLOCKED ==> f == ZERO)
      && (v != BLOCKED && (forall j | 0 <= j < |cands| :: At(vs, width, height, cands[j]) >= v) ==> f == ZERO)
      && (v != BLOCKED && (exists j | 0 <= j < |cands| :: At(vs, width, height, cands[j]) < v) ==>
            exists k :: FirstCheapest(vs, width, height, cands, k, v) && f == Offset(c, cands[k]))
  {
    var cands, v := Candidates(vs, width, height, c), At(vs, width, height, c);
    if v != BLOCKED {
      ScanPicksFirstLowest(vs, width, height, c, cands, v, ZERO);
    }
  }

  /** Every stored direction is a unit or diagonal step, or none. */
  lemma FlowOfIsStep(vs: seq<U32>, width: nat, height: nat, c: Cell)
    requires |vs| == width * height && InGrid(width, height, c)
    ensures var f := FlowOf(vs, width, height, c); -1 <= f.x <= 1 && -1 <= f.y <= 1
  {
    var cands, v := Candidates(vs, width, height, c), At(vs, width, height, c);
    if v != BLOCKED {
      ScanPicksFirstLowest(vs, width, height, c, cands, v, ZERO);
      var p := Scan(vs, width, height, c, cands, v, ZERO);
      assert FlowOf(vs, width, height, c) == p.dir;
      if p.best < v {
        var k :| FirstCheapest(vs, width, height, cands, k, v) && p.dir == Offset(c, cands[k]);
        assert cands[k] in cands;
        OffsetIsStep(c, cands[k]);
      }
    }
  }

  lemma OffsetIsStep(c: Cell, n: Cell)
    requires Orthogonal(c, n) || Diagonal(c, n)
    ensures -1 <= Offset(c, n).x <= 1 && -1 <= Offset(c, n).y <= 1
  {
  }

  /*
   * The field
   */

  class FlowField {
    const width: nat
    const height: nat
    /** The cost of every cell, row by row. */
    var values: array<U32>
    /** The direction of every cell, row by row. */
    var flow: array<IVec2>

    ghost predicate Valid()
      reads this
    {
      values.Length == width * height && flow.Length == width * height
    }

    /** `FlowField::new`: every cell unreached and without direction. */
    constructor (width: nat, height: nat)
      requires width * height < USIZE_MODULUS
      ensures Valid() && this.width == width && this.height == height
      ensures fresh(values) && fresh(flow)
      ensures forall i | 0 <= i < values.Length :: values[i] == UNREACHED
      ensures forall i | 0 <= i < flow.Length :: flow[i] == ZERO
    {
      this.width, this.height := width, height;
      values := new U32[width * height](_ => UNREACHED);
      flow := new IVec2[width * height](_ => ZERO);
    }

    /**
     * `get`: the cost stored for cell `c`; on the square fields the program builds, this is the
     * entry at the program's own index `height * y + x`.
     */
    function Get(c: Cell): (v: U32)
      requires Valid() && InGrid(width, height, c)
      reads this, values
      ensures width == height ==> AsWrittenIndex(height, c) < values.Length && v == values[AsWrittenIndex(height, c)]
    {
      IndexInRange(width, height, c);
      if width == height then AsWrittenIndexOnSquare(width, height, c); At(values[..], width, height, c)
      else At(values[..], width, height, c)
    }

    /** `set`: `Get` returns the new cost for `c` and the old one for every other cell. */
    method Set(c: Cell, value: U32)
      requires Valid() && InGrid(width, height, c)
      modifies values
      ensures values[..] == With(old(values[..]), width, height, c, value)
      ensures Get(c) == value
      ensures forall d | InGrid(width, height, d) && d != c :: Get(d) == old(Get(d))
    {
      IndexInRange(width, height, c);
      values[Index(width, c)] := value;
      forall d | InGrid(width, height, d)
        ensures Get(d) == if d == c then value else old(Get(d))
      {
        AtWith(old(values[..]), width, height, c, value, d);
      }
    }

    /**
     * `get_flow_cell`: the direction stored for cell `(x, y)`; on square fields, the entry at the
     * program's own index `height * y + x`.
     */
    function GetFlowCell(x: nat, y: nat): (d: IVec2)
      requires Valid() && x < width && y < height
      reads this, flow
      ensures width == height ==> AsWrittenIndex(height, Cell(x, y)) < flow.Length && d == flow[AsWrittenIndex(height, Cell(x, y))]
    {
      IndexInRange(width, height, Cell(x, y));
      if width == height then AsWrittenIndexOnSquare(width, height, Cell(x, y)); flow[Index(width, Cell(x, y))]
      else flow[Index(width, Cell(x, y))]
    }

    /** `set_flow_cell`: `GetFlowCell` returns the new direction there and the old one elsewhere. */
    method SetFlowCell(x: nat, y: nat, direction: IVec2)
      requires Valid() && x < width && y < height
      modifies flow
      ensures GetFlowCell(x, y) == direction
      ensures forall d | InGrid(width, height, d) && d != Cell(x, y) :: GetFlowCell(d.x, d.y) == old(GetFlowCell(d.x, d.y))
    {
      IndexInRange(width, height, Cell(x, y));
      flow[Index(width, Cell(x, y))] := direction;
      forall d | InGrid(width, height, d) && d != Cell(x, y)
        ensures GetFlowCell(d.x, d.y) == old(GetFlowCell(d.x, d.y))
      {
        IndexInRange(width, height, d);
        if Index(width, d) == Index(width, Cell(x, y)) {
          IndexInjective(width, d, Cell(x, y));
        }
      }
    }

    /** `reset`: blocked cells stay blocked, every other cell becomes unreached. */
    method Reset()
      requires Valid()
      modifies values
      ensures forall i | 0 <= i < values.Length :: values[i] == if old(values[i]) == BLOCKED then BLOCKED else UNREACHED
      ensures Prepared(values[..])
    {
      for i := 0 to values.Length
        invariant forall j | 0 <= j < i :: values[j] == if old(values[j]) == BLOCKED then BLOCKED else UNREACHED
        invariant forall j | i <= j < values.Length :: values[j] == old(values[j])
      {
        if values[i] != BLOCKED {
          values[i] := UNREACHED;
        }
      }
    }

    /** `set_blocked_cell`. */
    method SetBlockedCell(c: Cell)
      requires Valid() && InGrid(width, height, c)
      modifies values
      ensures Get(c) == BLOCKED
      ensures forall d | InGrid(width, height, d) && d != c :: Get(d) == old(Get(d))
    {
      Set(c, BLOCKED);
    }

    /**
     * `position_to_cell`: shifts a position by half the field so that (0, 0) is the centre;
     * the `i32` sum must not overflow, and a negative sum becomes a huge `usize`.
     */
    function PositionToCell(pos: IVec2): (r: Cell)
      requires PositionFits(pos)
      ensures pos.x + AsI32(width / 2) >= 0 ==> r.x == pos.x + AsI32(width / 2)
      ensures pos.y + AsI32(height / 2) >= 0 ==> r.y == pos.y + AsI32(height / 2)
      ensures pos.x + AsI32(width / 2) < 0 ==> r.x >= USIZE_MODULUS / 2
      ensures pos.y + AsI32(height / 2) < 0 ==> r.y >= USIZE_MODULUS / 2
    {
      Cell(AsUsize(pos.x + AsI32(width / 2)), AsUsize(pos.y + AsI32(height / 2)))
    }

    predicate PositionFits(pos: IVec2)
    {
      InI32(pos.x) && InI32(pos.y) && InI32(pos.x + AsI32(width / 2)) && InI32(pos.y + AsI32(height / 2))
    }

    /** `map`: the same shift on `isize` coordinates. */
    function Map(x: int, y: int): (r: (nat, nat))
      requires width < USIZE_MODULUS && height < USIZE_MODULUS
      requires InIsize(x + HalfIsize(width)) && InIsize(y + HalfIsize(height))
      ensures x + HalfIsize(width) >= 0 ==> r.0 == x + HalfIsize(width)
      ensures y + HalfIsize(height) >= 0 ==> r.1 == y + HalfIsize(height)
    {
      (AsUsize(x + HalfIsize(width)), AsUsize(y + HalfIsize(height)))
    }

    /** On fields narrower than 2^31 cells, `map` and `position_to_cell` agree. */
    lemma MapMatchesPositionToCell(pos: IVec2)
      requires width < 0x8000_0000 && height < 0x8000_0000 && PositionFits(pos)
      ensures InIsize(pos.x + HalfIsize(width)) && InIsize(pos.y + HalfIsize(height))
      ensures Map(pos.x, pos.y) == (PositionToCell(pos).x, PositionToCell(pos).y)
    {
      SmallCasts(width);
      SmallCasts(height);
    }

    /** The cell of a position is on the field exactly when the position is within half a field of the centre. */
    lemma PositionToCellInGrid(pos: IVec2)
      requires width < 0x8000_0000 && height < 0x8000_0000 && PositionFits(pos)
      ensures InGrid(width, height, PositionToCell(pos)) <==>
        -(width / 2) <= pos.x < width - width / 2 && -(height / 2) <= pos.y < height - height / 2
    {
      SmallCasts(width);
      SmallCasts(height);
    }

    /**
     * `block_position_with_size`: blocks the `size × size` square of cells centred on the
     * cell of `pos`. The size must be even; the `usize` arithmetic of the loop bounds must
     * not underflow, and every cell of a non-empty square must be on the field.
     */
    method BlockPositionWithSize(pos: IVec2, size: nat)
      requires Valid() && size % 2 == 0 && PositionFits(pos)
      requires var c := PositionToCell(pos);
        c.x >= size / 2 && c.y >= size / 2 && (size > 0 ==> c.x + size / 2 <= width && c.y + size / 2 <= height)
      modifies values
      ensures forall d | InGrid(width, height, d) ::
        Get(d) == if InSquare(PositionToCell(pos), size / 2, d) then BLOCKED else old(Get(d))
    {
      var c := PositionToCell(pos);
      var half := size / 2;
      var y := c.y - half;
      while y < c.y + half
        invariant c.y - half <= y <= c.y + half
        invariant forall d | InGrid(width, height, d) ::
          Get(d) == if InSquare(c, half, d) && d.y < y then BLOCKED else old(Get(d))
      {
        var x := c.x - half;
        while x < c.x + half
          invariant c.x - half <= x <= c.x + half
          invariant forall d | InGrid(width, height, d) ::
            Get(d) == if InSquare(c, half, d) && (d.y < y || (d.y == y && d.x < x)) then BLOCKED else old(Get(d))
        {
          SetBlockedCell(Cell(x, y));
          x := x + 1;
        }
        y := y + 1;
      }
    }

    /**
     * `set_destination_cell`: sets the destination's cost to 0 and relaxes outwards with a
     * worklist. The loop terminates because every enqueue lowers some cost, so the sum of
     * all costs plus the worklist's length drops on every round. No cost goes up, no blocked
     * cell other than the destination changes, and when the field was prepared (only blocked
     * and unreached cells, as after `reset` or `new`) the costs are the relaxation fixpoint:
     * every reached cell is relaxed, and every reached cell but the destination costs exactly
     * what reaching it from one of its neighbours costs.
     */
    method SetDestinationCell(cell: Cell)
      requires Valid() && InGrid(width, height, cell)
      modifies values
      ensures Get(cell) == 0
      ensures forall d | InGrid(width, height, d) :: Get(d) <= old(Get(d))
      ensures forall d | InGrid(width, height, d) && d != cell && old(Get(d)) == BLOCKED :: Get(d) == BLOCKED
      ensures old(Prepared(values[..])) ==> Settled(values[..], width, height)
      ensures old(Prepared(values[..])) ==> forall d | InGrid(width, height, d) && d != cell && Get(d) < UNREACHED ::
        ReachedThroughNeighbour(values[..], width, height, d)
    {
      ghost var vs0 := values[..];
      ghost var prepared := Prepared(vs0);
      Set(cell, 0);
      ghost var vs1 := values[..];
      var open := [cell];
      ghost var parent: map<Cell, Cell> := map[];
      if prepared {
        PreparedStart(vs0, width, height, cell);
      }
      while open != []
        invariant Valid()
        invariant forall d | d in open :: InGrid(width, height, d)
        invariant Descends(vs1, values[..]) && SameBlocked(vs1, values[..])
        invariant prepared ==> SettledExcept(values[..], width, height, open)
        invariant prepared ==> Supported(values[..], width, height, cell, parent)
        decreases Sum(values[..]) + |open|
      {
        ghost var vsA, openA := values[..], open;
        var current := open[0];
        open := open[1..];
        assert openA == [current] + open;
        var value := Get(current);
        var ns := Neighbours(width, height, current);
        open := Relax(current, value, ns, ORTHOGONAL_COST, open);
        ghost var vsB, openB := values[..], open;
        var cs := NeighboursCross(width, height, values[..], current);
        open := Relax(current, value, cs, DIAGONAL_COST, open);
        if prepared {
          PopStep(vsA, vsB, values[..], current, ns, cs, openA[1..], openB, open);
          parent := PopSupported(vsA, vsB, values[..], width, height, cell, parent, current, ns, cs);
        }
      }
      if prepared {
        forall d | InGrid(width, height, d) && d != cell && Get(d) < UNREACHED
          ensures ReachedThroughNeighbour(values[..], width, height, d)
        {
          SettledSupportedExact(values[..], width, height, cell, parent, d);
        }
      }
      forall d | InGrid(width, height, d)
        ensures Get(d) <= old(Get(d))
        ensures d != cell && old(Get(d)) == BLOCKED ==> Get(d) == BLOCKED
      {
        AtWith(vs0, width, height, cell, 0, d);
        IndexInRange(width, height, d);
      }
      IndexInRange(width, height, cell);
    }

    /**
     * One round's bookkeeping for `SetDestinationCell`: after both relaxations the popped
     * cell is relaxed, and every cell whose cost fell was queued.
     */
    lemma PopStep(vsA: seq<U32>, vsB: seq<U32>, vsC: seq<U32>, c: Cell, ns: seq<Cell>, cs: seq<Cell>,
                  open1: seq<Cell>, openB: seq<Cell>, openC: seq<Cell>)
      requires |vsA| == width * height && InGrid(width, height, c)
      requires SettledExcept(vsA, width, height, [c] + open1)
      requires Descends(vsA, vsB) && SameBlocked(vsA, vsB) && Descends(vsB, vsC) && SameBlocked(vsB, vsC)
      requires ns == Neighbours(width, height, c) && cs == NeighboursCross(width, height, vsB, c)
      requires forall d | InGrid(width, height, d) && At(vsB, width, height, d) != At(vsA, width, height, d) :: d in ns && d in openB
      requires forall d | InGrid(width, height, d) && At(vsC, width, height, d) != At(vsB, width, height, d) :: d in cs && d in openC
      requires (forall d | d in open1 :: d in openB) && (forall d | d in openB :: d in openC)
      requires RelaxedOver(vsB, width, height, ns, At(vsA, width, height, c) + ORTHOGONAL_COST)
      requires RelaxedOver(vsC, width, height, cs, At(vsA, width, height, c) + DIAGONAL_COST)
      ensures SettledExcept(vsC, width, height, openC)
    {
      SettledExceptDescends(vsA, vsC, width, height, [c] + open1, [c] + openC);
      assert At(vsB, width, height, c) == At(vsA, width, height, c);
      assert At(vsC, width, height, c) == At(vsB, width, height, c);
      RelaxedOverDescends(vsB, vsC, width, height, ns, At(vsA, width, height, c) + ORTHOGONAL_COST);
      CrossStable(width, height, vsB, vsC, c);
      SettledExceptRelease(vsC, width, height, c, openC);
    }

    /**
     * The body of one of `set_destination_cell`'s two inner loops: lowers every candidate
     * that is not blocked and costs more than `value + cost` to exactly that, and queues it
     * unless it is queued already.
     */
    method Relax(current: Cell, value: U32, cands: seq<Cell>, cost: nat, open: seq<Cell>) returns (open': seq<Cell>)
      requires Valid() && InGrid(width, height, current)
      requires forall n | n in cands :: InGrid(width, height, n) && n != current
      requires forall d | d in open :: InGrid(width, height, d)
      modifies values
      ensures Descends(old(values[..]), values[..]) && SameBlocked(old(values[..]), values[..])
      ensures forall d | InGrid(width, height, d) && Get(d) != old(Get(d)) :: d in cands && d in open' && Get(d) == value + cost
      ensures forall d | InGrid(width, height, d) ::
        Get(d) == if d in cands && old(Get(d)) != BLOCKED && old(Get(d)) > value + cost then value + cost else old(Get(d))
      ensures RelaxedOver(values[..], width, height, cands, value + cost)
      ensures (forall d | d in open :: d in open') && (forall d | d in open' :: InGrid(width, height, d))
      ensures forall d | d in open' :: d in open || d in cands
      ensures Sum(values[..]) + |open'| <= Sum(old(values[..])) + |open|
    {
      open' := open;
      var i := 0;
      while i < |cands|
        invariant 0 <= i <= |cands|
        invariant Descends(old(values[..]), values[..]) && SameBlocked(old(values[..]), values[..])
        invariant forall d | InGrid(width, height, d) && Get(d) != old(Get(d)) :: d in cands[..i] && d in open'
        invariant forall d | InGrid(width, height, d) ::
          Get(d) == if d in cands[..i] && old(Get(d)) != BLOCKED && old(Get(d)) > value + cost then value + cost else old(Get(d))
        invariant forall j | 0 <= j < i :: Get(cands[j]) == BLOCKED || Get(cands[j]) <= value + cost
        invariant (forall d | d in open :: d in open') && (forall d | d in open' :: InGrid(width, height, d))
        invariant forall d | d in open' :: d in open || d in cands[..i]
        invariant Sum(values[..]) + |open'| <= Sum(old(values[..])) + |open|
      {
        assert cands[..i + 1] == cands[..i] + [cands[i]];
        open' := RelaxCell(cands[i], value, cost, open');
        i := i + 1;
      }
      assert cands[..i] == cands;
    }

    /** One step of `Relax`: lowers `n` to `value + cost` if that is cheaper and `n` is not blocked. */
    method RelaxCell(n: Cell, value: U32, cost: nat, open: seq<Cell>) returns (open': seq<Cell>)
      requires Valid() && InGrid(width, height, n)
      requires forall d | d in open :: InGrid(width, height, d)
      modifies values
      ensures Descends(old(values[..]), values[..]) && SameBlocked(old(values[..]), values[..])
      ensures forall d | InGrid(width, height, d) && Get(d) != old(Get(d)) :: d == n && n in open'
      ensures Get(n) == if old(Get(n)) != BLOCKED && old(Get(n)) > value + cost then value + cost else old(Get(n))
      ensures open' == if old(Get(n)) != BLOCKED && old(Get(n)) > value + cost && n !in open then open + [n] else open
      ensures (forall d | d in open :: d in open') && (forall d | d in open' :: InGrid(width, height, d))
      ensures Sum(values[..]) + |open'| <= Sum(old(values[..])) + |open|
    {
      open' := open;
      var nValue := Get(n);
      if nValue != BLOCKED && nValue > value + cost {
        ghost var before := values[..];
        Set(n, value + cost);
        IndexInRange(width, height, n);
        SumUpdate(before, Index(width, n), value + cost);
        if n !in open' {
          open' := open' + [n];
        }
      }
    }

    /** The body of `calculate_flow` for one cell: the steepest-descent direction of `c`. */
    method CellFlow(c: Cell) returns (direction: IVec2)
      requires Valid() && InGrid(width, height, c)
      ensures direction == FlowOf(values[..], width, height, c)
    {
      var value := Get(c);
      direction := ZERO;
      if value != BLOCKED {
        var vs := values[..];
        var ns := Neighbours(width, height, c);
        var cs := NeighboursCross(width, height, vs, c);
        ScanAppend(vs, width, height, c, ns, cs, value, ZERO);
        ghost var first := Scan(vs, width, height, c, ns, value, ZERO);
        var i := 0;
        while i < |ns|
          invariant 0 <= i <= |ns|
          invariant Scan(vs, width, height, c, ns[i..], value, direction) == first
        {
          ScanStep(vs, width, height, c, ns, i, value, direction);
          var nValue := Get(ns[i]);
          if nValue < value {
            value := nValue;
            direction := Offset(c, ns[i]);
          }
          i := i + 1;
        }
        assert ns[i..] == [];
        i := 0;
        while i < |cs|
          invariant 0 <= i <= |cs|
          invariant Scan(vs, width, height, c, cs[i..], value, direction) == Scan(vs, width, height, c, cs, first.best, first.dir)
        {
          ScanStep(vs, width, height, c, cs, i, value, direction);
          var nValue := Get(cs[i]);
          if nValue < value {
            value := nValue;
            direction := Offset(c, cs[i]);
          }
          i := i + 1;
        }
        assert cs[i..] == [];
      }
    }

    /** `calculate_flow`: every cell's direction is its steepest descent; costs are untouched. */
    method CalculateFlow()
      requires Valid()
      modifies flow
      ensures forall d | InGrid(width, height, d) :: GetFlowCell(d.x, d.y) == FlowOf(values[..], width, height, d)
    {
      var y := 0;
      while y < height
        invariant 0 <= y <= height
        invariant forall d | InGrid(width, height, d) && d.y < y :: GetFlowCell(d.x, d.y) == FlowOf(values[..], width, height, d)
      {
        var x := 0;
        while x < width
          invariant 0 <= x <= width
          invariant forall d | InGrid(width, height, d) && (d.y < y || (d.y == y && d.x < x)) ::
            GetFlowCell(d.x, d.y) == FlowOf(values[..], width, height, d)
        {
          var direction := CellFlow(Cell(x, y));
          SetFlowCell(x, y, direction);
          x := x + 1;
        }
        y := y + 1;
      }
    }
  }

  /** The cells `block_position_with_size` blocks around `c`. */
  predicate InSquare(c: Cell, half: nat, d: Cell)
  {
    c.x - half <= d.x < c.x + half && c.y - half <= d.y < c.y + half
  }

  /*
   * Integer casts
   */

  predicate InI32(v: int)
  {
    -I32_MODULUS / 2 <= v < I32_MODULUS / 2
  }

  predicate InIsize(v: int)
  {
    ISIZE_MIN <= v <= ISIZE_MAX
  }

  /** Rust's `n as i32` for a `usize`: keeps the low 32 bits, read as two's complement. */
  function AsI32(n: nat): (r: int)
    ensures InI32(r) && (r - n) % I32_MODULUS == 0
    ensures n < I32_MODULUS / 2 ==> r == n
  {
    var m := n % I32_MODULUS;
    if m < I32_MODULUS / 2 then m else m - I32_MODULUS
  }

  /** Rust's `n as isize / 2` for a `usize`: the cast keeps the 64 bits, the division truncates. */
  function HalfIsize(n: nat): (r: int)
    requires n < USIZE_MODULUS
    ensures InIsize(r)
    ensures n <= ISIZE_MAX ==> r == n / 2
  {
    var s := if n <= ISIZE_MAX then n else n - USIZE_MODULUS;
    if s >= 0 then s / 2 else -((-s) / 2)
  }

  lemma SmallCasts(n: nat)
    requires n < 0x8000_0000
    ensures AsI32(n / 2) == n / 2 && HalfIsize(n) == n / 2
  {
  }
}
