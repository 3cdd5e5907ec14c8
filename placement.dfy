/**
 * The asset placement table of the voxel world (`World::add`): an asset's box is cut
 * along each axis into the runs that fall into consecutive chunks, and every
 * combination of one run per axis becomes an overlay record for one chunk.
 */
module Placement {

  import opened Common
  import opened ChunkCoords

  /** One run along one axis: the chunk it lies in, where it starts in the asset (`source`) and in the chunk (`target`), and its length. */
  datatype Segment = Segment(chunk: int, source: nat, target: nat, extent: nat)

  /**
   * The per-axis walk of `add`, from a state of its loop (chunk number, target offset,
   * source offset, size still to place): each step consumes `min(remaining, chunkSize - target)`
   * voxels, then moves to the next chunk with target offset 0. A walk may start at
   * `target == chunkSize`, where the as-written mapper can leave it: its first step then
   * consumes nothing, and the next one starts at offset 0.
   */
  function Walk(chunk: int, target: nat, source: nat, remaining: nat, chunkSize: nat): seq<Segment>
    requires 0 < chunkSize && target <= chunkSize
    decreases remaining, if target == chunkSize then 1 else 0
  {
    if remaining == 0 then []
    else
      var e := Min(remaining, chunkSize - target);
      [Segment(chunk, source, target, e)] + Walk(chunk + 1, 0, source + e, remaining - e, chunkSize)
  }

  function SumExtents(s: seq<Segment>): nat
  {
    if s == [] then 0 else s[0].extent + SumExtents(s[1..])
  }

  /** Run `i` of a walk that started in `chunk` at `target` with source offset `source` and `remaining` voxels. */
  ghost predicate RunShape(s: seq<Segment>, i: int, chunk: int, target: nat, source: nat, remaining: nat, chunkSize: nat)
    requires 0 <= i < |s|
  {
    && s[i].chunk == chunk + i
    && (1 <= s[i].extent || (i == 0 && target == chunkSize))
    && s[i].target + s[i].extent <= chunkSize
    && (i > 0 ==> s[i].target == 0)
    && source <= s[i].source
    && s[i].source + s[i].extent <= source + remaining
  }

  /** The shape of a walk: chunks are consecutive, runs are non-empty (but for a first run that starts at the chunk's end) and fit their chunk, only the first run starts inside its chunk, runs follow each other without gap in the source and in the world, and their lengths add up to what was to be placed. */
  lemma {:induction false} WalkShape(chunk: int, target: nat, source: nat, remaining: nat, chunkSize: nat)
    requires 0 < chunkSize && target <= chunkSize
    ensures var s := Walk(chunk, target, source, remaining, chunkSize);
      && SumExtents(s) == remaining
      && (remaining > 0 ==> |s| > 0 && s[0].target == target && s[0].source == source)
      && (forall i | 0 <= i < |s| :: RunShape(s, i, chunk, target, source, remaining, chunkSize))
      && (forall i | 0 <= i < |s| - 1 :: s[i].source + s[i].extent == s[i + 1].source)
    decreases remaining, if target == chunkSize then 1 else 0
  {
    if remaining > 0 {
      var e := Min(remaining, chunkSize - target);
      var s := Walk(chunk, target, source, remaining, chunkSize);
      var rest := Walk(chunk + 1, 0, source + e, remaining - e, chunkSize);
      assert s == [Segment(chunk, source, target, e)] + rest;
      WalkShape(chunk + 1, 0, source + e, remaining - e, chunkSize);
      assert SumExtents(s) == e + SumExtents(rest) by { assert s[1..] == rest; }
      forall i | 0 <= i < |s|
        ensures RunShape(s, i, chunk, target, source, remaining, chunkSize)
      {
        if i > 0 {
          assert s[i] == rest[i - 1];
          assert RunShape(rest, i - 1, chunk + 1, 0, source + e, remaining - e, chunkSize);
        } else {
          assert s[0] == Segment(chunk, source, target, e);
        }
      }
      forall i | 0 <= i < |s| - 1
        ensures s[i].source + s[i].extent == s[i + 1].source
      {
        if i > 0 {
          assert s[i] == rest[i - 1] && s[i + 1] == rest[i];
        }
      }
    }
  }

  /** In world coordinates a run starts where its source offset says: the chunk origin plus the target offset is the walk's start plus the source distance. */
  lemma {:induction false} WalkWorldPosition(chunk: int, target: nat, source: nat, remaining: nat, chunkSize: nat, i: nat)
    requires 0 < chunkSize && target <= chunkSize
    requires i < |Walk(chunk, target, source, remaining, chunkSize)|
    ensures var s := Walk(chunk, target, source, remaining, chunkSize);
      s[i].chunk * chunkSize + s[i].target == chunk * chunkSize + target + (s[i].source - source)
    decreases remaining, if target == chunkSize then 1 else 0
  {
    var e := Min(remaining, chunkSize - target);
    var s := Walk(chunk, target, source, remaining, chunkSize);
    var rest := Walk(chunk + 1, 0, source + e, remaining - e, chunkSize);
    assert s == [Segment(chunk, source, target, e)] + rest;
    if i > 0 {
      WalkWorldPosition(chunk + 1, 0, source + e, remaining - e, chunkSize, i - 1);
      assert s[i] == rest[i - 1];
      assert e == chunkSize - target;
      assert (chunk + 1) * chunkSize == chunk * chunkSize + chunkSize;
    }
  }

  /** Runs of the same walk are ordered: an earlier run ends before a later one starts in the source. */
  lemma RunsOrdered(chunk: int, target: nat, source: nat, remaining: nat, chunkSize: nat, i: nat, j: nat)
    requires 0 < chunkSize && target <= chunkSize
    requires i < j < |Walk(chunk, target, source, remaining, chunkSize)|
    ensures var s := Walk(chunk, target, source, remaining, chunkSize);
      s[i].source + s[i].extent <= s[j].source
    decreases j - i
  {
    WalkShape(chunk, target, source, remaining, chunkSize);
    if i + 1 < j {
      RunsOrdered(chunk, target, source, remaining, chunkSize, i + 1, j);
    }
  }

  /** Every source position of a walk lies in one of its runs. */
  lemma {:induction false} WalkCovers(chunk: int, target: nat, source: nat, remaining: nat, chunkSize: nat, p: int)
    returns (i: nat)
    requires 0 < chunkSize && target <= chunkSize
    requires source <= p < source + remaining
    ensures var s := Walk(chunk, target, source, remaining, chunkSize);
      i < |s| && s[i].source <= p < s[i].source + s[i].extent
    decreases remaining, if target == chunkSize then 1 else 0
  {
    var e := Min(remaining, chunkSize - target);
    var s := Walk(chunk, target, source, remaining, chunkSize);
    var rest := Walk(chunk + 1, 0, source + e, remaining - e, chunkSize);
    assert s == [Segment(chunk, source, target, e)] + rest;
    if p < source + e {
      i := 0;
    } else {
      var j := WalkCovers(chunk + 1, 0, source + e, remaining - e, chunkSize, p);
      i := j + 1;
      assert s[i] == rest[j];
    }
  }

  /**
   * A walk that starts at offset `target` of chunk `chunk` tiles the positions `0..remaining`
   * of the asset: each lies in exactly one run, and that run puts it at the chunk and offset
   * of world coordinate `chunk * chunkSize + target + p`.
   */
  lemma WalkTiling(chunk: int, target: nat, remaining: nat, chunkSize: nat, p: int) returns (i: nat)
    requires 0 < chunkSize && target <= chunkSize && 0 <= p < remaining
    ensures var s := Walk(chunk, target, 0, remaining, chunkSize);
      && i < |s| && s[i].source <= p < s[i].source + s[i].extent
      && (forall j | 0 <= j < |s| && s[j].source <= p < s[j].source + s[j].extent :: j == i)
      && FloorChunkAndOffset(chunk * chunkSize + target + p, chunkSize) == (s[i].chunk, s[i].target + (p - s[i].source))
  {
    var s := Walk(chunk, target, 0, remaining, chunkSize);
    i := WalkCovers(chunk, target, 0, remaining, chunkSize, p);
    var r := s[i];
    assert r.target + r.extent <= chunkSize by {
      WalkShape(chunk, target, 0, remaining, chunkSize);
      assert RunShape(s, i, chunk, target, 0, remaining, chunkSize);
    }
    assert r.chunk * chunkSize + r.target == chunk * chunkSize + target + r.source by {
      WalkWorldPosition(chunk, target, 0, remaining, chunkSize, i);
    }
    DivModUnique(chunk * chunkSize + target + p, chunkSize, r.chunk, r.target + (p - r.source));
    forall j | 0 <= j < |s| && s[j].source <= p < s[j].source + s[j].extent
      ensures j == i
    {
      if j < i {
        RunsOrdered(chunk, target, 0, remaining, chunkSize, j, i);
      } else if i < j {
        RunsOrdered(chunk, target, 0, remaining, chunkSize, i, j);
      }
    }
  }

  /**
   * The runs `add` writes along one axis for an asset of length `size` at world coordinate
   * `start`: the walk from the chunk and offset that `chunk_number_and_offset` gives, as written.
   */
  function AxisSegments(start: int, size: nat, chunkSize: nat): seq<Segment>
    requires chunkSize > 0
  {
    var (c, o) := ChunkNumberAndOffset(start, chunkSize);
    Walk(c, o, 0, size, chunkSize)
  }

  /**
   * How far the as-written start pair is from `start`: the walk places asset position `p` at
   * world coordinate `start + Drift(start, chunkSize) + p`.
   */
  function Drift(start: int, chunkSize: nat): int
    requires chunkSize > 0
  {
    ChunkNumberAndOffset(start, chunkSize).0 * chunkSize + ChunkNumberAndOffset(start, chunkSize).1 - start
  }

  /** The first chunk an asset placed at `start` touches along an axis. */
  function FirstChunk(start: int, chunkSize: nat): int
    requires chunkSize > 0
  {
    ChunkNumberAndOffset(start, chunkSize).0
  }

  /** The properties of one axis of `add`, in terms of the asset's start coordinate. */
  lemma AxisShape(start: int, size: nat, chunkSize: nat)
    requires chunkSize > 0
    ensures var s := AxisSegments(start, size, chunkSize);
      && SumExtents(s) == size
      && (size > 0 ==> |s| > 0 && s[0].target == ChunkNumberAndOffset(start, chunkSize).1 && s[0].source == 0)
      && (forall i | 0 <= i < |s| ::
            && s[i].chunk == FirstChunk(start, chunkSize) + i
            && (1 <= s[i].extent || (i == 0 && s[i].target == chunkSize))
            && s[i].target + s[i].extent <= chunkSize
            && (i > 0 ==> s[i].target == 0)
            && s[i].source + s[i].extent <= size
            && s[i].chunk * chunkSize + s[i].target == start + Drift(start, chunkSize) + s[i].source)
      && (forall i | 0 <= i < |s| - 1 :: s[i].source + s[i].extent == s[i + 1].source)
  {
    var (c, o) := ChunkNumberAndOffset(start, chunkSize);
    var s := AxisSegments(start, size, chunkSize);
    WalkShape(c, o, 0, size, chunkSize);
    forall i | 0 <= i < |s|
      ensures && s[i].chunk == FirstChunk(start, chunkSize) + i
              && (1 <= s[i].extent || (i == 0 && s[i].target == chunkSize))
              && s[i].target + s[i].extent <= chunkSize
              && (i > 0 ==> s[i].target == 0)
              && s[i].source + s[i].extent <= size
              && s[i].chunk * chunkSize + s[i].target == start + Drift(start, chunkSize) + s[i].source
    {
      AxisRunAt(start, size, chunkSize, i);
    }
  }

  /**
   * Run `i` of one axis: its chunk, its bounds, and where it lies in the world. Only a first
   * run that starts at offset `chunkSize` can be empty.
   */
  lemma AxisRunAt(start: int, size: nat, chunkSize: nat, i: nat)
    requires chunkSize > 0 && i < |AxisSegments(start, size, chunkSize)|
    ensures var s := AxisSegments(start, size, chunkSize);
      && s[i].chunk == FirstChunk(start, chunkSize) + i
      && (1 <= s[i].extent || (i == 0 && s[i].target == chunkSize))
      && s[i].target + s[i].extent <= chunkSize
      && (i > 0 ==> s[i].target == 0)
      && s[i].source + s[i].extent <= size
      && s[i].chunk * chunkSize + s[i].target == start + Drift(start, chunkSize) + s[i].source
  {
    var (c, o) := ChunkNumberAndOffset(start, chunkSize);
    var s := AxisSegments(start, size, chunkSize);
    WalkShape(c, o, 0, size, chunkSize);
    assert RunShape(s, i, c, o, 0, size, chunkSize);
    WalkWorldPosition(c, o, 0, size, chunkSize, i);
  }

  /**
   * The runs of one axis tile the asset: every asset position `p` lies in exactly one run,
   * and that run puts it at the chunk and offset of world coordinate `start + Drift + p`.
   */
  lemma AxisTiling(start: int, size: nat, chunkSize: nat, p: int) returns (i: nat)
    requires chunkSize > 0 && 0 <= p < size
    ensures var s := AxisSegments(start, size, chunkSize);
      && i < |s| && s[i].source <= p < s[i].source + s[i].extent
      && (forall j | 0 <= j < |s| && s[j].source <= p < s[j].source + s[j].extent :: j == i)
      && FloorChunkAndOffset(start + Drift(start, chunkSize) + p, chunkSize) == (s[i].chunk, s[i].target + (p - s[i].source))
  {
    var (c, o) := ChunkNumberAndOffset(start, chunkSize);
    i := WalkTiling(c, o, size, chunkSize, p);
  }

  /** Chunk `ck` holds one run of the axis. */
  predicate AxisHas(start: int, size: nat, chunkSize: nat, ck: int)
    requires chunkSize > 0
  {
    FirstChunk(start, chunkSize) <= ck < FirstChunk(start, chunkSize) + |AxisSegments(start, size, chunkSize)|
  }

  /** The run of the axis that lies in chunk `ck`. */
  function AxisRun(start: int, size: nat, chunkSize: nat, ck: int): Segment
    requires chunkSize > 0 && AxisHas(start, size, chunkSize, ck)
  {
    AxisSegments(start, size, chunkSize)[ck - FirstChunk(start, chunkSize)]
  }

  /** Asset position `p` lies in run `r`. */
  predicate RunHolds(r: Segment, p: int)
  {
    r.source <= p < r.source + r.extent
  }

  /** Asset position `p` is placed by the run of exactly one chunk `ck`, at the chunk and offset of world position `start + Drift + p`. */
  lemma AxisKey(start: int, size: nat, chunkSize: nat, p: int) returns (ck: int)
    requires chunkSize > 0 && 0 <= p < size
    ensures AxisHas(start, size, chunkSize, ck) && RunHolds(AxisRun(start, size, chunkSize, ck), p)
    ensures FloorChunkAndOffset(start + Drift(start, chunkSize) + p, chunkSize) ==
      (ck, AxisRun(start, size, chunkSize, ck).target + (p - AxisRun(start, size, chunkSize, ck).source))
    ensures forall ck' | AxisHas(start, size, chunkSize, ck') && RunHolds(AxisRun(start, size, chunkSize, ck'), p) :: ck' == ck
  {
    var s := AxisSegments(start, size, chunkSize);
    var i := AxisTiling(start, size, chunkSize, p);
    AxisRunAt(start, size, chunkSize, i);
    ck := s[i].chunk;
    assert AxisRun(start, size, chunkSize, ck) == s[i];
    forall ck' | AxisHas(start, size, chunkSize, ck') && RunHolds(AxisRun(start, size, chunkSize, ck'), p)
      ensures ck' == ck
    {
      assert AxisRun(start, size, chunkSize, ck') == s[ck' - FirstChunk(start, chunkSize)];
    }
  }

  /**
   * A state of the per-axis loop of `add` after `i` steps: the chunk number, target offset,
   * source offset and size still to place are those the walk reaches after its first `i` runs.
   */
  ghost predicate WalkAt(start: int, size: nat, chunkSize: nat, i: nat, chunk: int, target: nat, source: nat, remaining: nat)
    requires chunkSize > 0
  {
    && target <= chunkSize && i <= |AxisSegments(start, size, chunkSize)|
    && chunk == FirstChunk(start, chunkSize) + i
    && AxisSegments(start, size, chunkSize)[i..] == Walk(chunk, target, source, remaining, chunkSize)
  }

  /** The loop starts at the chunk and offset `chunk_number_and_offset` gives for the asset's start coordinate. */
  lemma WalkAtStart(start: int, size: nat, chunkSize: nat)
    requires chunkSize > 0
    ensures WalkAt(start, size, chunkSize, 0, ChunkNumberAndOffset(start, chunkSize).0, ChunkNumberAndOffset(start, chunkSize).1, 0, size)
  {
  }

  /** One step of the loop emits the run of the chunk it is in and moves to the next chunk at offset 0. */
  lemma WalkAtStep(start: int, size: nat, chunkSize: nat, i: nat, chunk: int, target: nat, source: nat, remaining: nat)
    requires chunkSize > 0 && WalkAt(start, size, chunkSize, i, chunk, target, source, remaining) && remaining != 0
    ensures var e := Min(remaining, chunkSize - target);
      && AxisHas(start, size, chunkSize, chunk) && AxisRun(start, size, chunkSize, chunk) == Segment(chunk, source, target, e)
      && WalkAt(start, size, chunkSize, i + 1, chunk + 1, 0, source + e, remaining - e)
  {
    var s := AxisSegments(start, size, chunkSize);
    var e := Min(remaining, chunkSize - target);
    assert s[i..] == [Segment(chunk, source, target, e)] + Walk(chunk + 1, 0, source + e, remaining - e, chunkSize);
    assert s[i] == s[i..][0];
    assert s[i + 1..] == s[i..][1..];
  }

  /** The loop ends after the last run: the chunk number is one past the axis's last chunk. */
  lemma WalkAtEnd(start: int, size: nat, chunkSize: nat, i: nat, chunk: int, target: nat, source: nat)
    requires chunkSize > 0 && WalkAt(start, size, chunkSize, i, chunk, target, source, 0)
    ensures chunk == FirstChunk(start, chunkSize) + |AxisSegments(start, size, chunkSize)|
  {
  }

  // ---------------------------------------------------------------------------
  // The walk against the intended mapper

  /** The runs `add` would write if it started from the intended mapper `FloorChunkAndOffset`. */
  function IntendedAxisSegments(start: int, size: nat, chunkSize: nat): seq<Segment>
    requires chunkSize > 0
  {
    var (c, o) := FloorChunkAndOffset(start, chunkSize);
    Walk(c, o, 0, size, chunkSize)
  }

  /**
   * With the intended mapper the runs tile the asset in place: every asset position `p` lies in
   * exactly one run, which puts it at the chunk and offset of world coordinate `start + p`.
   */
  lemma IntendedAxisTiling(start: int, size: nat, chunkSize: nat, p: int) returns (i: nat)
    requires chunkSize > 0 && 0 <= p < size
    ensures var s := IntendedAxisSegments(start, size, chunkSize);
      && i < |s| && s[i].source <= p < s[i].source + s[i].extent && s[i].extent >= 1
      && (forall j | 0 <= j < |s| && s[j].source <= p < s[j].source + s[j].extent :: j == i)
      && FloorChunkAndOffset(start + p, chunkSize) == (s[i].chunk, s[i].target + (p - s[i].source))
  {
    var (c, o) := FloorChunkAndOffset(start, chunkSize);
    i := WalkTiling(c, o, size, chunkSize, p);
  }

  /** From `-chunkSize` up, the program's runs are the intended ones and nothing drifts. */
  lemma AxisSegmentsAboveMinusSize(start: int, size: nat, chunkSize: nat)
    requires chunkSize > 0 && start + chunkSize >= 0
    ensures AxisSegments(start, size, chunkSize) == IntendedAxisSegments(start, size, chunkSize)
    ensures Drift(start, chunkSize) == 0
  {
    AsWrittenAgreesAboveMinusSize(start, chunkSize);
  }

  /**
   * At every `start = -(chunkSize + 1) * m` the program's first run is empty and sits at
   * offset `chunkSize` (a record of extent 0 for that chunk); the asset then starts the next
   * chunk at offset 0, the chunk after the one that holds `start`.
   */
  lemma AsWrittenFirstRunEmpty(m: nat, size: nat, chunkSize: nat)
    requires chunkSize > 0 && m >= 1 && size > 0
    ensures var s := AxisSegments(-(chunkSize + 1) * m, size, chunkSize);
      && |s| >= 2 && s[0].extent == 0 && s[0].target == chunkSize
      && s[0].chunk == FloorChunkAndOffset(-(chunkSize + 1) * m, chunkSize).0
      && s[1].chunk == s[0].chunk + 1 && s[1].target == 0 && s[1].source == 0 && s[1].extent >= 1
  {
    var start := -(chunkSize + 1) * m;
    AsWrittenOffsetReachesSize(m, chunkSize, size);
    ChunkIndexIsFloor(start, chunkSize);
    var (c, o) := ChunkNumberAndOffset(start, chunkSize);
    var rest := Walk(c + 1, 0, 0, size, chunkSize);
    assert AxisSegments(start, size, chunkSize) == [Segment(c, 0, chunkSize, 0)] + rest;
    WalkShape(c + 1, 0, 0, size, chunkSize);
    assert RunShape(rest, 0, c + 1, 0, 0, size, chunkSize);
  }

  /**
   * One voxel placed just below `-chunkSize` (x = -33 with chunks of 32): the program writes
   * an empty record for chunk -2 at offset `chunkSize` and puts the voxel in chunk -1 at
   * offset 0, one cell to the right of where it belongs, chunk -2 at offset `chunkSize - 1`.
   */
  lemma AsWrittenOneBelowMinusSize(chunkSize: nat)
    requires chunkSize > 0
    ensures AxisSegments(-(chunkSize + 1), 1, chunkSize) == [Segment(-2, 0, chunkSize, 0), Segment(-1, 0, 0, 1)]
    ensures IntendedAxisSegments(-(chunkSize + 1), 1, chunkSize) == [Segment(-2, 0, chunkSize - 1, 1)]
    ensures Drift(-(chunkSize + 1), chunkSize) == 1
  {
    var start := -(chunkSize + 1);
    DivModUnique(chunkSize, chunkSize, 1, 0);
    DivModUnique(chunkSize + 1, chunkSize + 1, 1, 0);
    assert ChunkNumberAndOffset(start, chunkSize) == (-2, chunkSize);
    DivModUnique(start, chunkSize, -2, chunkSize - 1);
    assert FloorChunkAndOffset(start, chunkSize) == (-2, chunkSize - 1);
    assert Walk(-1, 0, 0, 1, chunkSize) == [Segment(-1, 0, 0, 1)] + Walk(0, 0, 1, 0, chunkSize);
    assert Walk(-2, chunkSize, 0, 1, chunkSize) == [Segment(-2, 0, chunkSize, 0)] + Walk(-1, 0, 0, 1, chunkSize);
    assert Walk(-2, chunkSize - 1, 0, 1, chunkSize) == [Segment(-2, 0, chunkSize - 1, 1)] + Walk(-1, 0, 1, 0, chunkSize);
  }

  /**
   * One voxel placed two cells below `-chunkSize` (x = -34 with chunks of 32): the program puts
   * it in chunk -2 at offset `chunkSize - 1`, one cell to the right of where it belongs,
   * offset `chunkSize - 2`.
   */
  lemma AsWrittenTwoBelowMinusSize(chunkSize: nat)
    requires chunkSize >= 2
    ensures AxisSegments(-(chunkSize + 2), 1, chunkSize) == [Segment(-2, 0, chunkSize - 1, 1)]
    ensures IntendedAxisSegments(-(chunkSize + 2), 1, chunkSize) == [Segment(-2, 0, chunkSize - 2, 1)]
    ensures Drift(-(chunkSize + 2), chunkSize) == 1
  {
    var start := -(chunkSize + 2);
    DivModUnique(chunkSize + 1, chunkSize, 1, 1);
    DivModUnique(chunkSize + 2, chunkSize + 1, 1, 1);
    assert ChunkNumberAndOffset(start, chunkSize) == (-2, chunkSize - 1);
    DivModUnique(start, chunkSize, -2, chunkSize - 2);
    assert FloorChunkAndOffset(start, chunkSize) == (-2, chunkSize - 2);
    assert Walk(-2, chunkSize - 1, 0, 1, chunkSize) == [Segment(-2, 0, chunkSize - 1, 1)] + Walk(-1, 0, 1, 0, chunkSize);
    assert Walk(-2, chunkSize - 2, 0, 1, chunkSize) == [Segment(-2, 0, chunkSize - 2, 1)] + Walk(-1, 0, 1, 0, chunkSize);
  }

  // ---------------------------------------------------------------------------
  // Records for three axes

  /** A triple of sizes or offsets, `[usize; 3]` in the source. */
  datatype Dims = Dims(x: nat, y: nat, z: nat)

  /** A world position, `[i32; 3]` in the source. */
  datatype Pos = Pos(x: int, y: int, z: int)

  /** A chunk coordinate. */
  type Key = (int, int, int)

  /** An overlay record: which placed asset, and the sub-box it copies (source offset, target offset, extent). */
  datatype Overlay = Overlay(asset: nat, source: Dims, target: Dims, extent: Dims)

  /** The chunk coordinates an asset placement writes a record for: the product of the three walks' chunks. */
  predicate InPlacement(position: Pos, dims: Dims, chunkSize: nat, k: Key)
    requires chunkSize > 0
  {
    && AxisHas(position.x, dims.x, chunkSize, k.0)
    && AxisHas(position.y, dims.y, chunkSize, k.1)
    && AxisHas(position.z, dims.z, chunkSize, k.2)
  }

  /** The record that `add` writes for chunk `k`: the run of each axis that lies in that chunk. */
  function PlacedRecord(asset: nat, position: Pos, dims: Dims, chunkSize: nat, k: Key): Overlay
    requires chunkSize > 0 && InPlacement(position, dims, chunkSize, k)
  {
    var sx := AxisRun(position.x, dims.x, chunkSize, k.0);
    var sy := AxisRun(position.y, dims.y, chunkSize, k.1);
    var sz := AxisRun(position.z, dims.z, chunkSize, k.2);
    Overlay(asset, Dims(sx.source, sy.source, sz.source), Dims(sx.target, sy.target, sz.target),
            Dims(sx.extent, sy.extent, sz.extent))
  }

  /** A record fits its chunk and its asset along every axis. */
  ghost predicate Fits(r: Overlay, dims: Dims, chunkSize: nat)
  {
    && r.target.x + r.extent.x <= chunkSize && r.target.y + r.extent.y <= chunkSize && r.target.z + r.extent.z <= chunkSize
    && r.source.x + r.extent.x <= dims.x && r.source.y + r.extent.y <= dims.y && r.source.z + r.extent.z <= dims.z
  }

  /**
   * The run of chunk `ck` fits chunk and asset and starts where the asset, shifted by the drift,
   * lies in the world; it is empty only as the first run, at offset `chunkSize`.
   */
  lemma AxisRunShape(start: int, size: nat, chunkSize: nat, ck: int)
    requires chunkSize > 0 && AxisHas(start, size, chunkSize, ck)
    ensures var r := AxisRun(start, size, chunkSize, ck);
      && (r.extent >= 1 || (ck == FirstChunk(start, chunkSize) && r.target == chunkSize))
      && r.target + r.extent <= chunkSize && r.source + r.extent <= size
      && ck * chunkSize + r.target == start + Drift(start, chunkSize) + r.source
  {
    AxisRunAt(start, size, chunkSize, ck - FirstChunk(start, chunkSize));
  }

  /**
   * Every record of a placement references the placed asset, fits its chunk and the asset, and
   * puts its sub-box where the asset, shifted by the drift of each axis, lies in the world; an
   * empty extent only occurs at offset `chunkSize` of the axis's first chunk.
   */
  lemma PlacedRecordShape(asset: nat, position: Pos, dims: Dims, chunkSize: nat, k: Key)
    requires chunkSize > 0 && InPlacement(position, dims, chunkSize, k)
    ensures var r := PlacedRecord(asset, position, dims, chunkSize, k);
      && r.asset == asset
      && Fits(r, dims, chunkSize)
      && (r.extent.x == 0 ==> k.0 == FirstChunk(position.x, chunkSize) && r.target.x == chunkSize)
      && (r.extent.y == 0 ==> k.1 == FirstChunk(position.y, chunkSize) && r.target.y == chunkSize)
      && (r.extent.z == 0 ==> k.2 == FirstChunk(position.z, chunkSize) && r.target.z == chunkSize)
      && k.0 * chunkSize + r.target.x == position.x + Drift(position.x, chunkSize) + r.source.x
      && k.1 * chunkSize + r.target.y == position.y + Drift(position.y, chunkSize) + r.source.y
      && k.2 * chunkSize + r.target.z == position.z + Drift(position.z, chunkSize) + r.source.z
  {
    AxisRunShape(position.x, dims.x, chunkSize, k.0);
    AxisRunShape(position.y, dims.y, chunkSize, k.1);
    AxisRunShape(position.z, dims.z, chunkSize, k.2);
  }

  /** The record of chunk `k` copies asset voxel `(a, b, c)`. */
  ghost predicate CopiesVoxel(r: Overlay, a: int, b: int, c: int)
  {
    && r.source.x <= a < r.source.x + r.extent.x
    && r.source.y <= b < r.source.y + r.extent.y
    && r.source.z <= c < r.source.z + r.extent.z
  }

  /** The asset position `position`, shifted along each axis by that axis's drift. */
  function Shifted(position: Pos, chunkSize: nat): Pos
    requires chunkSize > 0
  {
    Pos(position.x + Drift(position.x, chunkSize), position.y + Drift(position.y, chunkSize),
        position.z + Drift(position.z, chunkSize))
  }

  /**
   * The records of one placement tile the asset's box: each asset voxel is copied by the
   * record of exactly one chunk, and that record puts it at the chunk and local offset of the
   * voxel's world position, shifted by the drift (`Shifted`).
   */
  lemma PlacementTilesAsset(asset: nat, position: Pos, dims: Dims, chunkSize: nat, a: int, b: int, c: int)
    returns (k: Key)
    requires chunkSize > 0 && 0 <= a < dims.x && 0 <= b < dims.y && 0 <= c < dims.z
    ensures InPlacement(position, dims, chunkSize, k)
    ensures var r := PlacedRecord(asset, position, dims, chunkSize, k);
      var w := Shifted(position, chunkSize);
      && CopiesVoxel(r, a, b, c)
      && FloorChunkAndOffset(w.x + a, chunkSize) == (k.0, r.target.x + (a - r.source.x))
      && FloorChunkAndOffset(w.y + b, chunkSize) == (k.1, r.target.y + (b - r.source.y))
      && FloorChunkAndOffset(w.z + c, chunkSize) == (k.2, r.target.z + (c - r.source.z))
    ensures forall k': Key | InPlacement(position, dims, chunkSize, k') &&
      CopiesVoxel(PlacedRecord(asset, position, dims, chunkSize, k'), a, b, c) :: k' == k
  {
    var kx := AxisKey(position.x, dims.x, chunkSize, a);
    var ky := AxisKey(position.y, dims.y, chunkSize, b);
    var kz := AxisKey(position.z, dims.z, chunkSize, c);
    k := (kx, ky, kz);
  }

  /** From `-chunkSize` up on every axis, a placement is not shifted at all. */
  lemma PlacedAboveMinusSize(position: Pos, chunkSize: nat)
    requires chunkSize > 0
    requires position.x + chunkSize >= 0 && position.y + chunkSize >= 0 && position.z + chunkSize >= 0
    ensures Shifted(position, chunkSize) == position
  {
    AsWrittenAgreesAboveMinusSize(position.x, chunkSize);
    AsWrittenAgreesAboveMinusSize(position.y, chunkSize);
    AsWrittenAgreesAboveMinusSize(position.z, chunkSize);
  }
}
