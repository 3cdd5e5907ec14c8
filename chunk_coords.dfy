/**
 * The sign-aware coordinate mapper of the voxel world: a world coordinate along one
 * axis is split into the index of the chunk that holds it and the offset inside it.
 */
module ChunkCoords {

  import opened Common

  /** Rust's `/` on signed integers: the quotient is truncated toward zero. */
  function TruncDiv(a: int, b: int): (q: int)
    requires b > 0
    ensures a >= 0 ==> q == a / b
    ensures a < 0 ==> q == -((-a) / b)
  {
    if a >= 0 then a / b else -((-a) / b)
  }

  /**
   * `World::chunk_number_and_offset` as the code writes it: the non-negative branch uses
   * `/` and `%`, the negative branch `(start + 1) / size - 1` and
   * `size - (-start % (size + 1))`.
   */
  function ChunkNumberAndOffset(start: int, chunkSize: int): (r: (int, int))
    requires chunkSize > 0
    ensures 0 <= r.1 <= chunkSize
  {
    if start >= 0 then
      (start / chunkSize, start % chunkSize)
    else
      (TruncDiv(start + 1, chunkSize) - 1, chunkSize - ((-start) % (chunkSize + 1)))
  }

  /** For a non-negative coordinate the split is exact and the offset is inside the chunk. */
  lemma NonNegativeSplit(start: int, chunkSize: int)
    requires chunkSize > 0 && start >= 0
    ensures ChunkNumberAndOffset(start, chunkSize) == (start / chunkSize, start % chunkSize)
    ensures ChunkNumberAndOffset(start, chunkSize).0 * chunkSize + ChunkNumberAndOffset(start, chunkSize).1 == start
    ensures ChunkNumberAndOffset(start, chunkSize).1 < chunkSize
  {
  }

  /** The chunk index is the floor of `start / chunkSize` for every coordinate, negative ones included. */
  lemma {:induction false} ChunkIndexIsFloor(start: int, chunkSize: int)
    requires chunkSize > 0
    ensures ChunkNumberAndOffset(start, chunkSize).0 == start / chunkSize
  {
    if start < 0 {
      var n := -start;
      var q := (n - 1) / chunkSize;
      var rem := (n - 1) % chunkSize;
      assert n - 1 == q * chunkSize + rem;
      DivModUnique(start, chunkSize, -q - 1, chunkSize - rem - 1);
    }
  }

  /** On `-chunkSize <= start < 0` the negative branch is exact and its offset is inside the chunk. */
  lemma {:induction false} NegativeSplitNearZero(start: int, chunkSize: int)
    requires chunkSize > 0 && -chunkSize <= start < 0
    ensures ChunkNumberAndOffset(start, chunkSize) == (-1, chunkSize + start)
    ensures ChunkNumberAndOffset(start, chunkSize).0 * chunkSize + ChunkNumberAndOffset(start, chunkSize).1 == start
    ensures ChunkNumberAndOffset(start, chunkSize).1 < chunkSize
  {
    assert (-start) % (chunkSize + 1) == -start by {
      DivModUnique(-start, chunkSize + 1, 0, -start);
    }
    assert (-(start + 1)) / chunkSize == 0 by {
      DivModUnique(-(start + 1), chunkSize, 0, -(start + 1));
    }
  }

  /**
   * The as-written negative branch breaks just below `-chunkSize`: for `(-5, 4)` it yields
   * `(-2, 4)`, an offset equal to the chunk size that does not land on `-5`; the intended
   * answer is `(-2, 3)`.
   */
  lemma AsWrittenFailsAtMinusFive()
    ensures ChunkNumberAndOffset(-5, 4) == (-2, 4)
    ensures ChunkNumberAndOffset(-5, 4).1 == 4
    ensures ChunkNumberAndOffset(-5, 4).0 * 4 + ChunkNumberAndOffset(-5, 4).1 != -5
  {
    assert TruncDiv(-4, 4) == -1;
    assert 5 % 5 == 0;
  }

  /**
   * At every multiple of `-(chunkSize + 1)` the as-written offset equals the chunk size, so the
   * first step of the walk in `add`, `min(size, chunkSize - offset)`, is 0: `add` writes an
   * empty record for the chunk that holds `start`, and the asset begins in the next chunk at
   * offset 0 (`Placement.AsWrittenFirstRunEmpty`).
   */
  lemma {:induction false} AsWrittenOffsetReachesSize(m: nat, chunkSize: int, size: nat)
    requires chunkSize > 0 && m >= 1
    ensures ChunkNumberAndOffset(-(chunkSize + 1) * m, chunkSize).1 == chunkSize
    ensures Min(size, chunkSize - ChunkNumberAndOffset(-(chunkSize + 1) * m, chunkSize).1) == 0
  {
    assert -(-(chunkSize + 1) * m) == m * (chunkSize + 1);
    DivModUnique(m * (chunkSize + 1), chunkSize + 1, m, 0);
  }

  /** The mapper as intended: floor division and the matching non-negative remainder. */
  function FloorChunkAndOffset(start: int, chunkSize: int): (r: (int, int))
    requires chunkSize > 0
    ensures r.0 * chunkSize + r.1 == start
    ensures 0 <= r.1 < chunkSize
  {
    (start / chunkSize, start % chunkSize)
  }

  /** The code and the intended mapper agree wherever the code is right: on every `start >= -chunkSize`. */
  lemma {:induction false} AsWrittenAgreesAboveMinusSize(start: int, chunkSize: int)
    requires chunkSize > 0 && start >= -chunkSize
    ensures ChunkNumberAndOffset(start, chunkSize) == FloorChunkAndOffset(start, chunkSize)
  {
    if start < 0 {
      NegativeSplitNearZero(start, chunkSize);
      DivModUnique(start, chunkSize, -1, chunkSize + start);
    }
  }

  /** The four cases of the repository's own unit test, against the intended mapper. */
  lemma FloorMapperMatchesUnitTest()
    ensures FloorChunkAndOffset(-5, 32) == (-1, 27)
    ensures FloorChunkAndOffset(-5, 4) == (-2, 3)
    ensures FloorChunkAndOffset(2, 4) == (0, 2)
    ensures FloorChunkAndOffset(5, 4) == (1, 1)
  {
  }
}
