/** Small value types and arithmetic facts shared by the modules of this model. */
module Common {

  /** Rust's `Option<T>`. */
  datatype Option<+T> = None | Some(value: T)

  const U32_MAX: int := 0xFFFF_FFFF

  /** A value of Rust's `u32`. */
  type U32 = n: int | 0 <= n <= U32_MAX

  /** Width of `usize` on the 64-bit targets the program is built for. */
  const USIZE_MODULUS: int := 0x1_0000_0000_0000_0000

  /** Rust's `v as usize` for a signed `v` that fits in 64 bits: two's complement reinterpretation. */
  function AsUsize(v: int): (r: nat)
    requires -USIZE_MODULUS / 2 <= v < USIZE_MODULUS / 2
    ensures r < USIZE_MODULUS
    ensures v >= 0 ==> r == v
    ensures v < 0 ==> r >= USIZE_MODULUS / 2
  {
    if v >= 0 then v else v + USIZE_MODULUS
  }

  function Min(a: int, b: int): (r: int)
    ensures r <= a && r <= b && (r == a || r == b)
  {
    if a <= b then a else b
  }

  /** Euclidean division is determined by any decomposition with a remainder in range. */
  lemma DivModUnique(a: int, b: int, q: int, rem: int)
    requires b > 0 && 0 <= rem < b && a == q * b + rem
    ensures a / b == q && a % b == rem
  {
    var q', r' := a / b, a % b;
    var k := q - q';
    assert k * b == r' - rem by {
      assert q * b - q' * b == (q - q') * b;
    }
    if k >= 1 {
      assert k * b >= b by { AtLeastOneMultiple(k, b); }
    } else if k <= -1 {
      assert (-k) * b >= b by { AtLeastOneMultiple(-k, b); }
    }
  }

  lemma AtLeastOneMultiple(k: int, b: int)
    requires k >= 1 && b > 0
    ensures k * b >= b
  {
    assert k * b == (k - 1) * b + b;
  }

  /** A row-major index `y * sx + x` of an in-range cell lies inside an `sx * sy` buffer. */
  lemma RowMajorBound(x: nat, y: nat, sx: nat, sy: nat)
    requires x < sx && y < sy
    ensures y * sx + x < sx * sy
  {
    assert (y + 1) * sx == y * sx + sx;
    MulMonotone(y + 1, sy, sx);
    assert sy * sx == sx * sy;
  }

  /** Multiplying by a natural number preserves order. */
  lemma {:induction false} MulMonotone(a: nat, b: nat, c: nat)
    requires a <= b
    ensures a * c <= b * c
    decreases c
  {
    if c > 0 {
      MulMonotone(a, b, c - 1);
      assert a * c == a * (c - 1) + a;
      assert b * c == b * (c - 1) + b;
    }
  }

  /** Distinct in-range cells have distinct row-major indices. */
  lemma RowMajorInjective(x1: nat, y1: nat, x2: nat, y2: nat, sx: nat)
    requires x1 < sx && x2 < sx && y1 * sx + x1 == y2 * sx + x2
    ensures x1 == x2 && y1 == y2
  {
    DivModUnique(y1 * sx + x1, sx, y1, x1);
    DivModUnique(y2 * sx + x2, sx, y2, x2);
  }
}
