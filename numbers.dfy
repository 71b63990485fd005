/** Machine-integer facts: the width of `usize`, the non-zero `usize` type the
    grid uses for its dimensions, checked multiplication, and the division
    facts that the row-major index arithmetic depends on. */
module Numbers {
  import opened Options

  /** The largest value of a 64-bit `usize`. */
  const USIZE_MAX: nat := 0xFFFF_FFFF_FFFF_FFFF

  /** `NonZero<usize>`: a machine word that is never zero. */
  type NonZeroUsize = n: nat | 0 < n <= USIZE_MAX witness 1

  /** `usize::checked_mul`: the product, or nothing when it does not fit. */
  function CheckedMul(a: nat, b: nat): (r: Option<nat>)
    ensures r.Some? <==> a * b <= USIZE_MAX
    ensures r.Some? ==> r.value == a * b && r.value <= USIZE_MAX
  {
    if a * b <= USIZE_MAX then Some(a * b) else None
  }

  /** Row-major decomposition is unique: if `i == y * w + x` with `x < w`,
      then `x` and `y` are the remainder and the quotient of `i` by `w`. */
  lemma DivModUnique(i: nat, w: nat, x: nat, y: nat)
    requires x < w && i == y * w + x
    ensures i % w == x && i / w == y
  {
    var q, r := i / w, i % w;
    assert i == q * w + r;
    if q < y {
      MulMonotone(q + 1, y, w);
      assert false;
    } else if y < q {
      MulMonotone(y + 1, q, w);
      assert false;
    }
  }

  /** The remainder never exceeds the dividend, and removing it leaves a
      whole number of divisors. */
  lemma RemainderAtMost(n: nat, d: nat)
    requires 0 < d
    ensures n % d <= n && n - n % d == (n / d) * d
  {
    assert n == (n / d) * d + n % d;
    MulMonotone(0, n / d, d);
  }

  lemma MulMonotone(a: nat, b: nat, w: nat)
    requires a <= b
    ensures a * w <= b * w
  {
  }

  /** A positive multiple of `d` is at least `d`. */
  lemma DivisorAtMost(n: nat, d: nat)
    requires 0 < n && 0 < d && n % d == 0
    ensures d <= n
  {
    var q := n / d;
    assert n == q * d;
    MulMonotone(1, q, d);
  }

  /** A row index below the height, and a column below the width, give a cell
      index below the size; a row index at or above the height gives none. */
  lemma {:induction false} RowMajorBound(x: nat, y: nat, w: nat, h: nat)
    requires x < w
    ensures y * w + x < h * w <==> y < h
  {
    if y < h {
      MulMonotone(y + 1, h, w);
      assert (y + 1) * w == y * w + w;
    } else {
      MulMonotone(h, y, w);
    }
  }

  /** Row `y < h` of a `w`-wide row-major buffer of `h * w` cells ends inside it. */
  lemma RowEndBound(y: nat, w: nat, h: nat)
    requires y < h
    ensures (y + 1) * w <= h * w
  {
    MulMonotone(y + 1, h, w);
  }
}
