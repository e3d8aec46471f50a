/** Integer facts shared by the raster and codec modules: division into rows and columns,
    powers of two, and the bitwise operators of the source written over unbounded integers. */
module Arith {

  function Max(a: int, b: int): int {
    if a > b then a else b
  }

  function Min(a: int, b: int): int {
    if a < b then a else b
  }

  /** b lies between a and c, whichever of them is larger. */
  predicate Between(a: int, b: int, c: int) {
    a <= b <= c || a >= b >= c
  }

  /** A number has one quotient and one remainder. */
  lemma DivModUnique(q: int, r: int, d: int)
    requires 0 <= r < d
    ensures (q * d + r) / d == q && (q * d + r) % d == r
  {
    var n := q * d + r;
    var e := n / d - q;
    assert n == d * (n / d) + n % d;
    assert e * d == r - n % d by {
      assert d * (n / d) == d * (q + e);
    }
    SmallMultiple(e, d);
  }

  lemma SmallMultiple(e: int, d: int)
    requires -d < e * d < d
    ensures e == 0
  {
    if e >= 1 {
      MulMono(1, e, d);
    } else if e <= -1 {
      MulMono(e, -1, d);
    }
  }

  lemma MulMono(a: int, b: int, c: int)
    requires a <= b && 0 <= c
    ensures a * c <= b * c
  {
  }

  /** Indices of the first h rows of width w are exactly those below w * h. */
  lemma RowMajorBound(row: int, col: int, w: int, h: int)
    requires 0 <= col < w
    ensures row < h <==> row * w + col < w * h
    ensures 0 <= row <==> 0 <= row * w + col
  {
    if row < h {
      MulMono(row + 1, h, w);
    } else {
      MulMono(h, row, w);
    }
    if row < 0 {
      MulMono(row + 1, 0, w);
    } else {
      MulMono(0, row, w);
    }
  }

  /** The next index in row-major order: one column on, or the start of the next row. */
  lemma RowMajorStep(n: nat, w: int)
    requires 0 < w
    ensures n % w + 1 < w ==> (n + 1) % w == n % w + 1 && (n + 1) / w == n / w
    ensures n % w + 1 >= w ==> (n + 1) % w == 0 && (n + 1) / w == n / w + 1
  {
    if n % w + 1 < w {
      DivModUnique(n / w, n % w + 1, w);
      assert (n / w) * w + (n % w + 1) == n + 1;
    } else {
      DivModUnique(n / w + 1, 0, w);
      assert (n / w + 1) * w == (n / w) * w + w;
    }
  }

  function Pow2(k: nat): (p: nat)
    ensures p >= 1
  {
    if k == 0 then 1 else 2 * Pow2(k - 1)
  }

  lemma Pow2Values()
    ensures Pow2(0) == 1 && Pow2(1) == 2 && Pow2(2) == 4 && Pow2(3) == 8 && Pow2(4) == 16
    ensures Pow2(5) == 32 && Pow2(6) == 64 && Pow2(7) == 128 && Pow2(8) == 256
  {
    assert Pow2(2) == 4;
    assert Pow2(4) == 16;
    assert Pow2(6) == 64;
  }

  /** The bit of weight k (a power of two): `(n & k) != 0`. */
  predicate HasBit(n: int, k: int)
    requires k > 0
  {
    (n / k) % 2 == 1
  }

  /** Bitwise or of two non-negative integers. */
  function BitOr(a: nat, b: nat): nat
    decreases a + b
  {
    if a == 0 then b
    else if b == 0 then a
    else (if a % 2 == 1 || b % 2 == 1 then 1 else 0) + 2 * BitOr(a / 2, b / 2)
  }

  /** The lowest bit and the others are or-ed apart. */
  lemma BitOrSplits(a: nat, b: nat)
    ensures BitOr(a, b) == (if a % 2 == 1 || b % 2 == 1 then 1 else 0) + 2 * BitOr(a / 2, b / 2)
    ensures BitOr(a, 0) == a
  {
  }

  lemma {:induction false} BitOrZero(a: nat, b: nat)
    ensures BitOr(a, b) == 0 <==> a == 0 && b == 0
    decreases a + b
  {
    if a != 0 && b != 0 {
      BitOrZero(a / 2, b / 2);
    }
  }

  /** Or-ing a field above all set bits of a number is addition: nothing carries. */
  lemma {:induction false} BitOrDisjoint(a: nat, b: nat, k: nat)
    requires a < Pow2(k)
    ensures BitOr(a, b * Pow2(k)) == a + b * Pow2(k)
    decreases k
  {
    if a != 0 && b != 0 {
      var hi := b * Pow2(k);
      assert hi == 2 * (b * Pow2(k - 1)) by {
        assert Pow2(k) == 2 * Pow2(k - 1);
      }
      BitOrDisjoint(a / 2, b, k - 1);
    }
  }
}
