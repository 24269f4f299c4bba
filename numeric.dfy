/** Integer facts shared by the tiling and the bit-packing models. */
module Numeric {

  /** 2 raised to `n`: the number of distinct values an `n`-bit token can take. */
  function Pow2(n: nat): (r: nat)
    ensures r >= 1
  {
    if n == 0 then 1 else 2 * Pow2(n - 1)
  }

  /** Number of values of a 32-bit `unsigned`; products of such operands wrap modulo this. */
  const UINT_RANGE: nat := 0x1_0000_0000

  lemma {:induction false} Pow2Monotone(m: nat, n: nat)
    requires m <= n
    ensures Pow2(m) <= Pow2(n)
  {
    if m < n {
      Pow2Monotone(m, n - 1);
    }
  }

  lemma MulMonotone(a: nat, b: nat, c: nat)
    requires a <= b
    ensures a * c <= b * c
  {
  }

  /** Euclidean division is unique: `q * c + r` with `0 <= r < c` has quotient `q` and remainder `r`. */
  lemma DivModUnique(q: int, r: int, c: int)
    requires c > 0 && 0 <= r < c
    ensures (q * c + r) / c == q && (q * c + r) % c == r
  {
    var a := q * c + r;
    var q', r' := a / c, a % c;
    assert a == q' * c + r';
    assert (q - q') * c == r' - r;
    if q > q' {
      MulMonotone(1, q - q', c);
      assert false;
    } else if q < q' {
      MulMonotone(1, q' - q, c);
      assert false;
    }
  }

  /** Removing one block of width `g` from `n` removes one from the quotient. */
  lemma DivSub(n: nat, g: nat)
    requires g > 0 && n >= g
    ensures (n - g) / g == n / g - 1 && (n - g) % g == n % g
  {
    assert n == (n / g) * g + n % g;
    assert n - g == (n / g - 1) * g + n % g;
    DivModUnique(n / g - 1, n % g, g);
  }

  /** Adding one block of width `g` to `n` adds one to the quotient. */
  lemma DivAdd(n: nat, g: nat)
    requires g > 0
    ensures (n + g) / g == n / g + 1 && (n + g) % g == n % g
  {
    DivSub(n + g, g);
  }

  /** A multiple of a multiple of `g` is a multiple of `g`. */
  lemma MulMod(n: nat, w: nat, g: nat)
    requires g > 0 && w % g == 0
    ensures (n * w) % g == 0
  {
    var m := w / g;
    assert w == m * g;
    assert n * w == (n * m) * g;
    DivModUnique(n * m, 0, g);
  }

  /** From one group boundary below `n`, a whole group still fits when `g` divides `n`. */
  lemma NextBlock(x: nat, g: nat, n: nat)
    requires g > 0 && x % g == 0 && n % g == 0 && x < n
    ensures x + g <= n && (x + g) % g == 0
  {
    assert x == (x / g) * g && n == (n / g) * g;
    if x / g >= n / g {
      MulMonotone(n / g, x / g, g);
      assert false;
    }
    MulMonotone(x / g + 1, n / g, g);
    DivAdd(x, g);
  }

  /** A value below `d * q` lies in one of the first `d` blocks of width `q`. */
  lemma BlockOf(x: nat, q: nat, d: nat)
    requires q > 0 && x < d * q
    ensures 0 <= x / q < d
    ensures (x / q) * q <= x < (x / q + 1) * q
  {
    assert x == (x / q) * q + x % q;
    if x / q >= d {
      MulMonotone(d, x / q, q);
      assert false;
    }
  }

  /** A value in block `[a*q, (a+1)*q)` has quotient `a`, and lies below `d*q` when `a < d`. */
  lemma InBlock(a: nat, q: nat, x: int, d: nat)
    requires a * q <= x < (a + 1) * q
    ensures q > 0 && x / q == a
    ensures a < d ==> x < d * q
  {
    assert (a + 1) * q == a * q + q;
    DivModUnique(a, x - a * q, q);
    if a < d {
      MulMonotone(a + 1, d, q);
    }
  }

  /** The pair `(a, b)` of a `d` x `d` grid has index `a * d + b`, from which it is recovered by division. */
  lemma PairIndex(a: nat, b: nat, d: nat)
    requires a < d && b < d
    ensures a * d + b < d * d && (a * d + b) / d == a && (a * d + b) % d == b
  {
    DivModUnique(a, b, d);
    MulMonotone(a + 1, d, d);
  }

  /**
   * A point `(x, y)` below `d * qx` by `d * qy` lies in cell `(x / qx, y / qy)`
   * of a `d` x `d` grid of `qx` by `qy` blocks; that cell's row-major index
   * `(x / qx) * d + y / qy` is below `d * d` and gives the cell back.
   */
  lemma CellOf(x: nat, y: nat, qx: nat, qy: nat, d: nat)
    requires x < d * qx && y < d * qy
    ensures qx > 0 && qy > 0
    ensures var a, b := x / qx, y / qy;
      a * qx <= x < (a + 1) * qx && b * qy <= y < (b + 1) * qy &&
      a * d + b < d * d && (a * d + b) / d == a && (a * d + b) % d == b
  {
    assert qx > 0 && qy > 0;
    BlockOf(x, qx, d);
    BlockOf(y, qy, d);
    PairIndex(x / qx, y / qy, d);
  }

  /** `d` blocks of width `w / d` fit in `w`. */
  lemma BlocksFit(a: nat, d: nat, w: nat)
    requires 0 < d && a < d
    ensures (a + 1) * (w / d) <= d * (w / d) <= w
  {
    MulMonotone(a + 1, d, w / d);
  }

  /** Dividing a multiple of `n * w` by a divisor `g` of `w` divides `w` alone: `(n * w) / g == n * (w / g)`. */
  lemma MulDivExact(n: nat, w: nat, g: nat)
    requires g > 0 && w % g == 0
    ensures (n * w) / g == n * (w / g) && (n * w) % g == 0
  {
    var m := w / g;
    assert w == m * g;
    calc {
      n * w;
      n * (m * g);
      (n * m) * g;
    }
    DivModUnique(n * m, 0, g);
  }
}
