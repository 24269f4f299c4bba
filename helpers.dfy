/**
 * The three helpers the core takes from `HelperFunctions.h`: `gd`,
 * `isPerfectSquare` and `decToBinary`.  Their bodies are not part of this
 * model; each is defined here from the contract its callers document and
 * rely on.
 */
module HelperFunctions {
  import opened Numeric
  import opened Bits
  import opened Text
  import opened Wrappers

  /** `d` is a positive divisor of `n`. */
  predicate Divides(d: int, n: int) {
    d > 0 && n % d == 0
  }

  lemma NoLargerDivisor(n: nat)
    requires n > 0
    ensures forall m :: m > n ==> !Divides(m, n)
  {
    forall m | m > n
      ensures !Divides(m, n)
    {
      DivModUnique(0, n, m);
    }
  }

  /** Counting down from `k`, the first divisor of `n`; 1 if none is above 1. */
  function GdFrom(n: nat, k: int): (g: nat)
    requires n > 0 && k <= n
    ensures 1 <= g && (g == 1 || g <= k)
    ensures Divides(g, n)
    ensures forall m :: g < m <= k ==> !Divides(m, n)
    decreases k
  {
    if k <= 1 then 1
    else if n % k == 0 then k
    else GdFrom(n, k - 1)
  }

  /** `g` is the largest divisor of `n` that does not exceed `cap`, or 1 for a cap below 1. */
  predicate LargestDivisor(g: int, n: nat, cap: int) {
    1 <= g <= (if cap < 1 then 1 else cap) && Divides(g, n) && forall m :: g < m <= cap ==> !Divides(m, n)
  }

  /** Counting down from `cap` (or from `n`, when it is smaller) finds the largest divisor. */
  lemma LargestDivisorExists(n: nat, cap: int)
    requires n > 0
    ensures exists g :: LargestDivisor(g, n, cap)
  {
    NoLargerDivisor(n);
    var g := GdFrom(n, if cap < n then cap else n);
    assert LargestDivisor(g, n, cap);
  }

  /**
   * `gd(dividend, cap)`: the largest divisor of `dividend` that does not
   * exceed `cap`, so that `dividend / g` is exact; a cap below 1 yields 1.
   * A zero dividend has no such largest divisor and is the caller's error.
   */
  function Gd(dividend: nat, cap: int): (g: nat)
    requires dividend > 0
    ensures 1 <= g <= (if cap < 1 then 1 else cap)
    ensures Divides(g, dividend)
    ensures forall m :: g < m <= cap ==> !Divides(m, dividend)
  {
    LargestDivisorExists(dividend, cap);
    var g: nat :| LargestDivisor(g, dividend, cap);
    g
  }

  /** The group widths the driver's image sizes lead to. */
  lemma GdExamples()
    ensures Gd(605, 30) == 11 && Gd(600, 30) == 30 && Gd(7, 30) == 7 && Gd(1024, 30) == 16
  {
    assert Divides(11, 605) && forall m :: 11 < m <= 30 ==> !Divides(m, 605);
    assert Divides(16, 1024) && forall m :: 16 < m <= 30 ==> !Divides(m, 1024);
    GdIsLargest(605, 30, 11);
    GdIsLargest(600, 30, 30);
    GdIsLargest(7, 30, 7);
    GdIsLargest(1024, 30, 16);
  }

  /** The contract of `Gd` determines its value. */
  lemma GdIsLargest(dividend: nat, cap: int, d: nat)
    requires dividend > 0 && 1 <= d && d <= (if cap < 1 then 1 else cap)
    requires Divides(d, dividend) && forall m :: d < m <= cap ==> !Divides(m, dividend)
    ensures Gd(dividend, cap) == d
  {
  }

  function Square(d: nat): nat {
    d * d
  }

  lemma SquareSucc(d: nat)
    ensures Square(d + 1) == Square(d) + 2 * d + 1
  {
  }

  lemma SquareMonotone(a: nat, b: nat)
    requires a <= b
    ensures Square(a) <= Square(b)
  {
    MulMonotone(a, b, a);
    MulMonotone(a, b, b);
  }

  /** The integer square root: the `r` with `r * r <= n < (r + 1) * (r + 1)`. */
  function ISqrt(n: nat): (r: nat)
    ensures Square(r) <= n < Square(r + 1)
  {
    if n == 0 then 0
    else
      var s := ISqrt(n - 1);
      SquareMonotone(s + 1, s + 2);
      if Square(s + 1) <= n then s + 1 else s
  }

  /** A perfect square has exactly one square root, the integer square root. */
  lemma SquareRootUnique(n: nat, d: nat)
    requires Square(d) == n
    ensures ISqrt(n) == d
  {
    var r := ISqrt(n);
    if d < r {
      SquareMonotone(d + 1, r);
      SquareSucc(d);
      assert false;
    } else if r < d {
      SquareMonotone(r + 1, d);
      assert false;
    }
  }

  /** `isPerfectSquare(n)`: true exactly when `n` is the square of a natural number. */
  function IsPerfectSquare(n: int): (b: bool)
    ensures b <==> exists d: nat :: Square(d) == n
  {
    if n < 0 then false
    else
      assert forall d: nat :: Square(d) == n ==> ISqrt(n) == d by {
        forall d: nat | Square(d) == n
          ensures ISqrt(n) == d
        {
          SquareRootUnique(n, d);
        }
      }
      Square(ISqrt(n)) == n
  }

  /**
   * `decToBinary(line, g)`, as the decoder relies on it: for a line holding
   * a decimal number below `2^g`, its `g` bits as '0'/'1' characters, most
   * significant first; for any other line (empty, not a number, too large
   * for `g` bits) the empty string, which the decoder skips.
   */
  function DecToBinary(line: string, g: nat): (s: string)
    ensures s == "" || |s| == g
    ensures IsBinary(s)
  {
    match ParseDecimal(line)
    case Some(v) => if v < Pow2(g) then BinaryString(ToBits(v, g)) else ""
    case None => ""
  }

  /** What the encoders print for a token of `g` bits expands back to that token's bits. */
  lemma DecToBinaryOfToken(v: nat, g: nat)
    requires v < Pow2(g)
    ensures BitsOf(DecToBinary(Decimal(v), g)) == ToBits(v, g)
  {
    DecimalRoundTrip(v);
    BitsOfBinaryString(ToBits(v, g));
  }

  /** A token too large for `g` bits expands to nothing. */
  lemma DecToBinaryRejectsOverflow(line: string, g: nat, v: nat)
    requires ParseDecimal(line) == Some(v) && v >= Pow2(g)
    ensures DecToBinary(line, g) == ""
  {
  }
}
