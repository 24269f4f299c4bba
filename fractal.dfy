/**
 * One `Mandelbrot` worker: the image size, the tile `[minX, maxX) x
 * [minY, maxY)` it computes, its iteration count and the number of
 * membership bits it combines into one token.  `calculateImage` paints its
 * tile of a shared image; `calculateCompressedImage` streams the tile's
 * membership bits, row by row, into decimal tokens of `numOfCombinedBits`
 * bits each.
 *
 * The escape-time iteration itself is floating-point arithmetic and is a
 * parameter here (`EscapeTest`); a text buffer is modelled as its sequence
 * of lines.
 */
module Fractal {
  import opened Numeric
  import opened Bits
  import opened Text
  import opened HelperFunctions
  import opened Tiles
  import opened PPM

  /**
   * Whether pixel `(x, y)` of a `width` x `height` image stays bounded for
   * `iterations` steps of `z := z * z + c`.
   */
  type EscapeTest = (nat, nat, nat, nat, int) -> bool

  /** The iteration count the constructors choose when none is given. */
  const DEFAULT_ITERATIONS: int := 34

  /** The cap the constructors pass to `gd` for the group width. */
  const MAX_COMBINED_BITS: int := 30

  /** The membership test of a worker for an image of the given size, as a function of the pixel alone. */
  function Sampler(inside: EscapeTest, width: nat, height: nat, iterations: int): (nat, nat) -> bool {
    (x: nat, y: nat) => inside(x, y, width, height, iterations)
  }

  /** The colour `calculateImage` paints: black inside the set, white outside, as 0/1 values. */
  function PixelColour(isInside: bool): (c: RGB)
    ensures c.r == c.g == c.b && c.r <= 1 && (c.r == 0 <==> isInside)
  {
    if isInside then RGB(0, 0, 0) else RGB(1, 1, 1)
  }

  /**
   * The group width the packer actually uses.  The group is flushed once
   * `bufIndex > numOfCombinedBits - 1`; below 1 that holds after every
   * pixel, so such a width behaves like 1.
   */
  function EffectiveGroup(numOfCombinedBits: int): nat {
    if numOfCombinedBits < 1 then 1 else numOfCombinedBits
  }

  /**
   * The state of the packing loop after the bits `s`: every complete group
   * of them has been appended to `buf0` as a token, the `bufIndex` bits of
   * the unfinished group are pending, and `valCoded` is their value.
   */
  ghost predicate Packing(buf0: seq<string>, s: seq<bool>, g: int, bufIndex: int, valCoded: int, out: seq<string>) {
    var n := EffectiveGroup(g);
    var pending := Pending(s, n);
    bufIndex == |pending| && valCoded == Value(pending) && out == buf0 + DecimalLines(Pack(s, n))
  }

  /**
   * Between two pixels fewer than a group's bits are pending, they are the
   * `|s| % n` trailing bits of the stream, and their value fits in them.
   */
  lemma PendingBounded(buf0: seq<string>, s: seq<bool>, g: int, bufIndex: int, valCoded: int, out: seq<string>)
    requires Packing(buf0, s, g, bufIndex, valCoded, out)
    ensures 0 <= bufIndex < EffectiveGroup(g) && bufIndex == |s| % EffectiveGroup(g)
    ensures 0 <= valCoded < Pow2(bufIndex) && valCoded == Value(s[|s| - bufIndex..])
  {
    var n := EffectiveGroup(g);
    var pending := Pending(s, n);
    PendingTail(s, n);
    assert bufIndex == |pending| && valCoded == Value(pending);
    assert s[|s| - bufIndex..] == pending;
  }

  /** The bit that completes a group flushes the group's value as a token and empties the pending bits. */
  lemma FlushCase(buf0: seq<string>, s: seq<bool>, b: bool, g: int, bufIndex: int, valCoded: int, out: seq<string>)
    requires Packing(buf0, s, g, bufIndex, valCoded, out) && bufIndex + 1 > g - 1
    ensures Packing(buf0, s + [b], g, 0, 0, out + [Decimal(2 * valCoded + Bit(b))])
  {
    var n := EffectiveGroup(g);
    var pending := Pending(s, n);
    ValueSnoc(pending, b);
    PackSnocFlush(s, b, n);
    FlushStep(buf0, Pack(s, n), out, Value(pending + [b]));
  }

  /** A bit that does not complete a group only joins the pending bits. */
  lemma ShiftCase(buf0: seq<string>, s: seq<bool>, b: bool, g: int, bufIndex: int, valCoded: int, out: seq<string>)
    requires Packing(buf0, s, g, bufIndex, valCoded, out) && !(bufIndex + 1 > g - 1)
    ensures Packing(buf0, s + [b], g, bufIndex + 1, 2 * valCoded + Bit(b), out)
  {
    ValueSnoc(Pending(s, EffectiveGroup(g)), b);
    PackSnocShift(s, b, EffectiveGroup(g));
  }

  /** Shifting bit `b` in below the bits `bits` doubles their value and adds the bit. */
  lemma ValueSnoc(bits: seq<bool>, b: bool)
    ensures Value(bits + [b]) == 2 * Value(bits) + Bit(b)
  {
    assert (bits + [b])[..|bits|] == bits;
  }

  /** Flushing the token `v` appends its line. */
  lemma FlushStep(buf0: seq<string>, tokens: seq<nat>, out: seq<string>, v: nat)
    requires out == buf0 + DecimalLines(tokens)
    ensures out + [Decimal(v)] == buf0 + DecimalLines(tokens + [v])
  {
    DecimalLinesAppend(tokens, [v]);
  }

  /**
   * One pixel of `calculateCompressedImage`: shifting the bit of pixel
   * `(x, y)` into the pending value, and flushing a complete group, keeps
   * the packing state of the bits visited so far.
   */
  lemma PixelStep(p: (nat, nat) -> bool, minX: nat, x: nat, y: nat, s: seq<bool>, b: bool,
                  buf0: seq<string>, g: int, bufIndex: int, valCoded: int, out: seq<string>,
                  bufIndex': int, valCoded': int, out': seq<string>)
    requires minX <= x && b == p(x, y)
    requires Packing(buf0, s + RowScan(p, minX, x, y), g, bufIndex, valCoded, out)
    requires var v := 2 * valCoded + Bit(b);
      if bufIndex + 1 > g - 1 then bufIndex' == 0 && valCoded' == 0 && out' == out + [Decimal(v)]
      else bufIndex' == bufIndex + 1 && valCoded' == v && out' == out
    ensures Packing(buf0, s + RowScan(p, minX, x + 1, y), g, bufIndex', valCoded', out')
  {
    var row := RowScan(p, minX, x, y);
    assert RowScan(p, minX, x + 1, y) == row + [b];
    AppendAssoc(s, row, [b]);
    if bufIndex + 1 > g - 1 {
      FlushCase(buf0, s + row, b, g, bufIndex, valCoded, out);
    } else {
      ShiftCase(buf0, s + row, b, g, bufIndex, valCoded, out);
    }
  }

  class Mandelbrot {
    var width: nat
    var height: nat
    var minX: nat
    var maxX: nat
    var minY: nat
    var maxY: nat
    var numOfCombinedBits: int
    var iterations: int

    /** The tile this worker computes. */
    function Bounds(): Tile
      reads this
    {
      Tile(minX, maxX, minY, maxY)
    }

    /** This worker's membership test. */
    function Sample(inside: EscapeTest): (nat, nat) -> bool
      reads this
    {
      Sampler(inside, width, height, iterations)
    }

    /** The empty template: zero sizes and bounds, and no group width. */
    constructor Empty()
      ensures width == 0 && height == 0 && Bounds() == Tile(0, 0, 0, 0)
      ensures numOfCombinedBits == 0 && iterations == DEFAULT_ITERATIONS
    {
      width, height := 0, 0;
      minX, maxX, minY, maxY := 0, 0, 0, 0;
      numOfCombinedBits := 0;
      iterations := DEFAULT_ITERATIONS;
    }

    /** A whole-image worker with an empty tile; the group width is `gd(width, 30)`. */
    constructor Sized(width: nat, height: nat)
      requires width > 0
      ensures this.width == width && this.height == height && Bounds() == Tile(0, 0, 0, 0)
      ensures numOfCombinedBits == Gd(width, MAX_COMBINED_BITS) && iterations == DEFAULT_ITERATIONS
    {
      this.width, this.height := width, height;
      this.minX, this.maxX, this.minY, this.maxY := 0, 0, 0, 0;
      numOfCombinedBits := Gd(width, MAX_COMBINED_BITS);
      iterations := DEFAULT_ITERATIONS;
    }

    /** A worker for the tile `[minX, maxX) x [minY, maxY)`; the group width is `gd(width, 30)`. */
    constructor Part(width: nat, height: nat, minX: nat, maxX: nat, minY: nat, maxY: nat)
      requires width > 0
      ensures this.width == width && this.height == height && Bounds() == Tile(minX, maxX, minY, maxY)
      ensures numOfCombinedBits == Gd(width, MAX_COMBINED_BITS) && iterations == DEFAULT_ITERATIONS
    {
      this.width, this.height := width, height;
      this.minX, this.maxX, this.minY, this.maxY := minX, maxX, minY, maxY;
      numOfCombinedBits := Gd(width, MAX_COMBINED_BITS);
      iterations := DEFAULT_ITERATIONS;
    }

    /** As `Part`, with a given iteration count. */
    constructor PartWithIterations(width: nat, height: nat, minX: nat, maxX: nat, minY: nat, maxY: nat, iterations: int)
      requires width > 0
      ensures this.width == width && this.height == height && Bounds() == Tile(minX, maxX, minY, maxY)
      ensures numOfCombinedBits == Gd(width, MAX_COMBINED_BITS) && this.iterations == iterations
    {
      this.width, this.height := width, height;
      this.minX, this.maxX, this.minY, this.maxY := minX, maxX, minY, maxY;
      numOfCombinedBits := Gd(width, MAX_COMBINED_BITS);
      this.iterations := iterations;
    }

    /**
     * `setCompressionLevel(n)`: the group width becomes `gd(width, n)`, the
     * largest divisor of the width not above `n`; nothing else changes.
     */
    method SetCompressionLevel(n: int)
      requires width > 0
      modifies this
      ensures width == old(width) && height == old(height) && Bounds() == old(Bounds()) && iterations == old(iterations)
      ensures numOfCombinedBits == Gd(width, n)
    {
      numOfCombinedBits := Gd(width, n);
    }

    /**
     * `calculateCompressedImage(returnBuf)`: visits the tile row by row,
     * each row left to right, shifting one membership bit per pixel into
     * `valCoded` and appending its decimal value as a line after every
     * `numOfCombinedBits` pixels.  The buffer keeps its lines as a prefix,
     * and the bits of an unfinished last group are dropped.
     */
    method CalculateCompressedImage(inside: EscapeTest, returnBuf: seq<string>) returns (out: seq<string>)
      ensures out == returnBuf + DecimalLines(Pack(Scan(Sample(inside), Bounds()), EffectiveGroup(numOfCombinedBits)))
    {
      ghost var p := Sample(inside);
      var bufIndex := 0;
      var valCoded := 0;
      out := returnBuf;
      var y := minY;
      while y < maxY
        invariant minY <= y && (y == minY || y <= maxY)
        invariant Packing(returnBuf, Scan(p, Tile(minX, maxX, minY, y)), numOfCombinedBits, bufIndex, valCoded, out)
      {
        bufIndex, valCoded, out := CompressRow(inside, y, returnBuf, Scan(p, Tile(minX, maxX, minY, y)), bufIndex, valCoded, out);
        assert Tile(minX, maxX, minY, y + 1).(maxY := y) == Tile(minX, maxX, minY, y);
        y := y + 1;
      }
    }

    /**
     * The row loop of `calculateCompressedImage`: visits the pixels of row
     * `y` of the tile left to right, shifting each one's bit into the
     * pending value and flushing every complete group as a token.
     */
    method CompressRow(inside: EscapeTest, y: nat, ghost buf0: seq<string>, ghost s: seq<bool>,
                       bufIndex0: int, valCoded0: int, out0: seq<string>)
      returns (bufIndex: int, valCoded: int, out: seq<string>)
      requires Packing(buf0, s, numOfCombinedBits, bufIndex0, valCoded0, out0)
      ensures Packing(buf0, s + RowScan(Sample(inside), minX, maxX, y), numOfCombinedBits, bufIndex, valCoded, out)
    {
      ghost var p := Sample(inside);
      bufIndex, valCoded, out := bufIndex0, valCoded0, out0;
      var x := minX;
      assert s + RowScan(p, minX, x, y) == s;
      while x < maxX
        invariant minX <= x && (x == minX || x <= maxX)
        invariant Packing(buf0, s + RowScan(p, minX, x, y), numOfCombinedBits, bufIndex, valCoded, out)
      {
        var isInside := inside(x, y, width, height, iterations);
        ghost var bufIndex1, valCoded1, out1 := bufIndex, valCoded, out;
        if isInside {
          valCoded := valCoded * 2 + 1;
        } else {
          valCoded := valCoded * 2;
        }
        bufIndex := bufIndex + 1;
        if bufIndex > numOfCombinedBits - 1 {
          bufIndex := 0;
          out := out + [Decimal(valCoded)];
          valCoded := 0;
        }
        PixelStep(p, minX, x, y, s, isInside, buf0, numOfCombinedBits, bufIndex1, valCoded1, out1, bufIndex, valCoded, out);
        x := x + 1;
      }
      assert RowScan(p, minX, x, y) == RowScan(p, minX, maxX, y);
    }

    /**
     * `calculateImage(image)`: paints every pixel `[y][x]` of the tile,
     * black inside the set and white outside; no other pixel changes.  The
     * tile must lie inside the image when it is not empty.
     */
    method CalculateImage(inside: EscapeTest, image: PPMImage)
      requires image.Valid()
      requires minX < maxX && minY < maxY ==> maxX <= image.cols && maxY <= image.rows
      modifies image.matrix
      ensures forall a, b :: 0 <= a < image.rows && 0 <= b < image.cols ==>
        image.matrix[a, b] == if Contains(Bounds(), b, a) then PixelColour(inside(b, a, width, height, iterations))
                              else old(image.matrix[a, b])
    {
      var y := minY;
      while y < maxY
        invariant minY <= y && (y == minY || y <= maxY)
        invariant forall a, b :: 0 <= a < image.rows && 0 <= b < image.cols ==>
          image.matrix[a, b] == if Contains(Tile(minX, maxX, minY, y), b, a) then PixelColour(inside(b, a, width, height, iterations))
                                else old(image.matrix[a, b])
      {
        var x := minX;
        while x < maxX
          invariant minX <= x && (x == minX || x <= maxX)
          invariant forall a, b :: 0 <= a < image.rows && 0 <= b < image.cols ==>
            image.matrix[a, b] == if Contains(Tile(minX, maxX, minY, y), b, a) || (a == y && minX <= b < x)
                                  then PixelColour(inside(b, a, width, height, iterations)) else old(image.matrix[a, b])
        {
          var isInside := inside(x, y, width, height, iterations);
          if isInside {
            image.matrix[y, x] := RGB(0, 0, 0);
          } else {
            image.matrix[y, x] := RGB(1, 1, 1);
          }
          x := x + 1;
        }
        y := y + 1;
      }
    }
  }

}
