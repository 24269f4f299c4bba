/**
 * The plain-PPM image and its custom compressed form.  An image is a
 * `rows` x `cols` grid of RGB pixels; `codeImg` writes the "P3" header and
 * then one decimal token per group of `g = gd(cols, 30)` red-channel bits of
 * each row, and `decodeImg` reads such a file back, expanding every token
 * into `g` pixels that it writes column by column (the transpose of the
 * order in which `codeImg` read them).
 *
 * A file is modelled as its sequence of lines, without the line breaks.
 */
module PPM {
  import opened Wrappers
  import opened Numeric
  import opened Text
  import opened Bits
  import opened HelperFunctions

  datatype RGB = RGB(r: nat, g: nat, b: nat)

  /** The cap on the group width the codec passes to `gd`. */
  const COMPRESSION_LEVEL: int := 30

  /** The four header lines: magic number, `"<cols> <rows>"`, maximum colour value, and a blank line. */
  function Header(width: nat, height: nat): seq<string> {
    ["P3", Decimal(width) + " " + Decimal(height), "1", ""]
  }

  /** One line per token, each its `to_string`. */
  function DecimalLines(tokens: seq<nat>): (lines: seq<string>)
    ensures |lines| == |tokens|
  {
    if tokens == [] then [] else DecimalLines(tokens[..|tokens| - 1]) + [Decimal(tokens[|tokens| - 1])]
  }

  /** Line `i` is the `to_string` of token `i`. */
  lemma {:induction false} DecimalLinesIndex(tokens: seq<nat>, i: nat)
    requires i < |tokens|
    ensures DecimalLines(tokens)[i] == Decimal(tokens[i])
    decreases |tokens|
  {
    var n := |tokens|;
    if i < n - 1 {
      DecimalLinesIndex(tokens[..n - 1], i);
    }
  }

  lemma {:induction false} DecimalLinesAppend(a: seq<nat>, b: seq<nat>)
    ensures DecimalLines(a + b) == DecimalLines(a) + DecimalLines(b)
    decreases |b|
  {
    if b == [] {
      assert a + b == a;
    } else {
      var n := |b|;
      assert (a + b)[..|a + b| - 1] == a + b[..n - 1];
      DecimalLinesAppend(a, b[..n - 1]);
    }
  }

  // ---------------------------------------------------------------- decoding, as functions

  /**
   * Line 1 of the header split at its first space: `atoi` of the part before
   * it and of the part after it.  Without a space `find` returns `npos`, the
   * first `substr` takes the whole line and `npos + 1` wraps to 0, so the
   * second one does too: both dimensions are read from the whole line.
   */
  function HeaderDims(line: string): (int, int) {
    match Find(line, ' ')
    case Some(p) => (Atoi(line[..p]), Atoi(line[p + 1..]))
    case None => (Atoi(line), Atoi(line))
  }

  /** The width `decodeImg` reads from the header, or 0 while there is no line 1. */
  function DecodedWidth(input: seq<string>): int {
    if |input| >= 2 then HeaderDims(input[1]).0 else 0
  }

  /**
   * What `decToBinary` expands each line of `input` into, as bits: `g` of
   * them for a line it accepts, none for any other line (the blank fourth
   * header line among them).
   */
  function Expansions(input: seq<string>, g: nat): (parts: seq<seq<bool>>)
    ensures |parts| == |input|
  {
    if input == [] then [] else Expansions(input[..|input| - 1], g) + [BitsOf(DecToBinary(input[|input| - 1], g))]
  }

  /** Part `i` is the expansion of line `i`. */
  lemma {:induction false} ExpansionsIndex(input: seq<string>, g: nat, i: nat)
    requires i < |input|
    ensures Expansions(input, g)[i] == BitsOf(DecToBinary(input[i], g))
    decreases |input|
  {
    var n := |input|;
    var init := input[..n - 1];
    var prev := Expansions(init, g);
    var last := BitsOf(DecToBinary(input[n - 1], g));
    assert Expansions(input, g) == prev + [last];
    if i < n - 1 {
      ExpansionsIndex(init, g, i);
      assert init[i] == input[i];
      assert (prev + [last])[i] == prev[i];
    }
  }

  /** Parts `lo .. hi-1` concatenated in order. */
  function Concat(parts: seq<seq<bool>>, lo: nat, hi: nat): seq<bool>
    requires lo <= hi <= |parts|
    decreases hi - lo
  {
    if hi == lo then [] else Concat(parts, lo, hi - 1) + parts[hi - 1]
  }

  /**
   * The group width `decodeImg` takes, `gd(width, 30)`, once it has read
   * line 1; `gd` needs a positive width, and 1 stands in for the others.
   */
  function DecodedGroup(input: seq<string>): nat {
    if |input| >= 2 && DecodedWidth(input) > 0 then Gd(DecodedWidth(input), COMPRESSION_LEVEL) else 1
  }

  /** The whole bit stream `decodeImg` expands from `input`: all lines after the first three. */
  function DecodedBits(input: seq<string>): seq<bool> {
    if |input| <= 3 then [] else Concat(Expansions(input, DecodedGroup(input)), 3, |input|)
  }

  /**
   * The state of the loop of `decodeImg` before line `index`: from line 2 on
   * it holds the width and group width of the header and the cursor `[x][y]`
   * stands at bit `k = y * width + x` of the stream; `k` is where the
   * expansion of the data lines read so far ends.
   */
  ghost predicate DecodeCursor(input: seq<string>, index: nat, width: int, g: int, x: nat, y: nat, k: nat)
    requires index <= |input|
  {
    (index >= 2 ==> width == DecodedWidth(input) && g == DecodedGroup(input) && x < width && k == y * width + x) &&
    (index <= 3 ==> k == 0 && x == 0 && y == 0) &&
    (index >= 3 ==> k == |Concat(Expansions(input, g), 3, index)|)
  }

  /**
   * A header line leaves the cursor where it is; line 1 sets the width and
   * the group width, which are then those of the header.
   */
  lemma HeaderStep(input: seq<string>, index: nat, width0: int, g0: int, width: int, g: int, x: nat, y: nat, k: nat)
    requires index < 3 && index < |input| && (|input| >= 2 ==> DecodedWidth(input) > 0)
    requires DecodeCursor(input, index, width0, g0, x, y, k)
    requires if index == 1 then width == HeaderDims(input[1]).0 && g == Gd(width, COMPRESSION_LEVEL)
             else width == width0 && g == g0
    ensures DecodeCursor(input, index + 1, width, g, x, y, k)
  {
  }

  /** Where the loop ends, the cursor stands after the whole stream. */
  lemma CursorAtEnd(input: seq<string>, width: int, g: int, x: nat, y: nat, k: nat)
    requires |input| >= 2 ==> DecodedWidth(input) > 0
    requires DecodeCursor(input, |input|, width, g, x, y, k)
    ensures DecodedWidth(input) > 0 ==> x < DecodedWidth(input) && |DecodedBits(input)| == y * DecodedWidth(input) + x
    ensures DecodedWidth(input) <= 0 ==> DecodedBits(input) == []
  {
  }

  /** The colour `decodeImg` paints for a bit: a set bit is red, a clear one black. */
  function DecodedColour(bit: bool): (c: RGB)
    ensures c.g == 0 && c.b == 0 && (c.r == 1 <==> bit) && c.r <= 1
  {
    if bit then RGB(1, 0, 0) else RGB(0, 0, 0)
  }

  /**
   * The writes of `n` bits stay inside a `rows` x `cols` matrix when bit `k`
   * goes to `[k % width][k / width]`: the rows must hold every column index
   * the cursor reaches and the columns every row index.
   */
  predicate DecodeFits(n: nat, width: nat, rows: nat, cols: nat) {
    n <= cols * width && (n <= rows || width <= rows)
  }

  /** The position in the decoded stream of the bit `decodeImg` writes to `[a][b]`: `b` full columns of `width`, then `a`. */
  function CursorIndex(a: nat, b: nat, width: nat): nat {
    b * width + a
  }

  /** The cursor at `[x][y]` has passed pixel `[a][b]`: an earlier row index, or the same one and an earlier column. */
  predicate Passed(a: int, b: int, x: int, y: int) {
    b < y || (b == y && a < x)
  }

  /**
   * Advancing the cursor by one pixel, wrapping to the next row index after
   * `width` columns, passes exactly the pixel it stood on and moves one bit
   * further in the stream.
   */
  lemma CursorStep(width: nat, x: nat, y: nat, x': nat, y': nat)
    requires x < width
    requires if x + 1 == width then x' == 0 && y' == y + 1 else x' == x + 1 && y' == y
    ensures x' < width && y' * width + x' == y * width + x + 1
    ensures forall a: nat, b: nat :: a < width ==> (Passed(a, b, x', y') <==> Passed(a, b, x, y) || (a == x && b == y))
  {
    if x + 1 == width {
      assert (y + 1) * width == y * width + width;
    }
  }

  /**
   * The cursor before bit `y * width + x` has passed pixel `[a][b]` (with
   * `a < width`) exactly when that pixel's bit comes earlier in the stream:
   * the cursor's position orders pixels column index first.
   */
  lemma CursorOrder(a: nat, b: nat, width: nat, x: nat, y: nat)
    requires a < width && x < width
    ensures Passed(a, b, x, y) <==> CursorIndex(a, b, width) < y * width + x
  {
    if b < y {
      MulMonotone(b + 1, y, width);
    } else if b > y {
      MulMonotone(y + 1, b, width);
    }
  }

  /** A cursor before bit `k` of a stream of `n` bits that fits writes inside the matrix. */
  lemma CursorInside(x: nat, y: nat, width: nat, k: nat, n: nat, rows: nat, cols: nat)
    requires x < width && k == y * width + x && k < n
    requires DecodeFits(n, width, rows, cols)
    ensures x < rows && y < cols
  {
    if y >= cols {
      MulMonotone(cols, y, width);
    }
  }


  /** The concatenation of a range of parts is that of its first half followed by that of the rest. */
  lemma {:induction false} ConcatSplit(parts: seq<seq<bool>>, lo: nat, mid: nat, hi: nat)
    requires lo <= mid <= hi <= |parts|
    ensures Concat(parts, lo, hi) == Concat(parts, lo, mid) + Concat(parts, mid, hi)
    decreases hi - mid
  {
    if hi == mid {
      assert Concat(parts, lo, mid) + [] == Concat(parts, lo, mid);
    } else {
      ConcatSplit(parts, lo, mid, hi - 1);
      AppendAssoc(Concat(parts, lo, mid), Concat(parts, mid, hi - 1), parts[hi - 1]);
    }
  }

  /** Part `index` sits in the concatenation of parts `lo ..` where that of the parts before it ends. */
  lemma PartInConcat(parts: seq<seq<bool>>, lo: nat, index: nat)
    requires lo <= index < |parts|
    ensures var k0, e := |Concat(parts, lo, index)|, parts[index];
      |Concat(parts, lo, index + 1)| == k0 + |e| &&
      k0 + |e| <= |Concat(parts, lo, |parts|)| &&
      Concat(parts, lo, |parts|)[k0..k0 + |e|] == e
  {
    var done := Concat(parts, lo, index);
    var e := parts[index];
    ConcatSplit(parts, lo, index + 1, |parts|);
    var rest := Concat(parts, index + 1, |parts|);
    assert Concat(parts, lo, |parts|) == (done + e) + rest;
    assert ((done + e) + rest)[|done|..|done| + |e|] == e;
  }

  /** The header `codeImg` writes is read back as the image's dimensions. */
  lemma HeaderDimsOfHeader(width: nat, height: nat)
    ensures HeaderDims(Header(width, height)[1]) == (width, height)
  {
    var dw := Decimal(width);
    var line := dw + " " + Decimal(height);
    assert line[|dw|] == ' ';
    match Find(line, ' ')
    case None =>
      assert false;
    case Some(p) =>
      assert p == |dw|;
      assert line[..p] == dw && line[p + 1..] == Decimal(height);
      AtoiOfDecimal(width);
      AtoiOfDecimal(height);
  }

  /** Parts `off ..` holding the bits of each token, in order, concatenate to the tokens' bits. */
  lemma {:induction false} PartsOfTokens(parts: seq<seq<bool>>, off: nat, tokens: seq<nat>, g: nat, j: nat)
    requires j <= |tokens| && off + |tokens| <= |parts|
    requires forall i :: 0 <= i < |tokens| ==> parts[off + i] == ToBits(tokens[i], g)
    ensures Concat(parts, off, off + j) == Unpack(tokens[..j], g)
  {
    if j > 0 {
      PartsOfTokens(parts, off, tokens, g, j - 1);
      assert Concat(parts, off, off + j) == Concat(parts, off, off + (j - 1)) + parts[off + (j - 1)];
      assert parts[off + (j - 1)] == ToBits(tokens[j - 1], g);
      UnpackPrefix(tokens, j, g);
    }
  }

  /** Parts `4 ..` holding the tokens' bits after an empty part 3 concatenate, from part 3 on, to the tokens' bits. */
  lemma PartsAfterHeader(parts: seq<seq<bool>>, tokens: seq<nat>, g: nat)
    requires |parts| == 4 + |tokens| && parts[3] == []
    requires forall i :: 0 <= i < |tokens| ==> parts[4 + i] == ToBits(tokens[i], g)
    ensures Concat(parts, 3, |parts|) == Unpack(tokens, g)
  {
    ConcatSplit(parts, 3, 4, |parts|);
    assert Concat(parts, 3, 4) == [];
    PartsOfTokens(parts, 4, tokens, g, |tokens|);
    assert tokens[..|tokens|] == tokens;
  }

  /** Line `4 + i` of a coded file, the `to_string` of token `i`, expands to that token's bits. */
  lemma CodedLine(width: nat, height: nat, tokens: seq<nat>, g: nat, i: nat)
    requires i < |tokens| && tokens[i] < Pow2(g)
    ensures Expansions(Header(width, height) + DecimalLines(tokens), g)[4 + i] == ToBits(tokens[i], g)
  {
    var input := Header(width, height) + DecimalLines(tokens);
    DecimalLinesIndex(tokens, i);
    assert input[4 + i] == Decimal(tokens[i]);
    ExpansionsIndex(input, g, 4 + i);
    DecToBinaryOfToken(tokens[i], g);
  }

  /** After the header, the lines of a coded file expand to its tokens' bits. */
  lemma CodedStream(width: nat, height: nat, tokens: seq<nat>, g: nat)
    requires forall i :: 0 <= i < |tokens| ==> tokens[i] < Pow2(g)
    ensures var input := Header(width, height) + DecimalLines(tokens);
      Concat(Expansions(input, g), 3, |input|) == Unpack(tokens, g)
  {
    var input := Header(width, height) + DecimalLines(tokens);
    forall i | 0 <= i < |tokens|
      ensures Expansions(input, g)[4 + i] == ToBits(tokens[i], g)
    {
      CodedLine(width, height, tokens, g, i);
    }
    assert input[3] == "";
    ExpansionsIndex(input, g, 3);
    PartsAfterHeader(Expansions(input, g), tokens, g);
  }

  /**
   * Decoding inverts coding: a file made of the header for a `width` x
   * `height` image and the packing of a stream of whole groups of
   * `g = gd(width, 30)` bits is decoded as width `width` and that stream.
   */
  lemma DecodeOfCoded(width: nat, height: nat, bits: seq<bool>)
    requires width > 0 && |bits| % Gd(width, COMPRESSION_LEVEL) == 0
    ensures var input := Header(width, height) + DecimalLines(Pack(bits, Gd(width, COMPRESSION_LEVEL)));
      DecodedWidth(input) == width && DecodedBits(input) == bits
  {
    var g := Gd(width, COMPRESSION_LEVEL);
    var tokens := Pack(bits, g);
    var input := Header(width, height) + DecimalLines(tokens);
    assert DecodedWidth(input) == width by {
      assert input[1] == Header(width, height)[1];
      HeaderDimsOfHeader(width, height);
    }
    PackBounded(bits, g);
    CodedStream(width, height, tokens, g);
    UnpackPack(bits, g);
  }

  /**
   * The codec round trip on a grid of rows of `cols` bits: decoding its coded
   * file reads width `cols` and a stream in which the bit `decodeImg` paints
   * at `[a][b]` is bit `a` of row `b`, so the decoded matrix holds the
   * transpose of the coded one.
   */
  lemma CodedRoundTrip(grid: seq<seq<bool>>, cols: nat)
    requires cols > 0 && forall i :: 0 <= i < |grid| ==> |grid[i]| == cols
    ensures var file := Header(cols, |grid|) + DecimalLines(Pack(Flatten(grid), Gd(cols, COMPRESSION_LEVEL)));
      DecodedWidth(file) == cols && |DecodedBits(file)| == |grid| * cols &&
      forall a, b :: 0 <= a < cols && 0 <= b < |grid| ==>
        CursorIndex(a, b, cols) < |DecodedBits(file)| && DecodedBits(file)[CursorIndex(a, b, cols)] == grid[b][a]
  {
    var g := Gd(cols, COMPRESSION_LEVEL);
    var file := Header(cols, |grid|) + DecimalLines(Pack(Flatten(grid), g));
    FlattenLength(grid, cols);
    MulMod(|grid|, cols, g);
    DecodeOfCoded(cols, |grid|, Flatten(grid));
    FlattenAt(grid, cols);
  }

  /**
   * The coded file of a grid of rows of `cols` bits has the four header
   * lines and then `cols / g` tokens for each row, `g = gd(cols, 30)`.
   */
  lemma CodedLineCount(grid: seq<seq<bool>>, cols: nat)
    requires cols > 0 && forall i :: 0 <= i < |grid| ==> |grid[i]| == cols
    ensures var g := Gd(cols, COMPRESSION_LEVEL);
      |Header(cols, |grid|) + DecimalLines(Pack(Flatten(grid), g))| == 4 + |grid| * (cols / g)
  {
    var g := Gd(cols, COMPRESSION_LEVEL);
    FlattenLength(grid, cols);
    PackLength(Flatten(grid), g);
    MulDivExact(|grid|, cols, g);
  }

  /** Bit `a` of row `b` of a grid of rows of `cols` bits sits at position `b * cols + a` of its scan. */
  lemma FlattenAt(grid: seq<seq<bool>>, cols: nat)
    requires forall i :: 0 <= i < |grid| ==> |grid[i]| == cols
    ensures forall a, b :: 0 <= a < cols && 0 <= b < |grid| ==>
      CursorIndex(a, b, cols) < |Flatten(grid)| && Flatten(grid)[CursorIndex(a, b, cols)] == grid[b][a]
  {
    forall a, b | 0 <= a < cols && 0 <= b < |grid|
      ensures CursorIndex(a, b, cols) < |Flatten(grid)| && Flatten(grid)[CursorIndex(a, b, cols)] == grid[b][a]
    {
      FlattenIndex(grid, cols, b, a);
    }
  }

  // ---------------------------------------------------------------- the image

  class PPMImage {
    const rows: nat
    const cols: nat
    const matrix: array2<RGB>

    ghost predicate Valid() {
      matrix.Length0 == rows && matrix.Length1 == cols
    }

    /** A `height` x `width` image; the pixels start black. */
    constructor(height: nat, width: nat)
      ensures Valid() && rows == height && cols == width && fresh(matrix)
      ensures forall y, x :: 0 <= y < height && 0 <= x < width ==> matrix[y, x] == RGB(0, 0, 0)
    {
      rows := height;
      cols := width;
      matrix := new RGB[height, width]((_, _) => RGB(0, 0, 0));
    }

    /** Row `y` of the red channel as bits: a pixel is set when its `r` is 1. */
    function RedRow(y: nat): (row: seq<bool>)
      requires Valid() && y < rows
      reads matrix
      ensures |row| == cols && forall x :: 0 <= x < cols ==> (row[x] <==> matrix[y, x].r == 1)
    {
      seq(cols, x requires 0 <= x < cols reads matrix => matrix[y, x].r == 1)
    }

    /** The red channel as a grid of bits, row by row. */
    function RedRows(): (grid: seq<seq<bool>>)
      requires Valid()
      reads matrix
      ensures |grid| == rows && forall y :: 0 <= y < rows ==> grid[y] == RedRow(y)
    {
      seq(rows, y requires 0 <= y < rows reads matrix => RedRow(y))
    }

    /**
     * `codeImg`: the header, then for every row, left to right, one token
     * per group of `g = gd(cols, 30)` pixels holding the binary value of
     * their red channels, most significant first.  The red channel must be
     * 0 or 1, as binary `stoi` needs; `gd` needs a positive width.
     */
    method CodeImg() returns (file: seq<string>)
      requires Valid() && cols > 0
      requires forall y, x :: 0 <= y < rows && 0 <= x < cols ==> matrix[y, x].r <= 1
      ensures file == Header(cols, rows) + DecimalLines(Pack(Flatten(RedRows()), Gd(cols, COMPRESSION_LEVEL)))
    {
      var g := Gd(cols, COMPRESSION_LEVEL);
      assert cols % g == 0;
      ghost var grid := RedRows();
      file := Header(cols, rows);
      var y := 0;
      while y < rows
        invariant 0 <= y <= rows
        invariant file == Header(cols, rows) + DecimalLines(Pack(Flatten(grid[..y]), g))
      {
        var lines := CodeRow(y, g);
        CodeImgStep(Header(cols, rows), grid, y, cols, g);
        file := file + lines;
        y := y + 1;
      }
      assert grid[..y] == grid;
    }

    /** The tokens of row `y`: one per group of `g` pixels, left to right. */
    method CodeRow(y: nat, g: nat) returns (lines: seq<string>)
      requires Valid() && y < rows && g >= 1 && cols % g == 0
      requires forall x :: 0 <= x < cols ==> matrix[y, x].r <= 1
      ensures lines == DecimalLines(Pack(RedRow(y), g))
    {
      ghost var row := RedRow(y);
      lines := [];
      var x := 0;
      assert x % g == 0 by {
        DivModUnique(0, 0, g);
      }
      while x < cols
        invariant 0 <= x <= cols && x % g == 0
        invariant lines == DecimalLines(Pack(row[..x], g))
      {
        NextBlock(x, g, cols);
        var tmp := GroupDigits(y, x, g);
        var valCoded := StoiBinary(tmp);
        CodeRowGroup(row, x, g);
        lines := lines + [Decimal(valCoded)];
        x := x + g;
      }
      assert row[..x] == row;
    }

    /** The pixels as a grid of values, for stating what a method leaves unchanged. */
    ghost function Pixels(): (grid: seq<seq<RGB>>)
      requires Valid()
      reads matrix
      ensures |grid| == rows && forall a :: 0 <= a < rows ==> |grid[a]| == cols
      ensures forall a, b :: 0 <= a < rows && 0 <= b < cols ==> grid[a][b] == matrix[a, b]
    {
      seq(rows, a requires 0 <= a < rows reads matrix => seq(cols, b requires 0 <= b < cols reads matrix => matrix[a, b]))
    }

    /**
     * With the cursor at `[x][y]`, every pixel it has passed holds the colour
     * of its bit of `bits`, and every other pixel its colour in `orig`.
     */
    ghost predicate Painted(width: int, bits: seq<bool>, x: nat, y: nat, orig: seq<seq<RGB>>)
      requires Valid()
      reads matrix
    {
      |orig| == rows && (forall a :: 0 <= a < rows ==> |orig[a]| == cols) &&
      forall a: nat, b: nat :: a < rows && b < cols ==>
        matrix[a, b] == if a < width && Passed(a, b, x, y) && CursorIndex(a, b, width) < |bits|
                        then DecodedColour(bits[CursorIndex(a, b, width)]) else orig[a][b]
    }

    /**
     * `decodeImg`: reads the width from line 1 of the header, takes
     * `g = gd(width, 30)`, skips the maximum colour value on line 2, and
     * expands every line after the three header lines that `decToBinary`
     * accepts into `g` bits (the blank fourth line expands to nothing); bit `k` of the stream is painted at
     * `[k % width][k / width]`, red for a set bit and black otherwise.  The
     * source does not check that the header matches the matrix: the writes
     * must fit (`DecodeFits`), and `gd` needs a positive width.  Every pixel
     * the stream does not reach keeps its colour.
     */
    method DecodeImg(input: seq<string>)
      requires Valid()
      requires |input| >= 2 ==> DecodedWidth(input) > 0
      requires DecodeFits(|DecodedBits(input)|, DecodedWidth(input), rows, cols)
      modifies matrix
      ensures var width, bits := DecodedWidth(input), DecodedBits(input);
        forall a: nat, b: nat :: a < rows && b < cols ==>
          matrix[a, b] == if a < width && CursorIndex(a, b, width) < |bits|
                          then DecodedColour(bits[CursorIndex(a, b, width)]) else old(matrix[a, b])
    {
      ghost var W := DecodedWidth(input);
      ghost var bits := DecodedBits(input);
      ghost var orig := Pixels();
      ghost var k: nat := 0;
      var index := 0;
      var numOfCombined := 0;
      var x: nat := 0;
      var y: nat := 0;
      var width := 0;
      var height := 0;
      while index < |input|
        invariant 0 <= index <= |input|
        invariant DecodeCursor(input, index, width, numOfCombined, x, y, k)
        invariant Painted(W, bits, x, y, orig)
      {
        width, height, numOfCombined, x, y, k :=
          DecodeStep(input[index], index, width, height, numOfCombined, x, y, input, bits, k, orig);
        index := index + 1;
      }
      CursorAtEnd(input, width, numOfCombined, x, y, k);
      PaintedStream(W, bits, x, y, orig);
    }

    /** Once the cursor has reached the end of the stream, the pixels it passed are those of the stream's bits. */
    lemma PaintedStream(width: int, bits: seq<bool>, x: nat, y: nat, orig: seq<seq<RGB>>)
      requires Valid() && Painted(width, bits, x, y, orig)
      requires width > 0 ==> x < width && |bits| == y * width + x
      requires width <= 0 ==> bits == []
      ensures forall a: nat, b: nat :: a < rows && b < cols ==>
        matrix[a, b] == if a < width && CursorIndex(a, b, width) < |bits|
                        then DecodedColour(bits[CursorIndex(a, b, width)]) else orig[a][b]
    {
      forall a: nat, b: nat | a < width
        ensures Passed(a, b, x, y) <==> CursorIndex(a, b, width) < |bits|
      {
        CursorOrder(a, b, width, x, y);
      }
    }

    /**
     * The body of the loop of `decodeImg` for line `index`: line 1 of the
     * header gives the dimensions and the group width, lines 0 and 2 are
     * skipped, and every later line is a data line.
     */
    method DecodeStep(line: string, index: nat, width0: int, height0: int, g0: int, x0: nat, y0: nat,
                      ghost input: seq<string>, ghost bits: seq<bool>, ghost k0: nat, ghost orig: seq<seq<RGB>>)
      returns (width: int, height: int, g: int, x: nat, y: nat, ghost k: nat)
      requires Valid() && index < |input| && line == input[index]
      requires |input| >= 2 ==> DecodedWidth(input) > 0
      requires DecodeCursor(input, index, width0, g0, x0, y0, k0)
      requires bits == DecodedBits(input) && DecodeFits(|bits|, DecodedWidth(input), rows, cols)
      requires Painted(DecodedWidth(input), bits, x0, y0, orig)
      modifies matrix
      ensures DecodeCursor(input, index + 1, width, g, x, y, k)
      ensures Painted(DecodedWidth(input), bits, x, y, orig)
    {
      width, height, g, x, y, k := width0, height0, g0, x0, y0, k0;
      if index < 3 {
        if index == 1 {
          width, height := HeaderDims(line).0, HeaderDims(line).1;
          g := Gd(width, COMPRESSION_LEVEL);
        }
        HeaderStep(input, index, width0, g0, width, g, x, y, k);
      } else {
        x, y, k := DecodeLine(line, g, width, x, y, input, index, bits, k, orig);
      }
    }

    /**
     * One data line of `decodeImg`: `decToBinary` expands it into `g` bits,
     * or into nothing, and the bits are painted from the cursor on.
     */
    method DecodeLine(line: string, g: nat, width: nat, x0: nat, y0: nat, ghost input: seq<string>, ghost index: nat,
                      ghost bits: seq<bool>, ghost k0: nat, ghost orig: seq<seq<RGB>>)
      returns (x: nat, y: nat, ghost k: nat)
      requires Valid() && 3 <= index < |input| && line == input[index]
      requires DecodedWidth(input) > 0 && DecodeCursor(input, index, width, g, x0, y0, k0)
      requires bits == DecodedBits(input) && DecodeFits(|bits|, DecodedWidth(input), rows, cols)
      requires Painted(DecodedWidth(input), bits, x0, y0, orig)
      modifies matrix
      ensures DecodeCursor(input, index + 1, width, g, x, y, k)
      ensures Painted(DecodedWidth(input), bits, x, y, orig)
    {
      var result := DecToBinary(line, g);
      ExpansionsIndex(input, g, index);
      PartInConcat(Expansions(input, g), 3, index);
      x, y, k := x0, y0, k0;
      if result != "" {
        x, y := ExpandToken(result, g, width, x, y, bits, k0, orig);
        k := k0 + g;
      }
    }

    /**
     * The inner loop of `decodeImg`: paints the `|result|` pixels for bits
     * `k0 ..` of the stream at the cursor, advancing it column by column and
     * wrapping to the next row index after `width` bits.
     */
    method ExpandToken(result: string, g: nat, width: nat, x0: nat, y0: nat,
                       ghost bits: seq<bool>, ghost k0: nat, ghost orig: seq<seq<RGB>>)
      returns (x: nat, y: nat)
      requires Valid() && |result| == g && x0 < width && k0 == y0 * width + x0
      requires k0 + g <= |bits| && bits[k0..k0 + g] == BitsOf(result)
      requires DecodeFits(|bits|, width, rows, cols)
      requires Painted(width, bits, x0, y0, orig)
      modifies matrix
      ensures x < width && k0 + g == y * width + x
      ensures Painted(width, bits, x, y, orig)
    {
      x, y := x0, y0;
      for i := 0 to g
        invariant x < width && k0 + i == y * width + x
        invariant Painted(width, bits, x, y, orig)
      {
        ghost var k := k0 + i;
        assert bits[k] == (result[i] == '1') by {
          assert bits[k] == bits[k0..k0 + g][i];
        }
        CursorInside(x, y, width, k, |bits|, rows, cols);
        ghost var x', y' := if x + 1 == width then 0 else x + 1, if x + 1 == width then y + 1 else y;
        CursorStep(width, x, y, x', y');
        matrix[x, y] := if result[i] == '1' then RGB(1, 0, 0) else RGB(0, 0, 0);
        x := x + 1;
        if x == width {
          y := y + 1;
          x := 0;
        }
      }
    }

    /** The `to_string` of the red channels of pixels `x .. x+g-1` of row `y`, concatenated. */
    method GroupDigits(y: nat, x: nat, g: nat) returns (tmp: string)
      requires Valid() && y < rows && x + g <= cols
      requires forall i :: x <= i < x + g ==> matrix[y, i].r <= 1
      ensures tmp == BinaryString(RedRow(y)[x..x + g])
    {
      ghost var row := RedRow(y);
      tmp := "";
      var i := 0;
      while i < g
        invariant 0 <= i <= g
        invariant tmp == BinaryString(row[x..x + i])
      {
        assert row[x..x + i + 1] == row[x..x + i] + [row[x + i]];
        BinaryStringSnoc(row[x..x + i], row[x + i]);
        tmp := tmp + Decimal(matrix[y, x + i].r);
        i := i + 1;
      }
    }
  }

  /** Coding one more group of a row appends the `to_string` of the group's value. */
  lemma CodeRowGroup(row: seq<bool>, x: nat, g: nat)
    requires g >= 1 && x % g == 0 && x + g <= |row|
    ensures DecimalLines(Pack(row[..x + g], g)) ==
      DecimalLines(Pack(row[..x], g)) + [Decimal(StoiBinary(BinaryString(row[x..x + g])))]
  {
    BitsOfBinaryString(row[x..x + g]);
    assert row[..x] + row[x..x + g] == row[..x + g];
    PackGroup(row[..x], row[x..x + g], g);
    DecimalLinesAppend(Pack(row[..x], g), [Value(row[x..x + g])]);
  }


  /** Coding one more row appends its tokens to the file. */
  lemma CodeImgStep(header: seq<string>, grid: seq<seq<bool>>, y: nat, c: nat, g: nat)
    requires g >= 1 && y < |grid| && c % g == 0
    requires forall i :: 0 <= i < |grid| ==> |grid[i]| == c
    ensures (header + DecimalLines(Pack(Flatten(grid[..y]), g))) + DecimalLines(Pack(grid[y], g)) ==
      header + DecimalLines(Pack(Flatten(grid[..y + 1]), g))
  {
    CodeRowStep(grid, y, c, g);
    DecimalLinesAppend(Pack(Flatten(grid[..y]), g), Pack(grid[y], g));
    AppendAssoc(header, DecimalLines(Pack(Flatten(grid[..y]), g)), DecimalLines(Pack(grid[y], g)));
  }

  /** Packing the first `y + 1` rows adds the tokens of row `y` to those of the first `y`. */
  lemma CodeRowStep(grid: seq<seq<bool>>, y: nat, c: nat, g: nat)
    requires g >= 1 && y < |grid| && c % g == 0
    requires forall i :: 0 <= i < |grid| ==> |grid[i]| == c
    ensures Pack(Flatten(grid[..y + 1]), g) == Pack(Flatten(grid[..y]), g) + Pack(grid[y], g)
  {
    assert grid[..y + 1][..y] == grid[..y];
    FlattenLength(grid[..y], c);
    MulMod(y, c, g);
    PackAppend(Flatten(grid[..y]), grid[y], g);
  }

  /**
   * Coding an image with `codeImg` and decoding the file into an image of
   * `cols` rows by `rows` columns gives back its red channel transposed:
   * cell `[a][b]` of the decoded image is red exactly when cell `[b][a]` of
   * the coded one was.
   */
  method CodeThenDecode(src: PPMImage, dst: PPMImage) returns (file: seq<string>)
    requires src.Valid() && src.cols > 0
    requires forall y, x :: 0 <= y < src.rows && 0 <= x < src.cols ==> src.matrix[y, x].r <= 1
    requires dst.Valid() && dst.rows == src.cols && dst.cols == src.rows && dst.matrix != src.matrix
    modifies dst.matrix
    ensures forall a, b :: 0 <= a < dst.rows && 0 <= b < dst.cols ==>
      dst.matrix[a, b] == DecodedColour(src.matrix[b, a].r == 1)
  {
    file := src.CodeImg();
    ghost var grid := src.RedRows();
    CodedRoundTrip(grid, src.cols);
    dst.DecodeImg(file);
    forall a, b | 0 <= a < dst.rows && 0 <= b < dst.cols
      ensures dst.matrix[a, b] == DecodedColour(src.matrix[b, a].r == 1)
    {
      assert grid[b] == src.RedRow(b);
    }
  }
}
