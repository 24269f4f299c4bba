/**
 * The two partitioned computations of the driver.  `createMandelbrotImage`
 * splits the image into a chessboard of `d` x `d` tiles and lets one worker
 * paint each tile of a shared image; `createMandelbrotImageCompressed`
 * splits it into full-width row bands, lets each worker pack its band into
 * a private buffer of tokens, and writes the header followed by the buffers
 * in band order.
 *
 * The workers of the source run as threads that are all joined before the
 * computation ends; here they run one after the other in index order, which
 * gives the same result because their tiles are disjoint (chessboard) or
 * their buffers private (row bands).
 */
module Driver {
  import opened Wrappers
  import opened Numeric
  import opened Bits
  import opened HelperFunctions
  import opened Tiles
  import opened PPM
  import opened Fractal

  /** How a partitioned computation ends: every worker ran, or none was created. */
  datatype Outcome = Finished | NotPerfectSquare | NotDivisible

  // ---------------------------------------------------------------- chessboard

  /**
   * `createMandelbrotImage`: for a perfect square thread count `d * d` whose
   * root divides the width, worker `i` paints tile `ChessboardTile(i, d)` of
   * `image`; otherwise the computation is cancelled and the image untouched.
   * The painted region is every whole block of `width / d` by `height / d`
   * pixels.  A zero thread count divides by zero in the source, and the
   * workers' `gd` needs a positive width.
   */
  method CreateMandelbrotImage(inside: EscapeTest, image: PPMImage, width: nat, height: nat,
                               numOfThreads: int, iterations: int)
    returns (outcome: Outcome)
    requires image.Valid() && width <= image.cols && height <= image.rows
    requires width > 0 && numOfThreads != 0
    modifies image.matrix
    ensures outcome == Finished <==> ChessboardGuardAsWritten(numOfThreads, width)
    ensures outcome == NotPerfectSquare <==> !IsPerfectSquare(numOfThreads)
    ensures outcome != Finished ==> unchanged(image.matrix)
    ensures outcome == Finished ==>
      forall a, b :: 0 <= a < image.rows && 0 <= b < image.cols ==>
        image.matrix[a, b] ==
          if InChessboard(b, a, ISqrt(numOfThreads), width, height)
          then PixelColour(inside(b, a, width, height, iterations))
          else old(image.matrix[a, b])
  {
    if !IsPerfectSquare(numOfThreads) {
      return NotPerfectSquare;
    }
    var devider := ISqrt(numOfThreads);
    SquareRootPositive(numOfThreads);
    if width % devider != 0 {
      return NotDivisible;
    }
    var i: nat := 0;
    while i < numOfThreads
      invariant i <= numOfThreads
      invariant forall a, b :: 0 <= a < image.rows && 0 <= b < image.cols ==>
        image.matrix[a, b] ==
          if ChessboardCovered(i, b, a, devider, width, height)
          then PixelColour(inside(b, a, width, height, iterations))
          else old(image.matrix[a, b])
    {
      PaintTile(inside, image, i, devider, width, height, iterations);
      i := i + 1;
    }
    forall a, b | 0 <= a < image.rows && 0 <= b < image.cols
      ensures ChessboardCovered(numOfThreads, b, a, devider, width, height) <==> InChessboard(b, a, devider, width, height)
    {
      ChessboardCoversRegion(b, a, devider, width, height);
    }
    return Finished;
  }

  /**
   * The work of thread `i` of `createMandelbrotImage`: a worker for tile
   * `ChessboardTile(i, d)` paints that tile of `image` and nothing else.
   */
  method PaintTile(inside: EscapeTest, image: PPMImage, i: nat, d: nat, width: nat, height: nat, iterations: int)
    requires image.Valid() && width <= image.cols && height <= image.rows
    requires width > 0 && 0 < d && width % d == 0 && i < d * d
    modifies image.matrix
    ensures forall a, b :: 0 <= a < image.rows && 0 <= b < image.cols ==>
      image.matrix[a, b] ==
        if Contains(ChessboardTile(i, d, width, height), b, a)
        then PixelColour(inside(b, a, width, height, iterations))
        else old(image.matrix[a, b])
  {
    var col: nat, row: nat := i / d, i % d;
    var minX := col * (width / d);
    var maxX := (col + 1) * (width / d);
    var minY := row * (height / d);
    var maxY := (row + 1) * (height / d);
    MulMonotone(0, row, height / d);
    MulMonotone(0, row + 1, height / d);
    var worker := new Mandelbrot.PartWithIterations(width, height, minX, maxX, minY, maxY, iterations);
    assert worker.Bounds() == ChessboardTile(i, d, width, height);
    ChessboardTileShape(i, d, width, height);
    worker.CalculateImage(inside, image);
  }

  /** A non-zero perfect square has a positive root whose square it is. */
  lemma SquareRootPositive(n: int)
    requires IsPerfectSquare(n) && n != 0
    ensures n > 0 && ISqrt(n) > 0 && Square(ISqrt(n)) == n
  {
    var d: nat :| Square(d) == n;
    SquareRootUnique(n, d);
  }

  // ---------------------------------------------------------------- row bands

  /** What worker `i` of `k` row bands leaves in its buffer: the tokens of its band. */
  function BandTokens(inside: EscapeTest, i: nat, k: nat, width: nat, height: nat): seq<string>
    requires k > 0 && width > 0
  {
    DecimalLines(Pack(Scan(Sampler(inside, width, height, DEFAULT_ITERATIONS), RowBandTile(i, k, width, height)),
                      Gd(width, MAX_COMBINED_BITS)))
  }

  /** The rows the bands of `k` cover: the first `k * (height / k)`. */
  function BandedRows(k: nat, height: nat): nat
    requires k > 0
  {
    k * (height / k)
  }

  /** Under the corrected guard the bands cover every row of the image. */
  lemma BandsCoverHeight(k: nat, height: nat)
    requires RowBandGuard(k, height)
    ensures BandedRows(k, height) == height
  {
    assert height == (height / k) * k + height % k;
  }

  /**
   * The compressed file of the row-band path: the header and then the tokens
   * of the first `rows` rows of the image, packed as one row-major stream of
   * groups of `gd(width, 30)` bits.
   */
  function CompressedFile(inside: EscapeTest, width: nat, height: nat, rows: nat): seq<string>
    requires width > 0
  {
    Header(width, height) +
      DecimalLines(Pack(Scan(Sampler(inside, width, height, DEFAULT_ITERATIONS), Tile(0, width, 0, rows)),
                        Gd(width, MAX_COMBINED_BITS)))
  }

  /**
   * The count of tokens the source reports: `width * height` in 32-bit
   * unsigned arithmetic, divided by the group width.
   */
  function ReportedTokens(width: nat, height: nat, g: nat): nat
    requires g > 0
  {
    ((width * height) % UINT_RANGE) / g
  }

  /**
   * `createMandelbrotImageCompressed`: when the thread count divides the
   * width, worker `i` packs band `RowBandTile(i, k)` into its own buffer,
   * and the file is the header followed by the buffers in index order;
   * otherwise no worker runs and no file is written.  The buffers in index
   * order are the packing of the banded rows as one stream.  The thread
   * count must be positive (the source allocates that many buffers first),
   * and `gd` needs a positive width.
   */
  method CreateMandelbrotImageCompressed(inside: EscapeTest, width: nat, height: nat, numOfThreads: int)
    returns (outcome: Outcome, file: Option<seq<string>>, reported: nat)
    requires width > 0 && numOfThreads > 0
    ensures outcome == Finished <==> RowBandGuardAsWritten(numOfThreads, width)
    ensures outcome != Finished ==> outcome == NotDivisible && file == None
    ensures outcome == Finished ==>
      file == Some(CompressedFile(inside, width, height, BandedRows(numOfThreads, height))) &&
      reported == ReportedTokens(width, height, Gd(width, MAX_COMBINED_BITS))
  {
    var buf := new seq<string>[numOfThreads](_ => []);
    if width % numOfThreads != 0 {
      return NotDivisible, None, 0;
    }
    var devider := numOfThreads;
    var numOfCombinedBits := Gd(width, MAX_COMBINED_BITS);
    var i := 0;
    while i < numOfThreads
      invariant 0 <= i <= numOfThreads
      invariant forall j :: 0 <= j < i ==> buf[j] == BandTokens(inside, j, numOfThreads, width, height)
      invariant forall j :: i <= j < numOfThreads ==> buf[j] == []
    {
      var tokens := CompressBand(inside, i, numOfThreads, width, height, buf[i]);
      assert tokens == BandTokens(inside, i, numOfThreads, width, height);
      buf[i] := tokens;
      i := i + 1;
    }
    reported := ReportedTokens(width, height, numOfCombinedBits);
    ghost var q := height / numOfThreads;
    var content := Header(width, height);
    i := 0;
    ghost var rowsDone: nat := 0;
    assert content == CompressedFile(inside, width, height, 0) by {
      assert Scan(Sampler(inside, width, height, DEFAULT_ITERATIONS), Tile(0, width, 0, 0)) == [];
    }
    while i < numOfThreads
      invariant 0 <= i <= numOfThreads && rowsDone == i * q
      invariant content == CompressedFile(inside, width, height, rowsDone)
    {
      assert (i + 1) * q == rowsDone + q;
      assert content + buf[i] == CompressedFile(inside, width, height, rowsDone + q) by {
        BandAppend(inside, i, numOfThreads, width, height);
      }
      content := content + buf[i];
      rowsDone := rowsDone + q;
      i := i + 1;
    }
    return Finished, Some(content), reported;
  }

  /**
   * The work of thread `i` of `createMandelbrotImageCompressed`: a worker
   * for band `i` of `k`, spanning the full width, appends the tokens of
   * its band to `buffer`.
   */
  method CompressBand(inside: EscapeTest, i: nat, k: nat, width: nat, height: nat, buffer: seq<string>)
    returns (tokens: seq<string>)
    requires k > 0 && width > 0
    ensures tokens == buffer + BandTokens(inside, i, k, width, height)
  {
    var minY := i * (height / k);
    var maxY := (i + 1) * (height / k);
    MulMonotone(0, i, height / k);
    var worker := new Mandelbrot.Part(width, height, 0, width, minY, maxY);
    tokens := worker.CalculateCompressedImage(inside, buffer);
    assert worker.Bounds() == RowBandTile(i, k, width, height);
    assert worker.Sample(inside) == Sampler(inside, width, height, DEFAULT_ITERATIONS);
    assert EffectiveGroup(worker.numOfCombinedBits) == Gd(width, MAX_COMBINED_BITS);
  }

  /**
   * Appending the buffer of band `i` to the file of the bands before it gives
   * the file of the bands through `i`: a band spans the full width, so it
   * holds whole groups and the stream stays aligned across the join.
   */
  lemma BandAppend(inside: EscapeTest, i: nat, k: nat, width: nat, height: nat)
    requires 0 < k && width > 0
    ensures CompressedFile(inside, width, height, i * (height / k)) + BandTokens(inside, i, k, width, height) ==
      CompressedFile(inside, width, height, (i + 1) * (height / k))
  {
    var p := Sampler(inside, width, height, DEFAULT_ITERATIONS);
    var g := Gd(width, MAX_COMBINED_BITS);
    var q := height / k;
    var above := Scan(p, Tile(0, width, 0, i * q));
    var band := Scan(p, RowBandTile(i, k, width, height));
    assert (i + 1) * q == i * q + q;
    ScanSplit(p, 0, width, 0, i * q, (i + 1) * q);
    ScanLength(p, Tile(0, width, 0, i * q));
    MulMod(i * q, width, g);
    PackAppend(above, band, g);
    DecimalLinesAppend(Pack(above, g), Pack(band, g));
  }

  /** The file has one token per group of the banded rows: `rows * (width / g)` of them. */
  lemma {:induction false} CompressedTokenCount(inside: EscapeTest, width: nat, height: nat, rows: nat)
    requires width > 0
    ensures var g := Gd(width, MAX_COMBINED_BITS);
      |CompressedFile(inside, width, height, rows)| == 4 + rows * (width / g)
  {
    var p := Sampler(inside, width, height, DEFAULT_ITERATIONS);
    var g := Gd(width, MAX_COMBINED_BITS);
    var s := Scan(p, Tile(0, width, 0, rows));
    ScanLength(p, Tile(0, width, 0, rows));
    PackLength(s, g);
    MulDivExact(rows, width, g);
  }

  /**
   * When the thread count divides the height and `width * height` does not
   * wrap, the count the source reports is the number of tokens written.
   */
  lemma ReportedTokensExact(inside: EscapeTest, width: nat, height: nat, k: nat)
    requires width > 0 && RowBandGuard(k, height) && width * height < UINT_RANGE
    ensures |CompressedFile(inside, width, height, BandedRows(k, height))| ==
      4 + ReportedTokens(width, height, Gd(width, MAX_COMBINED_BITS))
  {
    var g := Gd(width, MAX_COMBINED_BITS);
    BandsCoverHeight(k, height);
    CompressedTokenCount(inside, width, height, height);
    MulDivExact(height, width, g);
    assert (width * height) % UINT_RANGE == height * width;
  }

  /**
   * With the guard as written, a 4 x 6 image on 4 threads is packed from its
   * first 4 rows only, into 4 tokens, while 6 are reported.
   */
  lemma ReportedTokensOverstate(inside: EscapeTest)
    ensures RowBandGuardAsWritten(4, 4) && BandedRows(4, 6) == 4
    ensures |CompressedFile(inside, 4, 6, BandedRows(4, 6))| == 4 + 4
    ensures ReportedTokens(4, 6, Gd(4, MAX_COMBINED_BITS)) == 6
  {
    assert Divides(4, 4);
    GdIsLargest(4, MAX_COMBINED_BITS, 4);
    CompressedTokenCount(inside, 4, 6, 4);
  }

  /** Decoding the file of the row-band path reads the image width and the scan of the banded rows. */
  lemma CompressedDecodes(inside: EscapeTest, width: nat, height: nat, rows: nat)
    requires width > 0
    ensures var file := CompressedFile(inside, width, height, rows);
      DecodedWidth(file) == width &&
      DecodedBits(file) == Scan(Sampler(inside, width, height, DEFAULT_ITERATIONS), Tile(0, width, 0, rows))
  {
    var p := Sampler(inside, width, height, DEFAULT_ITERATIONS);
    var g := Gd(width, MAX_COMBINED_BITS);
    var s := Scan(p, Tile(0, width, 0, rows));
    ScanLength(p, Tile(0, width, 0, rows));
    MulMod(rows, width, g);
    DecodeOfCoded(width, height, s);
  }

  /**
   * The row-band path round trip: decoding its file reads the image width
   * and, at the position `decodeImg` paints as `[a][b]`, the membership of
   * pixel `(a, b)`; under the corrected guard (`BandsCoverHeight`) every
   * pixel of the image is reached.  The decoded matrix holds the transpose of the image.
   */
  lemma CompressedRoundTrip(inside: EscapeTest, width: nat, height: nat, k: nat, a: nat, b: nat)
    requires width > 0 && 0 < k && a < width && b < BandedRows(k, height)
    ensures var file := CompressedFile(inside, width, height, BandedRows(k, height));
      DecodedWidth(file) == width &&
      CursorIndex(a, b, width) < |DecodedBits(file)| &&
      DecodedBits(file)[CursorIndex(a, b, width)] == inside(a, b, width, height, DEFAULT_ITERATIONS)
  {
    var p := Sampler(inside, width, height, DEFAULT_ITERATIONS);
    var rows := BandedRows(k, height);
    CompressedDecodes(inside, width, height, rows);
    ScanAtCursor(DecodedBits(CompressedFile(inside, width, height, rows)), p, width, rows, a, b);
  }

  /** A scan of full-width rows holds pixel `(a, b)` at the position the decoder's cursor reaches it. */
  lemma ScanAtCursor(bits: seq<bool>, p: (nat, nat) -> bool, width: nat, rows: nat, a: nat, b: nat)
    requires bits == Scan(p, Tile(0, width, 0, rows)) && a < width && b < rows
    ensures CursorIndex(a, b, width) < |bits| && bits[CursorIndex(a, b, width)] == p(a, b)
  {
    ScanIndex(p, Tile(0, width, 0, rows), a, b);
    assert Offset(b - 0, width - 0, a - 0) == CursorIndex(a, b, width);
  }
}
