/**
 * The two ways the driver splits a `width` x `height` image among worker
 * threads: the chessboard (K = d*d square tiles) and the row bands (K
 * full-width strips), the guards that decide whether a split is attempted,
 * and the row-major scan of a tile that every worker performs.
 */
module Tiles {
  import opened Numeric
  import opened HelperFunctions

  /** The half-open pixel rectangle `[minX, maxX) x [minY, maxY)` one worker computes. */
  datatype Tile = Tile(minX: nat, maxX: nat, minY: nat, maxY: nat)

  predicate Contains(t: Tile, x: int, y: int) {
    t.minX <= x < t.maxX && t.minY <= y < t.maxY
  }

  // ---------------------------------------------------------------- chessboard

  /** Tile `i` of a `d` x `d` chessboard: column block `i / d`, row block `i % d`. */
  function ChessboardTile(i: nat, d: nat, width: nat, height: nat): Tile
    requires d > 0
  {
    var col: nat, row: nat, qx: nat, qy: nat := i / d, i % d, width / d, height / d;
    Tile(col * qx, (col + 1) * qx, row * qy, (row + 1) * qy)
  }

  /** The pixels the `d * d` chessboard tiles can reach: whole blocks of `width / d` by `height / d`. */
  predicate InChessboard(x: int, y: int, d: nat, width: nat, height: nat) {
    d > 0 && 0 <= x < d * (width / d) && 0 <= y < d * (height / d)
  }

  /** The index of the tile that holds pixel `(x, y)` of the chessboard region. */
  function ChessboardOwner(x: nat, y: nat, d: nat, width: nat, height: nat): nat
    requires d > 0
  {
    var qx: nat, qy: nat := width / d, height / d;
    if qx == 0 || qy == 0 then 0
    else
      var col: nat, row: nat := x / qx, y / qy;
      col * d + row
  }

  /** Every tile is `width / d` wide and `height / d` high and lies inside the image. */
  lemma ChessboardTileShape(i: nat, d: nat, width: nat, height: nat)
    requires 0 < d && i < d * d
    ensures var t := ChessboardTile(i, d, width, height);
      t.maxX == t.minX + width / d && t.maxY == t.minY + height / d &&
      t.maxX <= width && t.maxY <= height
  {
    var t := ChessboardTile(i, d, width, height);
    assert t.maxX <= width by {
      BlockOf(i, d, d);
      BlocksFit(i / d, d, width);
    }
    assert t.maxY <= height by {
      BlocksFit(i % d, d, height);
    }
  }

  /** A pixel of tile `i` lies in the chessboard region and is owned by tile `i`. */
  lemma ChessboardContainsOwned(i: nat, x: nat, y: nat, d: nat, width: nat, height: nat)
    requires 0 < d && i < d * d
    requires Contains(ChessboardTile(i, d, width, height), x, y)
    ensures InChessboard(x, y, d, width, height) && ChessboardOwner(x, y, d, width, height) == i
  {
    var qx, qy := width / d, height / d;
    assert i / d < d by {
      BlockOf(i, d, d);
    }
    InBlock(i / d, qx, x, d);
    InBlock(i % d, qy, y, d);
    assert (i / d) * d + i % d == i;
  }

  /** A pixel of the chessboard region lies in the tile that owns it. */
  lemma ChessboardOwnedContains(x: nat, y: nat, d: nat, width: nat, height: nat)
    requires InChessboard(x, y, d, width, height)
    ensures var i := ChessboardOwner(x, y, d, width, height);
      i < d * d && Contains(ChessboardTile(i, d, width, height), x, y)
  {
    CellOf(x, y, width / d, height / d, d);
  }

  /**
   * Pixel `(x, y)` lies in tile `i` exactly when it lies in the chessboard
   * region and `i` is its owner: each pixel of the region is in exactly one
   * tile, and no tile reaches outside the region.
   */
  lemma ChessboardOwnerIff(i: nat, x: nat, y: nat, d: nat, width: nat, height: nat)
    requires 0 < d && i < d * d
    ensures Contains(ChessboardTile(i, d, width, height), x, y) <==>
      (InChessboard(x, y, d, width, height) && ChessboardOwner(x, y, d, width, height) == i)
  {
    if Contains(ChessboardTile(i, d, width, height), x, y) {
      ChessboardContainsOwned(i, x, y, d, width, height);
    }
    if InChessboard(x, y, d, width, height) {
      ChessboardOwnedContains(x, y, d, width, height);
    }
  }

  /** Distinct chessboard tiles share no pixel, so concurrent writers never collide. */
  lemma ChessboardDisjoint(i: nat, j: nat, d: nat, width: nat, height: nat, x: nat, y: nat)
    requires 0 < d && i < d * d && j < d * d && i != j
    requires Contains(ChessboardTile(i, d, width, height), x, y)
    ensures !Contains(ChessboardTile(j, d, width, height), x, y)
  {
    ChessboardOwnerIff(i, x, y, d, width, height);
    ChessboardOwnerIff(j, x, y, d, width, height);
  }

  /** With `width` and `height` both multiples of `d`, the region is the whole image. */
  lemma ChessboardRegionIsImage(x: int, y: int, d: nat, width: nat, height: nat)
    requires 0 < d && width % d == 0 && height % d == 0
    ensures InChessboard(x, y, d, width, height) <==> (0 <= x < width && 0 <= y < height)
  {
    assert width == d * (width / d) && height == d * (height / d);
  }

  /** Pixel `(x, y)` lies in one of the first `i` tiles of the chessboard. */
  predicate ChessboardCovered(i: nat, x: int, y: int, d: nat, width: nat, height: nat)
    requires d > 0
  {
    i > 0 && (ChessboardCovered(i - 1, x, y, d, width, height) || Contains(ChessboardTile(i - 1, d, width, height), x, y))
  }

  /** The first `i` tiles cover exactly the pixels of the region whose owner is below `i`. */
  lemma {:induction false} ChessboardCoveredIff(i: nat, x: nat, y: nat, d: nat, width: nat, height: nat)
    requires 0 < d && i <= d * d
    ensures ChessboardCovered(i, x, y, d, width, height) <==>
      InChessboard(x, y, d, width, height) && ChessboardOwner(x, y, d, width, height) < i
  {
    if i > 0 {
      ChessboardCoveredIff(i - 1, x, y, d, width, height);
      ChessboardOwnerIff(i - 1, x, y, d, width, height);
    }
  }

  /** All `d * d` tiles together cover exactly the chessboard region. */
  lemma ChessboardCoversRegion(x: nat, y: nat, d: nat, width: nat, height: nat)
    requires 0 < d
    ensures ChessboardCovered(d * d, x, y, d, width, height) <==> InChessboard(x, y, d, width, height)
  {
    ChessboardCoveredIff(d * d, x, y, d, width, height);
    if InChessboard(x, y, d, width, height) {
      ChessboardOwnedContains(x, y, d, width, height);
    }
  }

  /** The guard `createMandelbrotImage` applies: a perfect square count whose root divides the width. */
  predicate ChessboardGuardAsWritten(numOfThreads: int, width: nat) {
    IsPerfectSquare(numOfThreads) && numOfThreads != 0 && width % ISqrt(numOfThreads) == 0
  }

  /** The guard under which the chessboard covers the image: the root must divide the height as well. */
  predicate ChessboardGuard(numOfThreads: int, width: nat, height: nat) {
    ChessboardGuardAsWritten(numOfThreads, width) && height % ISqrt(numOfThreads) == 0
  }

  /** Under the corrected guard every pixel of the image is in exactly one of the tiles. */
  lemma ChessboardGuardCoversOnce(numOfThreads: int, width: nat, height: nat, x: nat, y: nat)
    requires ChessboardGuard(numOfThreads, width, height)
    requires x < width && y < height
    ensures var d := ISqrt(numOfThreads);
      var i := ChessboardOwner(x, y, d, width, height);
      i < numOfThreads && Contains(ChessboardTile(i, d, width, height), x, y) &&
      forall j :: 0 <= j < numOfThreads && j != i ==> !Contains(ChessboardTile(j, d, width, height), x, y)
  {
    var d := ISqrt(numOfThreads);
    assert d > 0 && Square(d) == numOfThreads;
    ChessboardRegionIsImage(x, y, d, width, height);
    ChessboardOwnedContains(x, y, d, width, height);
    var i := ChessboardOwner(x, y, d, width, height);
    forall j | 0 <= j < numOfThreads && j != i
      ensures !Contains(ChessboardTile(j, d, width, height), x, y)
    {
      ChessboardDisjoint(i, j, d, width, height, x, y);
    }
  }

  /**
   * The guard as written lets a height that is not a multiple of the root
   * through: a 2 x 3 image on 4 threads passes it, and its bottom row is in
   * no tile.
   */
  lemma ChessboardGuardLeavesRowsUncovered()
    ensures ChessboardGuardAsWritten(4, 2) && !ChessboardGuard(4, 2, 3)
    ensures forall i :: 0 <= i < 4 ==> !Contains(ChessboardTile(i, 2, 2, 3), 0, 2)
  {
    SquareRootUnique(4, 2);
  }

  // ---------------------------------------------------------------- row bands

  /** Band `i` of `k`: all columns, rows `[i * (height / k), (i + 1) * (height / k))`. */
  function RowBandTile(i: nat, k: nat, width: nat, height: nat): Tile
    requires k > 0
  {
    Tile(0, width, i * (height / k), (i + 1) * (height / k))
  }

  /**
   * Pixel `(x, y)` lies in band `i` exactly when it is in the first
   * `k * (height / k)` rows and `y / (height / k) == i`: the bands are
   * pairwise disjoint and together cover those rows.
   */
  lemma RowBandOwnerIff(i: nat, k: nat, width: nat, height: nat, x: nat, y: nat)
    requires 0 < k && i < k
    ensures Contains(RowBandTile(i, k, width, height), x, y) <==>
      (x < width && y < k * (height / k) && y / (height / k) == i)
  {
    var q := height / k;
    if Contains(RowBandTile(i, k, width, height), x, y) {
      BlocksFit(i, k, height);
      DivModUnique(i, y - i * q, q);
    }
    if x < width && y < k * q && y / q == i {
      BlockOf(y, q, k);
    }
  }

  /** Distinct bands share no pixel. */
  lemma RowBandDisjoint(i: nat, j: nat, k: nat, width: nat, height: nat, x: nat, y: nat)
    requires 0 < k && i < k && j < k && i != j
    requires Contains(RowBandTile(i, k, width, height), x, y)
    ensures !Contains(RowBandTile(j, k, width, height), x, y)
  {
    RowBandOwnerIff(i, k, width, height, x, y);
    RowBandOwnerIff(j, k, width, height, x, y);
  }

  /** The guard `createMandelbrotImageCompressed` applies: the thread count divides the width. */
  predicate RowBandGuardAsWritten(numOfThreads: int, width: nat) {
    numOfThreads > 0 && width % numOfThreads == 0
  }

  /** The guard under which the bands cover the image: the thread count divides the height. */
  predicate RowBandGuard(numOfThreads: int, height: nat) {
    numOfThreads > 0 && height % numOfThreads == 0
  }

  /** Under the corrected guard every pixel of the image is in exactly one band. */
  lemma RowBandGuardCoversOnce(numOfThreads: int, width: nat, height: nat, x: nat, y: nat)
    requires RowBandGuard(numOfThreads, height) && x < width && y < height
    ensures var i := y / (height / numOfThreads);
      i < numOfThreads && Contains(RowBandTile(i, numOfThreads, width, height), x, y) &&
      forall j :: 0 <= j < numOfThreads && j != i ==> !Contains(RowBandTile(j, numOfThreads, width, height), x, y)
  {
    var k := numOfThreads;
    var q := height / k;
    assert height == k * q;
    BlockOf(y, q, k);
    var i := y / q;
    RowBandOwnerIff(i, k, width, height, x, y);
    forall j | 0 <= j < k && j != i
      ensures !Contains(RowBandTile(j, k, width, height), x, y)
    {
      RowBandDisjoint(i, j, k, width, height, x, y);
    }
  }

  /**
   * The guard as written tests the width but the bands split the height: a
   * 4 x 6 image on 4 threads passes it and its last two rows are in no band,
   * while a 6 x 4 image, whose height 4 threads divide, is refused.
   */
  lemma RowBandGuardMismatch()
    ensures RowBandGuardAsWritten(4, 4) && !RowBandGuard(4, 6)
    ensures forall i :: 0 <= i < 4 ==> !Contains(RowBandTile(i, 4, 4, 6), 0, 5)
    ensures !RowBandGuardAsWritten(4, 6) && RowBandGuard(4, 4)
  {
  }

  // ---------------------------------------------------------------- scanning

  /** Row `y` of a tile, left to right, as the sampler `p` classifies it. */
  function RowScan(p: (nat, nat) -> bool, minX: nat, maxX: nat, y: nat): (bits: seq<bool>)
    ensures |bits| == (if maxX > minX then maxX - minX else 0)
  {
    seq(if maxX > minX then maxX - minX else 0, k requires 0 <= k => p(minX + k, y))
  }

  /** The pixels of `t` in the order a worker visits them: rows top to bottom, each left to right. */
  function Scan(p: (nat, nat) -> bool, t: Tile): seq<bool>
    decreases t.maxY
  {
    if t.maxY <= t.minY then []
    else Scan(p, t.(maxY := t.maxY - 1)) + RowScan(p, t.minX, t.maxX, t.maxY - 1)
  }

  /** A scan has one entry per pixel of the tile. */
  lemma {:induction false} ScanLength(p: (nat, nat) -> bool, t: Tile)
    requires t.minX <= t.maxX && t.minY <= t.maxY
    ensures |Scan(p, t)| == (t.maxY - t.minY) * (t.maxX - t.minX)
    decreases t.maxY
  {
    if t.minY < t.maxY {
      ScanLength(p, t.(maxY := t.maxY - 1));
    }
  }

  /** Scanning two vertically adjacent tiles one after the other scans their union. */
  lemma {:induction false} ScanSplit(p: (nat, nat) -> bool, minX: nat, maxX: nat, lo: nat, mid: nat, hi: nat)
    requires lo <= mid <= hi
    ensures Scan(p, Tile(minX, maxX, lo, mid)) + Scan(p, Tile(minX, maxX, mid, hi)) == Scan(p, Tile(minX, maxX, lo, hi))
    decreases hi
  {
    if mid < hi {
      ScanSplit(p, minX, maxX, lo, mid, hi - 1);
    }
  }

  /** The position of column `col` of row `row` in a row-major stream of rows `w` wide. */
  function Offset(row: nat, w: nat, col: nat): nat {
    row * w + col
  }

  /**
   * The scan is row-major: pixel `(x, y)` of the tile is visited at position
   * `(y - minY) * (maxX - minX) + (x - minX)`.
   */
  lemma {:induction false} ScanIndex(p: (nat, nat) -> bool, t: Tile, x: nat, y: nat)
    requires Contains(t, x, y)
    ensures var k := Offset(y - t.minY, t.maxX - t.minX, x - t.minX);
      k < |Scan(p, t)| && Scan(p, t)[k] == p(x, y)
    decreases t.maxY
  {
    var w := t.maxX - t.minX;
    var last := t.(maxY := t.maxY - 1);
    ScanLength(p, last);
    if y < t.maxY - 1 {
      ScanIndex(p, last, x, y);
    } else {
      assert Offset(y - t.minY, w, x - t.minX) == |Scan(p, last)| + (x - t.minX);
    }
  }
}
