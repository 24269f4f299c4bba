# Mandelbrot tiles and the compressed PPM codec, modelled in Dafny

This project models the core of a small C++ program that renders the
Mandelbrot set. The program splits the picture among worker threads and can
store a black-and-white picture in a compressed text variant of the PPM
format. The model covers four parts.

- **Partitioning** (`main.cpp`). `createMandelbrotImage` splits the image
  into a `d` x `d` chessboard of tiles, where `d * d` is the thread count.
  One `Mandelbrot` worker paints each tile of a shared `PPMImage`.
  `createMandelbrotImageCompressed` splits the image into full-width row
  bands instead. Each worker packs its band into a private text buffer. The
  file is the PPM header followed by the buffers in band order.
- **The worker** (`Mandelbrot.h`, `Mandelbrot.cpp`). `calculateImage`
  paints membership as black (inside) or white (outside).
  `calculateCompressedImage` scans its tile row by row. It shifts each
  membership bit into `valCoded`, and after every `numOfCombinedBits` bits
  it appends the decimal value of the group as one line.
- **The codec** (`PPMImage.cpp`). `codeImg` packs the red channel of a
  whole image the same way. The group width is `gd(cols, 30)`, and each
  group goes through a binary `stoi`. `decodeImg` reads the width from
  header line 1 and skips header line 2, the maximum colour value. It
  expands every line after the three header lines back into bits with
  `decToBinary` (the blank fourth line expands to nothing) and paints them with a cursor that writes `[x][y]`, so the
  decoded picture is transposed: bit `y * width + x` lands at `[x][y]`.
- **The helpers** `gd`, `isPerfectSquare` and `decToBinary`. The program
  declares them in `HelperFunctions.h`, which is not part of this model.
  Each is defined here as the function its uses and its documentation
  describe: the largest divisor of `a` not above `b`; whether `n` is a
  square; and the `g`-digit binary expansion of a decimal line, or `""`.

Modules:
- `Wrappers`: `Option`.
- `Numeric`: powers of two and division facts.
- `Text`: decimal `to_string`, `atoi`, `find`.
- `Bits`: bit values, packing into groups and unpacking.
- `HelperFunctions`: the three helpers.
- `Tiles`: tiles and the row-major scan of a tile.
- `PPM`: the header, the codec and the class `PPMImage` over an `array2`.
- `Fractal`: the class `Mandelbrot`.
- `Driver`: the two partitioned computations.

The escape-time iteration is floating-point arithmetic and is a parameter
(`EscapeTest`). A file is modelled as its sequence of lines.

## Model

| member | source | states |
|---|---|---|
| HelperFunctions.Gd | Mandelbrot.h:53-59 | the group width is the largest divisor of the width that is at most the cap (at least 1, and 1 for a cap below 1), so the width is always a whole number of groups |
| HelperFunctions.GdIsLargest | Mandelbrot.h:57-59 | any divisor of the width that is at most the cap and has no larger such divisor above it is the value `gd` returns (uniqueness) |
| HelperFunctions.GdExamples | Mandelbrot.h:31-34 | with cap 30: 600 gives 30, 605 gives 11, 7 gives 7 and 1024 gives 16 |
| HelperFunctions.ISqrt | main.cpp:51 | the integer square root `r` satisfies `r*r <= n < (r+1)*(r+1)` |
| HelperFunctions.SquareRootUnique | main.cpp:50-51 | for a perfect square `d*d` the root taken is exactly `d` |
| HelperFunctions.IsPerfectSquare | main.cpp:50 | true exactly when some natural number squares to the thread count |
| HelperFunctions.DecToBinary | PPMImage.cpp:103-107 | the expansion is either empty or exactly `g` binary digits |
| HelperFunctions.DecToBinaryOfToken | PPMImage.cpp:103-116 | the line printed for a token below `2^g` expands back to that token's `g` bits, most significant first |
| HelperFunctions.DecToBinaryRejectsOverflow | PPMImage.cpp:103-105 | a value that does not fit in `g` bits expands to the empty string, so the line paints nothing |
| Text.Decimal | Mandelbrot.cpp:117 | `to_string` of a natural number is a non-empty string of digits |
| Text.DecimalRoundTrip | Mandelbrot.cpp:117 | reading back the digits `to_string` printed gives the same number |
| Text.AtoiOfDecimal | PPMImage.cpp:89-90 | `atoi` of a printed dimension gives the dimension back |
| Text.DigitPrefixOfDigits | PPMImage.cpp:89-90 | `atoi` reads the whole of an all-digit string |
| Text.Find | PPMImage.cpp:87-89 | `find` returns the first position of the delimiter, or none when it is absent |
| Text.Atoi | PPMImage.cpp:89-90 | C `atoi`: skip leading white space, read an optional sign, then the longest run of digits; no digits read as 0 |
| Text.DigitPrefix | PPMImage.cpp:89-90 | the digits `atoi` reads are the longest digit-only prefix of the text: the character after them, if any, is not a digit |
| Bits.Value | Mandelbrot.cpp:107-111 | the value accumulated by shifting in bits is below `2^n` for `n` bits |
| Bits.Pack | Mandelbrot.cpp:107-119 | the tokens the packers emit: one token per complete group of `g` consecutive bits, in stream order, each the group's value most significant bit first; a trailing group of fewer than `g` bits yields no token |
| Bits.StoiBinary | PPMImage.cpp:50 | `std::stoi(s, 0, 2)` on a non-empty string of binary digits: its value read most significant digit first |
| Bits.ValueOfToBits | PPMImage.cpp:103 | expanding a value below `2^g` into `g` bits and reading them back gives the value |
| Bits.ToBitsOfValue | PPMImage.cpp:46-50 | reading a group as a binary number and expanding it again gives the same bits |
| Bits.PackLength | PPMImage.cpp:61 | packing `n` bits into groups of `g` gives `n / g` tokens |
| Bits.PackToken | PPMImage.cpp:42-50 | token `p / g` is the value of bits `p` to `p + g` |
| Bits.PackBounded | Mandelbrot.h:66-67 | every token is below `2^g`, the maximum the documentation names |
| Bits.PackAppend | main.cpp:190-192 | packing a stream of whole groups followed by another stream is the concatenation of the two packings |
| Bits.PackGroup | Mandelbrot.cpp:113-119 | completing one more group appends exactly one token, its value |
| Bits.Pending | Mandelbrot.cpp:113 | the bits of the group still being filled are fewer than `g` |
| Bits.PendingLength | Mandelbrot.cpp:113-119 | after `n` bits the pending count `bufIndex` is `n mod g` |
| Bits.PendingTail | Mandelbrot.cpp:107-119 | the pending bits are the last `n mod g` bits of the stream and their value is below `2^(n mod g)` |
| Bits.PackSnocFlush | Mandelbrot.cpp:113-119 | a bit that completes a group emits the group's value as one token and empties the pending bits |
| Bits.PackSnocShift | Mandelbrot.cpp:107-113 | a bit that does not complete a group emits nothing and joins the pending bits |
| Bits.UnpackPack | PPMImage.cpp:103-127 | expanding the tokens of a whole number of groups back into bits gives the original stream |
| Bits.BinaryString | PPMImage.cpp:46-48 | the concatenated red values of a group form a string of `g` binary digits |
| Bits.BitsOfBinaryString | PPMImage.cpp:46-50 | reading the digit string back as bits gives the group |
| Bits.FlattenIndex | PPMImage.cpp:41-42 | in the row-major stream of an image, bit `y * cols + x` is pixel `(x, y)` |
| Bits.FlattenLength | PPMImage.cpp:41-42 | the stream of `rows` rows of `cols` bits has `rows * cols` bits |
| Tiles.ChessboardTileShape | main.cpp:65-68 | tile `i` is `width/d` by `height/d` pixels and lies inside the image |
| Tiles.ChessboardTile | main.cpp:65-68 | tile `i` of a `d` x `d` chessboard: column block `i / d` of width `width / d` and row block `i % d` of height `height / d` |
| Tiles.ChessboardOwnerIff | main.cpp:63-68 | a pixel is in tile `i` exactly when it is in the chessboard region and tile `i` is its computed owner |
| Tiles.ChessboardContainsOwned | main.cpp:65-68 | a pixel of tile `i` lies in the region and is owned by `i` |
| Tiles.ChessboardOwnedContains | main.cpp:65-68 | every pixel of the region is in the tile of its owner |
| Tiles.ChessboardDisjoint | main.cpp:63-72 | two different tiles share no pixel, so the threads never write the same pixel |
| Tiles.ChessboardRegionIsImage | main.cpp:55-56 | when `d` divides both sides the chessboard region is the whole image |
| Tiles.ChessboardCoveredIff | main.cpp:63-75 | after workers `0..i-1` the covered pixels are exactly those of the region owned by a lower index |
| Tiles.ChessboardCoversRegion | main.cpp:63-80 | after all `d*d` workers the covered pixels are exactly the region |
| Tiles.ChessboardGuardCoversOnce | main.cpp:49-75 | under the corrected guard every pixel of the image is in exactly one tile |
| Tiles.ChessboardGuardAsWritten | main.cpp:50-56 | the test the source applies: a non-zero perfect-square thread count whose root divides the width (the height is not tested) |
| Tiles.ChessboardGuard | main.cpp:55 | the corrected test: the guard as written, and the root also divides the height |
| Tiles.ChessboardGuardLeavesRowsUncovered | main.cpp:56 | the guard as written accepts 4 threads on a 2 x 3 image, and pixel (0, 2) is in no tile |
| Tiles.RowBandOwnerIff | main.cpp:165-169 | a pixel is in band `i` exactly when it is in the banded rows and its row divided by the band height is `i` |
| Tiles.RowBandTile | main.cpp:166-169 | band `i` of `k`: all columns `0..width`, rows `i * (height / k)` up to `(i + 1) * (height / k)` |
| Tiles.RowBandDisjoint | main.cpp:165-173 | two different bands share no pixel |
| Tiles.RowBandGuardCoversOnce | main.cpp:149-169 | under the corrected guard every pixel of the image is in exactly one band |
| Tiles.RowBandGuardAsWritten | main.cpp:149 | the test the source applies: a positive thread count that divides the width |
| Tiles.RowBandGuard | main.cpp:196-198 | the corrected test: a positive thread count that divides the height, the quotient the refusal message prints |
| Tiles.RowBandGuardMismatch | main.cpp:149 | the guard as written accepts 4 threads on a 4 x 6 image and leaves row 5 in no band, yet refuses 4 threads on a 6 x 4 image whose rows split evenly |
| Tiles.RowScan | Mandelbrot.cpp:89 | one row of the scan has `maxX - minX` bits (none for an empty range) |
| Tiles.Scan | Mandelbrot.cpp:86-89 | the pixels of a tile in the order a worker visits them: rows `minY..maxY` top to bottom, each row `minX..maxX` left to right |
| Tiles.ScanLength | Mandelbrot.cpp:86-89 | the scan of a tile has one bit per pixel |
| Tiles.ScanSplit | main.cpp:165-169 | scanning rows `lo..mid` and then `mid..hi` is the scan of `lo..hi` |
| Tiles.ScanIndex | Mandelbrot.cpp:86-111 | bit `(y - minY) * (maxX - minX) + (x - minX)` of the scan is the membership of pixel `(x, y)` |
| PPM.DecimalLinesIndex | Mandelbrot.cpp:117 | line `i` of the output is `to_string` of token `i` |
| PPM.DecimalLinesAppend | Mandelbrot.cpp:117 | appending tokens appends their lines |
| PPM.Header | PPMImage.cpp:31-33 | the four header lines `codeImg` and `createPPMFile` (Mandelbrot.cpp:176) write: `P3`, `"<width> <height>"`, `1` and a blank line |
| PPM.HeaderDims | PPMImage.cpp:86-90 | the width and height read from header line 1: `atoi` of the text before and after its first space; with no space, `find` gives `npos`, `npos + 1` wraps to 0, and both are `atoi` of the whole line |
| PPM.HeaderDimsOfHeader | PPMImage.cpp:86-90 | the width and height parsed from header line 1 are the ones the header was written with |
| PPM.ExpansionsIndex | PPMImage.cpp:102-103 | each data line is expanded by `decToBinary` with the group width of the header |
| PPM.HeaderStep | PPMImage.cpp:82-96 | the first three lines only set the width and the group width; the cursor stays at `[0][0]` |
| PPM.CursorStep | PPMImage.cpp:118-127 | each bit advances the cursor by one stream position, wraps after `width` columns, and passes exactly the pixel it wrote |
| PPM.CursorOrder | PPMImage.cpp:118-127 | the cursor has passed `[a][b]` exactly when that pixel's stream index is before the cursor's |
| PPM.CursorAtEnd | PPMImage.cpp:80-133 | at the end of the input the cursor stands at the end of the decoded stream |
| PPM.CursorInside | PPMImage.cpp:109-115 | while the stream lasts, the cursor indexes a cell of the matrix |
| PPM.DecodedColour | PPMImage.cpp:105-116 | a set bit decodes to red `(1,0,0)` and a clear bit to black |
| PPM.ConcatSplit | PPMImage.cpp:80-130 | expanding lines `lo..mid` and then `mid..hi` is the expansion of `lo..hi` |
| PPM.PartInConcat | PPMImage.cpp:103-128 | the bits of line `index` are found at their own offset in the whole decoded stream |
| PPM.CodedLine | PPMImage.cpp:57 | the expansion of a coded data line is its token's bits |
| PPM.CodedStream | PPMImage.cpp:57 | the expansion of all data lines of a coded file is the unpacking of its tokens |
| PPM.DecodeOfCoded | PPMImage.cpp:30-59 | decoding a file coded from a stream of whole groups reads back the width and exactly that stream |
| PPM.CodedRoundTrip | PPMImage.cpp:26-129 | decoding the file `codeImg` writes for an image returns bit `(a, b)` of the image at cursor index `b * cols + a` |
| PPM.CodeThenDecode | PPMImage.cpp:26-129 | coding an image and decoding the file into an image of `cols` rows by `rows` columns gives its red channel transposed: decoded cell `[a][b]` is red `(1,0,0)` exactly when coded cell `[b][a]` had red 1, and black otherwise |
| PPM.CodedLineCount | PPMImage.cpp:41-59 | the file `codeImg` writes has `4 + rows * (cols / gd(cols, 30))` lines: the header and one token per group of each row |
| PPM.FlattenAt | PPMImage.cpp:41-47 | the row-major stream has pixel `(a, b)` at index `b * cols + a` |
| PPM.CodeImgStep | PPMImage.cpp:41-59 | the coded lines of rows `0..y` followed by those of row `y` are the coded lines of rows `0..y+1` |
| PPM.CodeRowStep | PPMImage.cpp:41-42 | because each row is a whole number of groups, the packing of rows `0..y+1` is that of rows `0..y` followed by row `y`'s |
| PPM.CodeRowGroup | PPMImage.cpp:42-57 | one more group of a row appends the line `to_string(stoi(digits, 2))` |
| PPM.PPMImage.constructor | Matrix.h:15-21 | a fresh matrix of `height` rows and `width` columns, its pixels black |
| PPM.PPMImage.RedRow | PPMImage.cpp:47 | row `y` of the red channel as bits, set where red is 1 |
| PPM.PPMImage.RedRows | PPMImage.cpp:41-47 | all rows of the red channel |
| PPM.PPMImage.CodeImg | PPMImage.cpp:26-59 | the file is the header with `cols rows` followed by one line per group of `gd(cols, 30)` red bits, in row-major order |
| PPM.PPMImage.CodeRow | PPMImage.cpp:42-58 | the lines of one row are the packing of its red bits |
| PPM.PPMImage.GroupDigits | PPMImage.cpp:43-48 | the string built for a group is the group's red values as binary digits |
| PPM.PPMImage.Pixels | Matrix.h:42-44 | the matrix as a grid of rows, cell `[a][b]` being pixel `[a][b]` |
| PPM.PPMImage.DecodeImg | PPMImage.cpp:65-133 | cell `[a][b]` with `a < width` whose stream index `b * width + a` is inside the decoded stream gets that bit's colour; every other cell keeps its value |
| PPM.PPMImage.PaintedStream | PPMImage.cpp:105-127 | the painting invariant at the end of the stream is the decoded picture |
| PPM.PPMImage.DecodeStep | PPMImage.cpp:80-132 | each line keeps the cursor and painting invariants of the decoding loop |
| PPM.PPMImage.DecodeLine | PPMImage.cpp:103-129 | a data line advances the cursor over its expansion and paints it |
| PPM.PPMImage.ExpandToken | PPMImage.cpp:106-128 | the `g` digits of a line are painted at consecutive cursor positions |
| Fractal.PixelColour | Mandelbrot.cpp:158-167 | a pixel is black exactly when it is inside the set, and white otherwise |
| Fractal.PendingBounded | Mandelbrot.cpp:83-119 | between pixels `bufIndex` is the stream length mod the group width and `valCoded` is the value of the last `bufIndex` bits, below `2^bufIndex` |
| Fractal.EffectiveGroup | Mandelbrot.cpp:113-115 | the group width the packer actually uses: a `numOfCombinedBits` below 1 flushes after every pixel, so it acts as 1 |
| Fractal.FlushCase | Mandelbrot.cpp:107-119 | a bit that completes a group appends `to_string` of its value and resets both counters |
| Fractal.ShiftCase | Mandelbrot.cpp:107-113 | a bit that does not complete a group doubles `valCoded`, adds the bit and counts it |
| Fractal.ValueSnoc | Mandelbrot.cpp:107-111 | shifting a bit into a value doubles it and adds the bit |
| Fractal.FlushStep | Mandelbrot.cpp:117 | appending one token's line extends the emitted lines by that token |
| Fractal.PixelStep | Mandelbrot.cpp:89-119 | one pixel of the inner loop keeps the packing invariant |
| Fractal.Mandelbrot.Empty | Mandelbrot.cpp:10-21 | zero size, empty tile, zero group width and 34 iterations |
| Fractal.Mandelbrot.Sized | Mandelbrot.cpp:23-34 | the given size, an empty tile, group width `gd(width, 30)` and 34 iterations |
| Fractal.Mandelbrot.Part | Mandelbrot.cpp:36-47 | the given size and tile, group width `gd(width, 30)` and 34 iterations |
| Fractal.Mandelbrot.PartWithIterations | Mandelbrot.cpp:49-60 | the given size, tile and iteration count, group width `gd(width, 30)` |
| Fractal.Mandelbrot.SetCompressionLevel | Mandelbrot.cpp:65-67 | the group width becomes `gd(width, n)` and nothing else changes |
| Fractal.Mandelbrot.CalculateCompressedImage | Mandelbrot.cpp:69-122 | the buffer gains one decimal line per complete group of the tile's row-major membership bits; an unfinished last group is dropped |
| Fractal.Mandelbrot.CompressRow | Mandelbrot.cpp:89-120 | after one row the packing invariant holds for the stream extended by that row |
| Fractal.Mandelbrot.CalculateImage | Mandelbrot.cpp:124-170 | every pixel of the tile is painted with its membership colour at `[y][x]`; every other pixel is unchanged |
| Driver.CreateMandelbrotImage | main.cpp:14-96 | the computation runs exactly when the thread count is a perfect square whose root divides the width, and reports which check refused it otherwise; when it runs, every pixel of the chessboard region is painted with its colour and every other pixel is unchanged; when it is refused, the image is unchanged |
| Driver.PaintTile | main.cpp:63-72 | worker `i` paints exactly its chessboard tile |
| Driver.SquareRootPositive | main.cpp:50-51 | a non-zero perfect square is positive with a positive root |
| Driver.BandsCoverHeight | main.cpp:165-169 | under the corrected guard the bands cover all `height` rows |
| Driver.CreateMandelbrotImageCompressed | main.cpp:102-202 | the file is written exactly when the thread count divides the width; it is the header followed by the tokens of the banded rows, and the reported count is `(width*height mod 2^32) / gd(width, 30)` |
| Driver.CompressBand | main.cpp:165-173 | worker `i`'s buffer gains the tokens of band `i` |
| Driver.BandAppend | main.cpp:186-192 | the file of the first `i` bands followed by band `i`'s buffer is the file of the first `i + 1` bands |
| Driver.CompressedFile | main.cpp:186-192 | the header of the full image followed by the tokens of its first `rows` rows, packed as one row-major stream in groups of `gd(width, 30)` |
| Driver.ReportedTokens | main.cpp:182 | the count the source prints: `width * height` taken modulo `2^32`, as `unsigned` arithmetic gives it, divided by the group width |
| Driver.CompressedTokenCount | main.cpp:182-192 | the file of `rows` rows has `4 + rows * (width / g)` lines |
| Driver.ReportedTokensExact | main.cpp:182 | when the bands cover the image and `width*height` fits in 32 bits, the reported count is the number of tokens written |
| Driver.ReportedTokensOverstate | main.cpp:182 | for 4 threads on a 4 x 6 image, 4 tokens are written but 6 are reported |
| Driver.CompressedDecodes | main.cpp:186-192 | `decodeImg` of the compressed file reads back the width and the row-major membership bits of the banded rows |
| Driver.CompressedRoundTrip | main.cpp:102-192 | decoding the compressed file gives the membership of pixel `(a, b)` at cursor index `b * width + a` |
| Driver.ScanAtCursor | PPMImage.cpp:118-127 | the cursor index of a pixel selects its bit in the scan of the whole image |

## Left out

- The escape-time iteration in `calculateImage` and `calculateCompressedImage` (`Mandelbrot.cpp:72-105`, `Mandelbrot.cpp:127-156`) is double-precision arithmetic. It is a parameter of the model (`EscapeTest`), and the constants `-1.2`, `1.2` and `0.65` are not modelled.
- Threads: the workers run one after another in index order. Tiles are disjoint and buffers are private, so the result is the same. Concurrent scheduling itself is not modelled.
- File I/O: files are sequences of lines. `createPPMFile` and `writeToPPMFile` are the header and the appending of each buffer. `PPMImage::save`, the `ifstream`/`ofstream` handling, the "Unable to open file" branch and all other console output, including the decoded-count message of `PPMImage.cpp:138`, are left out. Two printed facts are kept. The token count printed at `main.cpp:182` is returned as `reported`. The refusal branch taken (`main.cpp:84`, `main.cpp:91`, `main.cpp:196`) is returned as the `Outcome`.
- `main()` (`main.cpp:204-237`) is a demonstration driver with fixed sizes and is not modelled.
- PPM.PPMImage.constructor: `new T[cols]` leaves the pixels of a plain struct uninitialised; the model starts them black, a value the source does not promise.
- `Matrix.h` is modelled only as the `array2` of `RGB` values inside `PPMImage`. Its operators are not modelled.
- `HelperFunctions.h` is not part of this model. `gd`, `isPerfectSquare` and `decToBinary` are defined by what their uses and documentation promise, so cases their code might treat differently are not captured, for example a non-positive `gd` argument or a non-numeric line for `decToBinary`.
- Fractal.Mandelbrot.CalculateCompressedImage: does not model the 32-bit wrap of `valCoded`. It cannot wrap for the default group width `gd(width, 30)`. A group width above 31, which only `setCompressionLevel` can set, would overflow `int` in the source.
- Driver.CreateMandelbrotImageCompressed: the reported count models the 32-bit wrap of `width * height`, but the other products of `main.cpp` (`i * (height / numOfThreads)`) and `atoi` of the header are unbounded integers.
- Driver.CreateMandelbrotImage: requires a positive width and a non-zero thread count. Zero is a perfect square, so a zero count passes the test at `main.cpp:50` with `devider == 0`, and `width % devider` at `main.cpp:56` then divides by zero; and the workers' `gd` needs a positive width. The source allows `width > cols`, which would write out of bounds, so the model requires the image to be large enough.
- Driver.CreateMandelbrotImageCompressed: requires a positive width and a positive thread count. The source allocates `numOfThreads` buffers before its guard, and `gd` needs a positive width.
- PPM.PPMImage.CodeImg: requires a positive column count and red values of 0 or 1. For other values the binary `stoi` would read a different number or throw, and that is not modelled.
- PPM.PPMImage.DecodeImg: requires a positive width in the header when line 1 is present, and the decoded stream to stay inside the matrix. The source writes out of bounds otherwise.
- The inner loops are factored into `CompressRow`, `CodeRow`, `DecodeLine`, `ExpandToken`, and the per-thread work into `PaintTile` and `CompressBand`. These are the same loops as in the source, split for the proof.

## Findings

| source | as written | input that shows it | evidently intended | confidence | as-written member | corrected member |
|---|---|---|---|---|---|---|
| main.cpp:56 | the chessboard guard checks only `width % devider == 0` | 4 threads on a 2 x 3 image: the tiles are 1 x 1 and row 2 is painted by no thread | the height must be divisible by `devider` too, so that every pixel is in exactly one tile | not executed | Tiles.ChessboardGuardLeavesRowsUncovered | Tiles.ChessboardGuardCoversOnce |
| main.cpp:149 | the row-band guard checks `width % numOfThreads == 0`, although the bands split the height | 4 threads on a 4 x 6 image: the bands are one row each and rows 4 and 5 are never computed | the guard should test `height % numOfThreads == 0`, as its error message (which prints `height / numOfThreads`) says | not executed | Tiles.RowBandGuardMismatch | Tiles.RowBandGuardCoversOnce |
| main.cpp:182 | the reported token count is `width * height / numOfCombinedBits` | 4 threads on a 4 x 6 image: 6 tokens reported, 4 written | the count of tokens actually written; under the corrected band guard, and while `width * height` fits in 32 bits, the reported count is exactly that | not executed | Driver.ReportedTokensOverstate | Driver.ReportedTokensExact |
