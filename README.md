# Image-Processing-in-C: a verified model of the integer core

This project models, in Dafny, the exact (non floating-point) heart of a small C
texture-feature toolkit for PGM images. It covers four pieces.

- **Gray-level co-occurrence matrix (GLCM).** `create_cooccurance_matrix` maps an
  angle (0, 45, 90, 135 degrees) and a distance to a pixel offset. It zeroes a
  `max_gray x max_gray` matrix `P` and counts, for every pair of gray levels
  (i, j), the pixels of level i whose neighbour at the offset has level j.
  `calculate_haralick_parameters` then divides `P` in place by its grand total
  `N`. It reduces `P` to the row and column marginals `Px`/`Py` and to the
  sum and difference histograms `Pxplusy`/`Pxminusy`. Both library copies
  (`Haralicklib.h`) and the stand-alone program's copies
  (`HarlickParametersofaPGMfile.c`) are covered.
- **Local binary patterns (LBP).** `find_least_combination` takes the minimum
  over all cyclic right rotations of a `size`-bit code. `calculate_LBP` builds
  a code per pixel, most significant bit first, by comparing each neighbour
  with the centre. A neighbour outside the image falls back to the centre's
  coordinate. The codes are written into a scratch matrix and then copied into
  a result image.
- **PGM utilities.** These cover `UP8`/`LO8`, the binary (P5) payload writer and
  reader (two bytes, most significant first, when max_gray > 255, else one
  byte), the order of the header fields, and `normalisePGM`, which rescales
  gray levels in place by an integer factor.
- **SIFT octave down-sampling.** `down_sample_pic` keeps every 2^o-th sample of
  every 2^o-th row. It is fed by the copy loop at the head of
  `calculate_keypoints`.

Conventions:

- The C struct's `width` is the number of rows (first index) and `height` the
  number of samples per row; the model keeps that.
- State that the C code changes in place is modelled with a class and arrays:
  `Pgm.Image` with an `array2<int>` pixel buffer, `P` as an `array2<real>`, and
  the scratch accumulators as `array<real>`.
- Each method is proved against a specification function on values (`seq`
  matrices), and the properties are proved about those functions.

Modules:

- `Numeric` (numeric.dfy): powers of two, C's truncating division, sums of reals.
- `Pgm` (pgm.dfy): the image record, `normalisePGM`, UP8/LO8, the P5 payload
  and the header.
- `Cooccurrence` (cooccurrence.dfy): the angle-to-offset map and the counting.
- `Haralick` (haralick.dfy): normalisation, marginals, histograms.
- `Lbp` (lbp.dfy): rotation canonicalisation and LBP coding.
- `Sift` (sift.dfy): octave down-sampling and the copy before it.

## Model

| member | source | states |
|---|---|---|
| Pgm.Image.Grid | PGMlib.h:50-56 | the image as a value: a width x height matrix equal to the pixel buffer's window |
| Pgm.Image.constructor | LBPlib.h:63-68 | a new record with the given dimensions and max_gray and a fresh width x height buffer |
| Pgm.Image.Normalise | PGMlib.h:250-263 | every pixel of the window becomes Rescale(old pixel, old max_gray, value), cells outside the window are untouched, max_gray becomes value, dimensions and buffer unchanged |
| Pgm.Rescale | PGMlib.h:253-261 | the new value of pixel p: it keeps the sign of p, and a growing range never moves p toward zero while a shrinking one never moves it away from zero |
| Pgm.RescaleSameMax | PGMlib.h:258-261 | rescaling to the same max_gray leaves every pixel unchanged |
| Pgm.RescaleMonotone | PGMlib.h:253-261 | rescaling preserves the (non-strict) order of pixels |
| Pgm.RescaleUpInRange | PGMlib.h:253-256 | growing the range keeps a pixel of [0, old max] inside [0, value] |
| Pgm.RescaleDownBound | PGMlib.h:258-261 | shrinking the range gives a pixel of [0, old max] a value in [0, 2 value), and at most value when value divides the old max |
| Pgm.ShrinkDivisor | PGMlib.h:261 | the divisor max_gray / value of a shrink is at least 1, so there is no division by zero, and it bounds the old max |
| Pgm.RescaleDownExceedsNewMax | PGMlib.h:258-263 | rescaling max_gray 255 to 100 maps 255 to 127, above the new max_gray |
| Pgm.RescaleTo63FitsOneByte | ReadWritePNG.c:298-303 | after rescaling to 63 every pixel is in [0, 126), so the one-byte P5 branch is taken and the sample is exact |
| Pgm.Up8 | PGMlib.h:45 | UP8 lies in [0, 256) |
| Pgm.Lo8 | PGMlib.h:47 | LO8 lies in [0, 256) |
| Pgm.Up8Lo8Join | PGMlib.h:45-47 | UP8(v) * 256 + LO8(v) is v modulo 2^16, hence v itself for 0 <= v < 65536 |
| Pgm.SampleBytes | PGMlib.h:292-311 | one pixel's payload bytes: two when max_gray > 255, else one, each a byte |
| Pgm.EncodeRowAt | PGMlib.h:292-311 | byte t of sample j of a row sits at position ByteCount(j) + t of the row's encoding |
| Pgm.EncodePayloadLength | PGMlib.h:292-311 | a width x height payload has width * height samples' worth of bytes |
| Pgm.EncodePayloadAt | PGMlib.h:292-311 | byte t of pixel (x, y) sits at row-major position ByteCount(x * height + y) + t of the payload |
| Pgm.EncodePayloadSnoc | PGMlib.h:292-296 | the payload of the first i + 1 rows is that of the first i rows followed by row i |
| Pgm.EncodePayloadBytes | PGMlib.h:290-311 | every element of the emitted payload is a byte, whatever the pixel values |
| Pgm.DecodeSampleRange | PGMlib.h:221-234 | a sample wholly inside a byte stream decodes into [0, 2^16) or [0, 2^8); a sample past the stream's end reads EOF and decodes negative |
| Pgm.DecodePayload | PGMlib.h:219-236 | the matrix readPGM fills is width x height |
| Pgm.DecodeEncodeAt | PGMlib.h:224-226 | reading back pixel (x, y) of a written payload gives the pixel modulo the sample modulus |
| Pgm.DecodeEncode | PGMlib.h:219-236 | reading back a written payload gives every pixel modulo 2^16 (two-byte samples) or 2^8 (one-byte samples) |
| Pgm.DecodeEncodeIdentity | HarlickParametersofaPGMfile.c:207-221 | for pixels a sample can hold, reading back a written payload gives the matrix itself |
| Pgm.WriteP5Payload | PGMlib.h:288-311 | the bytes writePGM emits are exactly the row-major encoding of the image |
| Pgm.WriteWideRow | ReadWritePNG.c:232-241 | row i emits UP8 then LO8 of each pixel, as the encoding of that row |
| Pgm.WriteNarrowRow | ReadWritePNG.c:245-250 | row i emits LO8 of each pixel, as the encoding of that row |
| Pgm.ReadP5Payload | PGMlib.h:219-236 | the pixels readPGM fills are the decoding of the stream, EOF reading as -1 |
| Pgm.HeaderRoundTrip | PGMlib.h:206-210 | the header written as height, width, max_gray and read in the same order restores both dimensions unswapped |
| Cooccurrence.AngleOffset | Haralicklib.h:185-204 | the offset is (-delta sign(sin angle), delta sign(cos angle)): delta steps in the angle's direction, first index counted downwards |
| Cooccurrence.AngleOffsetGeometry | Haralicklib.h:185-204 | each angle maps to an offset of Chebyshev length delta: axis-aligned exactly for 0 and 90, diagonal exactly for 45 and 135, never forward in x, forward in y exactly below 90 |
| Cooccurrence.InBoundsRefinesSourceGuard | Haralicklib.h:225-227 | the in-image test is the source's lower-bound guard plus the two upper bounds |
| Cooccurrence.SourceGuardSafeBackwards | HarlickParametersofaPGMfile.c:533-542 | for 90 and 135 degrees the lower-bound guard alone is the in-image test |
| Cooccurrence.SourceGuardAdmitsOutOfRange | HarlickParametersofaPGMfile.c:563-566 | at 45 degrees with delta 1 the guard lets through a neighbour in column height, past the end of the row |
| Cooccurrence.PairsBeforeCount | Haralicklib.h:221-230 | the partial count after scanning up to pixel (xs, ys) is the number of matching pixels scanned |
| Cooccurrence.Count | Haralicklib.h:217-233 | the entry P[i][j] the counting loops produce, at most one per pixel, so at most width * height |
| Cooccurrence.CountIsCardinality | Haralicklib.h:217-233 | P[i][j] counts exactly the set of pixels of level i whose in-image neighbour has level j |
| Cooccurrence.CountTotal | Haralicklib.h:217-233 | the counts sum to the number of pixels whose neighbour is in the image and whose two levels are below max_gray, which is at most width * height |
| Cooccurrence.CreateCooccurrenceMatrix | Haralicklib.h:207-233 | P is a fresh max_gray x max_gray matrix and P[i][j] is the count of (i, j) pairs at the angle's offset |
| Cooccurrence.AccumulatePixels | Haralicklib.h:221-231 | the pixel scan for cell (i, j) adds its count to P[i][j] and leaves every other cell alone |
| Cooccurrence.AccumulateRow | Haralicklib.h:223-230 | the scan of row x adds the row's matching pixels to P[i][j] and leaves every other cell alone |
| Cooccurrence.CreateCooccurrenceMatrixAndRelease | HarlickParametersofaPGMfile.c:545-572 | the same counts, in a fresh matrix, as the library builder; afterwards the pixel buffer is marked released while the record keeps its buffer, dimensions and max_gray |
| Numeric.TruncDiv | PGMlib.h:261 | C's int division: the remainder a - b q has the sign of a and is smaller than b, so the quotient truncates toward zero |
| Haralick.Cells | Haralicklib.h:20-26 | P as a value: a table equal to the array cell by cell |
| Haralick.TotalScaled | Haralicklib.h:27-35 | dividing every entry by d divides the total by d |
| Haralick.NormalisedSumsToOne | Haralicklib.h:18-35 | entries divided by a non-zero grand total sum to exactly 1 |
| Haralick.GrandTotal | Haralicklib.h:18-26 | N is the grand total of P |
| Haralick.DivideCells | Haralicklib.h:27-35 | every entry becomes its old value divided by N |
| Haralick.Normalise | HarlickParametersofaPGMfile.c:339-355 | N is the old grand total, every entry is divided by N, and the new entries sum to 1 |
| Haralick.Column | Haralicklib.h:46 | column c of P, entry r being P[r][c] |
| Haralick.RowSumsTotal | Haralicklib.h:39-48 | the row marginals sum to the total mass |
| Haralick.ColumnSumsTotal | Haralicklib.h:39-48 | the column marginals sum to the total mass |
| Haralick.TransposeInRange | Haralicklib.h:297-306 | reading P[j][i] for every in-range P[i][j] stays in range iff P is square (or empty) |
| Haralick.Marginals | Haralicklib.h:39-48 | Px holds the row sums and Py the column sums of P |
| Haralick.MarginalSums | HarlickParametersofaPGMfile.c:365-374 | one outer pass sets Px[i] to the sum of row i and Py[i] to the sum of column i, changing nothing else |
| Haralick.HistogramOf | Haralicklib.h:57-76 | a histogram has the requested number of buckets |
| Haralick.HistogramSum | Haralicklib.h:65-76 | when every cell's key is a bucket, the histogram sums to the total mass |
| Haralick.HistogramsPartitionMass | Haralicklib.h:57-76 | the sum histogram over i + j and the difference histogram over abs(i - j) each sum to the total mass |
| Haralick.BucketEmpty | Haralicklib.h:65-76 | a bucket no cell maps to stays 0 |
| Haralick.DifferenceBucketsBeyondRange | Haralicklib.h:70-73 | difference buckets at or beyond max(m, n) stay 0 |
| Haralick.SumDiffHistograms | Haralicklib.h:318-337 | the buckets are zeroed and filled so that Pxplusy and Pxminusy are the sum and difference histograms of P |
| Haralick.AddCell | Haralicklib.h:69-73 | a cell's mass goes to bucket i + j of Pxplusy and to bucket abs(i - j) of Pxminusy, nowhere else |
| Haralick.AccumulateHistograms | HarlickParametersofaPGMfile.c:391-400 | from zeroed buckets, the loops produce the two histograms of P |
| Haralick.NormaliseAndAggregate | Haralicklib.h:18-76 | the whole front half: P normalised, marginals and histograms of the normalised P, each summing to 1 |
| Lbp.RotateRight | LBPlib.h:13-15 | one step of the loop, keeping a size-bit value a size-bit value |
| Lbp.RotateLeftUndoesRight | LBPlib.h:13-15 | the step loses no bit: the opposite rotation gives the input back |
| Lbp.RotateRange | LBPlib.h:11-17 | any number of steps maps [0, 2^size) into itself |
| Lbp.RotateClosedForm | LBPlib.h:13-15 | k steps move the low k bits to the top: n / 2^k + (n mod 2^k) * 2^(size - k) |
| Lbp.RotatePeriod | LBPlib.h:11-17 | size steps return a size-bit number to itself |
| Lbp.RotateAdd | LBPlib.h:11-17 | s steps followed by t steps are s + t steps |
| Lbp.RotateMod | LBPlib.h:11-17 | t steps are t mod size steps for a size-bit number |
| Lbp.MinRotationBelow | LBPlib.h:16 | the running minimum after k steps is at most every rotation seen |
| Lbp.MinRotationAttained | LBPlib.h:9-16 | the running minimum is one of the rotations seen |
| Lbp.MinRotationRange | LBPlib.h:9-16 | the running minimum of a size-bit value's rotations is a size-bit value |
| Lbp.LeastRotation | LBPlib.h:7-19 | the value find_least_combination returns: never above the input, and a size-bit value for a size-bit input |
| Lbp.LeastRotationIsLeast | LBPlib.h:9-18 | the result is the least of all size rotations, is one of them, and is at most the input |
| Lbp.LeastRotationInvariant | LBPlib.h:7-19 | rotating the input does not change the result (rotation invariance) |
| Lbp.LeastRotationIdempotent | LBPlib.h:7-19 | applying find_least_combination twice gives the same as once |
| Lbp.FindLeastCombination | LBPlib.h:7-19 | the loop returns the least rotation of number |
| Lbp.CodeRange | LBPlib.h:41-55 | a code of P bits lies in [0, 2^P) |
| Lbp.CodeBit | LBPlib.h:41-55 | bit P - 1 - i of the code is comparison i |
| Lbp.Clamp | LBPlib.h:42-50 | the neighbour coordinate is the offset position when that is inside the image, else the centre's own, so it is always a valid index |
| Lbp.NeighbourBits | LBPlib.h:37-57 | one comparison per neighbour offset |
| Lbp.RawCode | LBPlib.h:35-57 | the code of a centre, one bit per neighbour, hence in [0, 2^P) |
| Lbp.RawCodeBits | LBPlib.h:35-57 | the raw code is in [0, 2^P) and bit P - 1 - i is set iff neighbour i is strictly brighter than the centre |
| Lbp.LbpImageAsWritten | LBPlib.h:31-61 | the window calculate_LBP leaves is (width - 2r) x (height - 2r) with cells LbpCellAsWritten |
| Lbp.LbpImage | LBPlib.h:31-61 | the intended window has the same shape with cells LbpCell |
| Lbp.LbpCellRotationInvariant | LBPlib.h:59 | the intended cell does not change when the neighbourhood's code is rotated, and it is a P-bit value |
| Lbp.LineFiftyNineKeepsRawCode | LBPlib.h:59 | on a 3 x 3 image with radius 1 the output holds the raw code 2 where the minimised code 1 is intended |
| Lbp.CodePixel | LBPlib.h:35-57 | cell (j - r, k - r) receives the raw code of centre (j, k), nothing else changes |
| Lbp.CodeCentre | LBPlib.h:35-59 | one inner pass as written leaves cell (j - r, k - r) as LbpCellAsWritten and changes only it and cell (j, k) |
| Lbp.CodeAllPixels | LBPlib.h:31-61 | after the loops the window holds the as-written LBP image |
| Lbp.CalculateLbp | LBPlib.h:24-83 | the result is a fresh (width - 2r) x (height - 2r) image with max_gray 2^P whose cells are LbpCellAsWritten |
| Lbp.CodeCentreIntended | LBPlib.h:35-59 | one inner pass with the minimisation on the cell just coded leaves it as LbpCell and changes nothing else |
| Lbp.CodeAllPixelsIntended | LBPlib.h:31-61 | after the loops the window holds the intended LBP image |
| Lbp.CalculateLbpIntended | LBPlib.h:24-83 | with line 59 corrected, the result has the same shape and every cell is the rotation-invariant LbpCell |
| Lbp.CopyWindow | LBPlib.h:69-77 | the result's window is a copy of the scratch matrix's |
| Sift.SampleInRange | SIFTlib.h:104-109 | i < n div 2^o implies 2^o i <= n - 2^o, so every source index is in range |
| Sift.Downsample | SIFTlib.h:101-102 | octave o of a width x height picture is (width div 2^o) x (height div 2^o), no larger than the picture |
| Sift.DownsampleIdentity | SIFTlib.h:101-110 | octave 0 is the picture itself |
| Sift.DownsampleCompose | SIFTlib.h:98-111 | down-sampling by octave a then b is down-sampling by octave a + b |
| Sift.DownSample | SIFTlib.h:98-111 | down gets dimensions width div 2^o and height div 2^o, the same max_gray, and pixel (i, j) equal to input pixel (2^o i, 2^o j) |
| Sift.SampleOctave | SIFTlib.h:104-110 | the two loops fill the down-sampled window from every 2^o-th sample |
| Sift.CopyLoopCoversImageIffSquare | SIFTlib.h:135-141 | the copy loop's index range is the picture's iff width == height (or width is 0) |
| Sift.CopyPixelsAsWritten | SIFTlib.h:279-285 | where it stays in bounds (width <= height) the loop copies only columns below width, leaving the rest of the scratch buffer as it was |
| Sift.CopyPixels | SIFTlib.h:135-141 | with the inner bound height, every cell of the picture is copied and nothing else changes |
| Sift.DownsampleOctave | SIFTlib.h:129-143 | for o != 0 the picture is copied into scratch and down-sampled back into the caller's record; either way the record ends as octave o of its old picture |

## Left out

- Haralick statistics f0 to f12 and the means ux, uy, u, sx, sy: they use
  `log`, `sqrt` and `exp` on doubles. `P` and its aggregates are modelled as
  exact reals, not IEEE doubles. Rounding and NaN propagation are not modelled.
- Haralick.Normalise: requires a non-zero grand total. The C code divides by
  N = 0 (an image with no countable pair), which yields NaN or infinity in
  every entry.
- Haralick.NormaliseAndAggregate: requires a non-zero grand total, for the same
  reason.
- Haralick.Marginals: requires a square `P`. The non-square variant reads
  `P[j][i]` out of range when m != n, as `Haralick.TransposeInRange` shows.
- Haralick.SumDiffHistograms: the fixed scratch arrays (17000/33000 in the
  library, 1024/2048 in the stand-alone program) are a `capacity` parameter.
  Overflowing them is ruled out by a precondition, and `Haralick.ScratchLimits`
  states which max_gray each size admits.
- Cooccurrence.CreateCooccurrenceMatrix: requires the angle to be 0, 45, 90 or
  135. For other angles the C offsets are uninitialised. The counting uses the
  full in-image test; see Findings.
- The sin/cos/ceil computation of LBP neighbour offsets: they are taken as a
  sequence of integer (dx, dy) offsets.
- Lbp.CalculateLbp: requires 2 r <= width and 2 r <= height. Otherwise the C
  result has negative dimensions.
- Lbp.FindLeastCombination: does not model 32-bit overflow of the code or of
  `temp*pow(2,size-1)`. Codes are unbounded integers, which matters only for
  size >= 32, where the top bit is 2^31.
- Pgm.Image.Normalise: requires max_gray > 0 and value > 0. The program's only
  caller passes 63, and a P5 max_gray is positive. Some of the excluded inputs
  divide by zero (max_gray 0, value 0, or a shrink with max_gray < value); the
  others rescale by a negative or zero factor, which is not modelled. It also
  does not model 32-bit overflow of the in-place multiplication.
- Pgm.Rescale: the same precondition as Pgm.Image.Normalise, for the same reasons.
- Pgm.ReadP5Payload: EOF from `fgetc` reads as -1, and `(upper << 8)` with
  upper = -1 is taken as -256. In C that shift of a negative value is
  undefined.
- Sift.DownSample: the octave is a natural number. A negative `o` makes
  `pow(2,o)` a fraction in C, which is not modelled. The double quotient
  truncated to int is modelled as floor division of non-negative integers,
  which it equals for image-sized values.
- Sift.CopyPixelsAsWritten: requires width <= height. For a wider picture the
  C loop writes past the end of each row of the scratch buffer, which has no
  Dafny counterpart.
- The rest of SIFT (Gaussian kernels, convolution, DoG keypoints,
  `find_inverse`) and InfoGain.h: these are floating-point.
- `make_PGM`: a double min/max rescale.
- File I/O: `fopen`/`fscanf`/`fgetc`/`fputc`, the P2 ASCII format,
  `skip_comments`, `printPGM`, `write_haralick`, the `writePGM("LBP.pgm", ...)`
  call inside `calculate_LBP`, and every `main`. Only the byte payload and the
  header field order are modelled, as functions over sequences.
- malloc/free: this includes the LBP scratch matrix freed with the wrong row
  count and the SIFT scratch copy that is never freed. Dafny arrays are
  garbage-collected. Release of the pixel buffer is modelled only as the
  `released` flag.

## Findings

| source | as written | input that shows it | evidently intended | confidence | as-written member | corrected member |
|---|---|---|---|---|---|---|
| Haralicklib.h:225-227 | the neighbour (x + dx, y + dy) is tested only for x + dx >= 0 and y + dy >= 0 | angle 45, delta 1 (as the stand-alone `main` uses), pixel (1, height - 1): the neighbour's column is height, one past the row | count a pair only when the neighbour is inside the image | not executed | Cooccurrence.SourceGuardAdmitsOutOfRange | Cooccurrence.CountTotal |
| LBPlib.h:59 | `find_least_combination` is applied to `lbp[j][k]` instead of the cell just coded, `lbp[j-radius][k-radius]`; for radius >= 1 every output cell keeps its raw code | 3 x 3 image [[0,0,0],[0,0,1],[0,0,0]], radius 1, neighbours (0,1) and (1,0): the output is 2, the rotation-invariant code is 1 | minimise the cell just coded, so every output cell is rotation-invariant | not executed | Lbp.LineFiftyNineKeepsRawCode | Lbp.CalculateLbpIntended |
| SIFTlib.h:135-141 | the copy before down-sampling runs its inner index below `temp.width` instead of `temp.height` | width 2, height 4, octave 1: column 2 of the scratch copy is never written, yet down-sampling reads scratch pixel (0, 2) | copy every cell of the width x height picture | not executed | Sift.CopyLoopCoversImageIffSquare | Sift.DownsampleOctave |
