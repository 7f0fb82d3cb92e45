/** The gray-level co-occurrence matrix builder (create_cooccurance_matrix):
    an angle and a distance select a pixel offset, and P[i][j] counts the
    pixels of gray level i whose offset neighbour has gray level j.

    The C code checks only that the neighbour's coordinates are not negative;
    this model also checks the upper bounds (see `SourceGuard` for the check
    as written and `SourceGuardAdmitsOutOfRange` for a pixel it lets through). */
module Cooccurrence {
  import opened Pgm

  /** A pixel offset (delx, dely): delx moves along the first index, dely along the second. */
  datatype Offset = Offset(dx: int, dy: int)

  /** The four directions the code recognises; for any other angle delx and dely
      stay uninitialised. */
  predicate IsCanonicalAngle(angle: int)
  {
    angle == 0 || angle == 45 || angle == 90 || angle == 135
  }

  /** The sign of sin(angle) for the four canonical angles. */
  function SinSign(angle: int): (r: int)
    requires IsCanonicalAngle(angle)
  {
    if angle == 0 then 0 else 1
  }

  /** The sign of cos(angle) for the four canonical angles. */
  function CosSign(angle: int): (r: int)
    requires IsCanonicalAngle(angle)
  {
    if angle == 90 then 0 else if angle == 135 then -1 else 1
  }

  /** The offset create_cooccurance_matrix chooses for an angle and a distance: delta
      chessboard steps in the direction of the angle, measured from the direction of
      growing second index, with the first index counted downwards. */
  function AngleOffset(angle: int, delta: int): (o: Offset)
    requires IsCanonicalAngle(angle)
    ensures o == Offset(-delta * SinSign(angle), delta * CosSign(angle))
  {
    if angle == 0 then Offset(0, delta)
    else if angle == 45 then Offset(-delta, delta)
    else if angle == 90 then Offset(-delta, 0)
    else Offset(-delta, -delta)
  }

  function Abs(n: int): (r: nat)
  {
    if n < 0 then -n else n
  }

  /** The offset lies delta steps away (in the chessboard metric), axis-aligned
      exactly for 0 and 90 degrees and diagonal for 45 and 135, and it never
      moves forward along the first index. */
  lemma AngleOffsetGeometry(angle: int, delta: int)
    requires IsCanonicalAngle(angle) && delta > 0
    ensures var o := AngleOffset(angle, delta);
      && (if Abs(o.dx) < Abs(o.dy) then Abs(o.dy) else Abs(o.dx)) == delta
      && ((o.dx == 0 || o.dy == 0) <==> (angle == 0 || angle == 90))
      && (Abs(o.dx) == Abs(o.dy) <==> (angle == 45 || angle == 135))
      && o.dx <= 0
      && (o.dy > 0 <==> angle < 90)
  {
  }

  /** The neighbour test as written: only the lower bounds are checked. */
  predicate SourceGuard(x: int, y: int, o: Offset)
  {
    x + o.dx >= 0 && y + o.dy >= 0
  }

  /** The neighbour test this model uses: the neighbour lies inside the image. */
  predicate InBounds(width: int, height: int, x: int, y: int)
  {
    0 <= x < width && 0 <= y < height
  }

  /** The model's test is the source's test plus the two upper-bound checks. */
  lemma InBoundsRefinesSourceGuard(width: int, height: int, x: int, y: int, o: Offset)
    ensures InBounds(width, height, x + o.dx, y + o.dy) <==>
      SourceGuard(x, y, o) && x + o.dx < width && y + o.dy < height
  {
  }

  /** For 90 and 135 degrees the source's test is already enough: the offset never
      moves forward, so a pixel passing it has its neighbour inside the image. */
  lemma SourceGuardSafeBackwards(width: int, height: int, x: int, y: int, angle: int, delta: int)
    requires angle == 90 || angle == 135
    requires delta >= 0 && InBounds(width, height, x, y)
    ensures SourceGuard(x, y, AngleOffset(angle, delta)) <==>
      InBounds(width, height, x + AngleOffset(angle, delta).dx, y + AngleOffset(angle, delta).dy)
  {
  }

  /** The program's own call (distance 1, angle 45) on any image with at least two
      rows: pixel (1, height - 1) passes the source's test, yet its neighbour's
      second index is height, one past the end of the row. */
  lemma SourceGuardAdmitsOutOfRange(width: int, height: int)
    requires width >= 2 && height >= 1
    ensures var o := AngleOffset(45, 1);
      && InBounds(width, height, 1, height - 1)
      && SourceGuard(1, height - 1, o)
      && (height - 1) + o.dy == height
      && !InBounds(width, height, 1 + o.dx, height - 1 + o.dy)
  {
  }

  /** Pixel (x, y) has gray level i and its in-image neighbour has gray level j. */
  predicate Match(g: Matrix, height: nat, o: Offset, i: int, j: int, x: int, y: int)
    requires IsMatrix(g, |g|, height) && 0 <= x < |g| && 0 <= y < height
  {
    InBounds(|g|, height, x + o.dx, y + o.dy) && g[x][y] == i && g[x + o.dx][y + o.dy] == j
  }

  /** Matching pixels (x, y) with y < ys. */
  function CountColumns(g: Matrix, height: nat, o: Offset, i: int, j: int, x: int, ys: int): (c: nat)
    requires IsMatrix(g, |g|, height) && 0 <= x < |g| && 0 <= ys <= height
    ensures c <= ys
  {
    if ys == 0 then 0
    else CountColumns(g, height, o, i, j, x, ys - 1) + (if Match(g, height, o, i, j, x, ys - 1) then 1 else 0)
  }

  /** Matching pixels (x, y) with x < xs. */
  function CountRows(g: Matrix, height: nat, o: Offset, i: int, j: int, xs: int): (c: nat)
    requires IsMatrix(g, |g|, height) && 0 <= xs <= |g|
    ensures c <= xs * height
  {
    if xs == 0 then 0
    else
      MulSucc(xs - 1, height);
      CountRows(g, height, o, i, j, xs - 1) + CountColumns(g, height, o, i, j, xs - 1, height)
  }

  /** The entry P[i][j] of the co-occurrence matrix: at most one per pixel. */
  function Count(g: Matrix, height: nat, o: Offset, i: int, j: int): (c: nat)
    requires IsMatrix(g, |g|, height)
    ensures c <= |g| * height
  {
    CountRows(g, height, o, i, j, |g|)
  }

  // ---------------------------------------------------------------- count as a cardinality

  /** The matching pixels that come before (xs, ys) in row-major order. */
  ghost function PairsBefore(g: Matrix, height: nat, o: Offset, i: int, j: int, xs: int, ys: int): set<(int, int)>
    requires IsMatrix(g, |g|, height)
  {
    set x, y | 0 <= x < |g| && 0 <= y < height && (x < xs || (x == xs && y < ys)) && Match(g, height, o, i, j, x, y) :: (x, y)
  }

  /** The set of pixels that P[i][j] counts. */
  ghost function Pairs(g: Matrix, height: nat, o: Offset, i: int, j: int): set<(int, int)>
    requires IsMatrix(g, |g|, height)
  {
    set x, y | 0 <= x < |g| && 0 <= y < height && Match(g, height, o, i, j, x, y) :: (x, y)
  }

  lemma {:induction false} PairsBeforeCount(g: Matrix, height: nat, o: Offset, i: int, j: int, xs: int, ys: int)
    requires IsMatrix(g, |g|, height) && 0 <= xs < |g| && 0 <= ys <= height
    ensures |PairsBefore(g, height, o, i, j, xs, ys)| ==
      CountRows(g, height, o, i, j, xs) + CountColumns(g, height, o, i, j, xs, ys)
    decreases xs, ys
  {
    if ys > 0 {
      PairsBeforeCount(g, height, o, i, j, xs, ys - 1);
      PairsBeforeStep(g, height, o, i, j, xs, ys);
    } else if xs > 0 {
      PairsBeforeCount(g, height, o, i, j, xs - 1, height);
      PairsBeforeRowStart(g, height, o, i, j, xs);
    } else {
      assert PairsBefore(g, height, o, i, j, xs, ys) == {};
    }
  }

  /** Advancing one column adds pixel (xs, ys - 1) exactly when it matches. */
  lemma PairsBeforeStep(g: Matrix, height: nat, o: Offset, i: int, j: int, xs: int, ys: int)
    requires IsMatrix(g, |g|, height) && 0 <= xs < |g| && 0 < ys <= height
    ensures |PairsBefore(g, height, o, i, j, xs, ys)| ==
      |PairsBefore(g, height, o, i, j, xs, ys - 1)| + (if Match(g, height, o, i, j, xs, ys - 1) then 1 else 0)
  {
    var s := PairsBefore(g, height, o, i, j, xs, ys);
    var s0 := PairsBefore(g, height, o, i, j, xs, ys - 1);
    if Match(g, height, o, i, j, xs, ys - 1) {
      assert s == s0 + {(xs, ys - 1)};
    } else {
      assert s == s0;
    }
  }

  /** The start of row xs is the end of row xs - 1. */
  lemma PairsBeforeRowStart(g: Matrix, height: nat, o: Offset, i: int, j: int, xs: int)
    requires IsMatrix(g, |g|, height) && 0 < xs < |g|
    ensures PairsBefore(g, height, o, i, j, xs, 0) == PairsBefore(g, height, o, i, j, xs - 1, height)
  {
  }

  /** P[i][j] is the number of pixels (x, y) whose neighbour is in the image, with
      pixels[x][y] == i and the neighbour's level j. */
  lemma CountIsCardinality(g: Matrix, height: nat, o: Offset, i: int, j: int)
    requires IsMatrix(g, |g|, height)
    ensures Count(g, height, o, i, j) == |Pairs(g, height, o, i, j)|
  {
    if |g| > 0 {
      var last := |g| - 1;
      PairsBeforeCount(g, height, o, i, j, last, height);
      assert Pairs(g, height, o, i, j) == PairsBefore(g, height, o, i, j, last, height);
    } else {
      assert Pairs(g, height, o, i, j) == {};
    }
  }

  // ---------------------------------------------------------------- total mass of the counts

  /** Sum of f(i, j) over i < rows, j < cols. */
  function TableSum(f: (int, int) -> nat, rows: nat, cols: nat): (r: nat)
  {
    if rows == 0 then 0 else TableSum(f, rows - 1, cols) + LineSum(f, rows - 1, cols)
  }

  function LineSum(f: (int, int) -> nat, i: int, cols: nat): (r: nat)
  {
    if cols == 0 then 0 else LineSum(f, i, cols - 1) + f(i, cols - 1)
  }

  lemma {:induction false} LineSumAdd(f: (int, int) -> nat, f1: (int, int) -> nat, f2: (int, int) -> nat, i: int, cols: nat)
    requires forall j :: 0 <= j < cols ==> f(i, j) == f1(i, j) + f2(i, j)
    ensures LineSum(f, i, cols) == LineSum(f1, i, cols) + LineSum(f2, i, cols)
  {
    if cols > 0 {
      LineSumAdd(f, f1, f2, i, cols - 1);
    }
  }

  lemma {:induction false} TableSumAdd(f: (int, int) -> nat, f1: (int, int) -> nat, f2: (int, int) -> nat, rows: nat, cols: nat)
    requires forall i, j :: 0 <= i < rows && 0 <= j < cols ==> f(i, j) == f1(i, j) + f2(i, j)
    ensures TableSum(f, rows, cols) == TableSum(f1, rows, cols) + TableSum(f2, rows, cols)
  {
    if rows > 0 {
      TableSumAdd(f, f1, f2, rows - 1, cols);
      LineSumAdd(f, f1, f2, rows - 1, cols);
    }
  }

  lemma {:induction false} LineSumPoint(f: (int, int) -> nat, i: int, cols: nat, a: int, b: int)
    requires forall j :: 0 <= j < cols ==> f(i, j) == if i == a && j == b then 1 else 0
    ensures LineSum(f, i, cols) == if i == a && 0 <= b < cols then 1 else 0
  {
    if cols > 0 {
      LineSumPoint(f, i, cols - 1, a, b);
    }
  }

  /** A table that is 1 at (a, b) and 0 elsewhere sums to 1 when (a, b) is inside it. */
  lemma {:induction false} TableSumPoint(f: (int, int) -> nat, rows: nat, cols: nat, a: int, b: int)
    requires forall i, j :: 0 <= i < rows && 0 <= j < cols ==> f(i, j) == if i == a && j == b then 1 else 0
    ensures TableSum(f, rows, cols) == if 0 <= a < rows && 0 <= b < cols then 1 else 0
  {
    if rows > 0 {
      TableSumPoint(f, rows - 1, cols, a, b);
      LineSumPoint(f, rows - 1, cols, a, b);
    }
  }

  /** Pixel (x, y) has its neighbour in the image and both gray levels below levels. */
  predicate Countable(g: Matrix, height: nat, o: Offset, levels: int, x: int, y: int)
    requires IsMatrix(g, |g|, height) && 0 <= x < |g| && 0 <= y < height
  {
    InBounds(|g|, height, x + o.dx, y + o.dy) && 0 <= g[x][y] < levels && 0 <= g[x + o.dx][y + o.dy] < levels
  }

  function CountableColumns(g: Matrix, height: nat, o: Offset, levels: int, x: int, ys: int): (r: nat)
    requires IsMatrix(g, |g|, height) && 0 <= x < |g| && 0 <= ys <= height
    ensures CountableColumns(g, height, o, levels, x, ys) <= ys
  {
    if ys == 0 then 0
    else CountableColumns(g, height, o, levels, x, ys - 1) + (if Countable(g, height, o, levels, x, ys - 1) then 1 else 0)
  }

  function CountableRows(g: Matrix, height: nat, o: Offset, levels: int, xs: int): (r: nat)
    requires IsMatrix(g, |g|, height) && 0 <= xs <= |g|
  {
    if xs == 0 then 0
    else CountableRows(g, height, o, levels, xs - 1) + CountableColumns(g, height, o, levels, xs - 1, height)
  }

  /** The pixels P's cells count, over the whole image. */
  function CountablePixels(g: Matrix, height: nat, o: Offset, levels: int): (r: nat)
    requires IsMatrix(g, |g|, height)
  {
    CountableRows(g, height, o, levels, |g|)
  }

  lemma {:induction false} CountableRowsBound(g: Matrix, height: nat, o: Offset, levels: int, xs: int)
    requires IsMatrix(g, |g|, height) && 0 <= xs <= |g|
    ensures CountableRows(g, height, o, levels, xs) <= xs * height
  {
    if xs > 0 {
      CountableRowsBound(g, height, o, levels, xs - 1);
      MulSucc(xs - 1, height);
    }
  }

  lemma {:induction false} TableBefore(g: Matrix, height: nat, o: Offset, n: nat, xs: int, ys: int)
    requires IsMatrix(g, |g|, height) && 0 <= xs < |g| && 0 <= ys <= height
    ensures TableSum((i, j) => CountRows(g, height, o, i, j, xs) + CountColumns(g, height, o, i, j, xs, ys), n, n)
      == CountableRows(g, height, o, n, xs) + CountableColumns(g, height, o, n, xs, ys)
    decreases xs, ys
  {
    var f := (i, j) => CountRows(g, height, o, i, j, xs) + CountColumns(g, height, o, i, j, xs, ys);
    if ys > 0 {
      TableBefore(g, height, o, n, xs, ys - 1);
      TableBeforeStep(g, height, o, n, xs, ys);
    } else if xs > 0 {
      TableBefore(g, height, o, n, xs - 1, height);
      var f1 := (i, j) => CountRows(g, height, o, i, j, xs - 1) + CountColumns(g, height, o, i, j, xs - 1, height);
      TableSumAdd(f, f1, (i, j) => 0, n, n);
      TableSumPoint((i, j) => 0, n, n, -1, -1);
    } else {
      TableSumPoint(f, n, n, -1, -1);
    }
  }

  /** Advancing the scan by pixel (xs, ys - 1) adds one to the table total exactly
      when that pixel is countable. */
  lemma TableBeforeStep(g: Matrix, height: nat, o: Offset, n: nat, xs: int, ys: int)
    requires IsMatrix(g, |g|, height) && 0 <= xs < |g| && 0 < ys <= height
    ensures TableSum((i, j) => CountRows(g, height, o, i, j, xs) + CountColumns(g, height, o, i, j, xs, ys), n, n)
      == TableSum((i, j) => CountRows(g, height, o, i, j, xs) + CountColumns(g, height, o, i, j, xs, ys - 1), n, n)
       + (if Countable(g, height, o, n, xs, ys - 1) then 1 else 0)
  {
    var f := (i, j) => CountRows(g, height, o, i, j, xs) + CountColumns(g, height, o, i, j, xs, ys);
    var f1 := (i, j) => CountRows(g, height, o, i, j, xs) + CountColumns(g, height, o, i, j, xs, ys - 1);
    var f2 := (i, j) => if Match(g, height, o, i, j, xs, ys - 1) then 1 else 0;
    TableSumAdd(f, f1, f2, n, n);
    var y := ys - 1;
    if InBounds(|g|, height, xs + o.dx, y + o.dy) {
      TableSumPoint(f2, n, n, g[xs][y], g[xs + o.dx][y + o.dy]);
    } else {
      TableSumPoint(f2, n, n, -1, -1);
    }
  }

  /** Summed over all n x n cells, the counts give exactly the pixels whose neighbour
      is in the image and whose two gray levels are below n; every other pixel
      contributes to no cell. So the total is at most width * height. */
  lemma CountTotal(g: Matrix, height: nat, o: Offset, n: nat)
    requires IsMatrix(g, |g|, height)
    ensures TableSum((i, j) => Count(g, height, o, i, j), n, n) == CountablePixels(g, height, o, n)
    ensures CountablePixels(g, height, o, n) <= |g| * height
  {
    var f := (i, j) => Count(g, height, o, i, j);
    CountableRowsBound(g, height, o, n, |g|);
    if |g| > 0 {
      var last := |g| - 1;
      TableBefore(g, height, o, n, last, height);
      var f1 := (i, j) => CountRows(g, height, o, i, j, last) + CountColumns(g, height, o, i, j, last, height);
      TableSumAdd(f, f1, (i, j) => 0, n, n);
      TableSumPoint((i, j) => 0, n, n, -1, -1);
    } else {
      TableSumPoint(f, n, n, -1, -1);
    }
  }

  // ---------------------------------------------------------------- the builder

  /** create_cooccurance_matrix's counting: a max_gray x max_gray matrix, zeroed,
      then P[i][j] incremented once per pixel pair (i, j) at the chosen offset. */
  method CreateCooccurrenceMatrix(img: Image, delta: int, angle: int) returns (P: array2<real>)
    requires img.Valid() && !img.released && img.maxGray >= 0 && IsCanonicalAngle(angle)
    ensures fresh(P)
    ensures P.Length0 == img.maxGray && P.Length1 == img.maxGray
    ensures forall i, j :: 0 <= i < img.maxGray && 0 <= j < img.maxGray ==>
      P[i, j] == Count(img.Grid(), img.height, AngleOffset(angle, delta), i, j) as real
  {
    var o := AngleOffset(angle, delta);
    var n := img.maxGray;
    P := new real[n, n];
    var i := 0;
    while i < n
      invariant 0 <= i <= n
      invariant forall a, b :: 0 <= a < i && 0 <= b < n ==> P[a, b] == 0.0
    {
      var j := 0;
      while j < n
        invariant 0 <= j <= n
        invariant forall a, b :: 0 <= a < i && 0 <= b < n ==> P[a, b] == 0.0
        invariant forall b :: 0 <= b < j ==> P[i, b] == 0.0
      {
        P[i, j] := 0.0;
        j := j + 1;
      }
      i := i + 1;
    }
    ghost var g := img.Grid();
    i := 0;
    while i < n
      invariant 0 <= i <= n
      invariant forall a, b :: 0 <= a < n && 0 <= b < n ==>
        P[a, b] == if a < i then Count(g, img.height, o, a, b) as real else 0.0
    {
      var j := 0;
      while j < n
        invariant 0 <= j <= n
        invariant forall a, b :: 0 <= a < n && 0 <= b < n ==>
          P[a, b] == if a < i || (a == i && b < j) then Count(g, img.height, o, a, b) as real else 0.0
      {
        AccumulatePixels(P, img, o, i, j);
        j := j + 1;
      }
      i := i + 1;
    }
  }

  /** The two inner loops for one cell: scan every pixel and add 1 to P[i][j] for
      each matching pair. */
  method AccumulatePixels(P: array2<real>, img: Image, o: Offset, i: int, j: int)
    requires img.Valid() && 0 <= i < P.Length0 && 0 <= j < P.Length1
    modifies P
    ensures P[i, j] == old(P[i, j]) + Count(img.Grid(), img.height, o, i, j) as real
    ensures forall a, b :: 0 <= a < P.Length0 && 0 <= b < P.Length1 && (a != i || b != j) ==> P[a, b] == old(P[a, b])
  {
    ghost var g := img.Grid();
    var w, h := img.width, img.height;
    var x := 0;
    while x < w
      invariant 0 <= x <= w
      invariant P[i, j] == old(P[i, j]) + CountRows(g, h, o, i, j, x) as real
      invariant forall a, b :: 0 <= a < P.Length0 && 0 <= b < P.Length1 && (a != i || b != j) ==> P[a, b] == old(P[a, b])
    {
      AccumulateRow(P, img.pixels, g, w, h, o, i, j, x);
      x := x + 1;
    }
  }

  /** The innermost loop: the pixels of row x, each adding 1 to P[i][j] when it
      and its in-image neighbour have levels i and j. */
  method AccumulateRow(P: array2<real>, pixels: array2<int>, ghost g: Matrix, w: int, h: int, o: Offset, i: int, j: int, x: int)
    requires Holds(pixels, g, w, h) && 0 <= x < w && 0 <= i < P.Length0 && 0 <= j < P.Length1
    modifies P
    ensures P[i, j] == old(P[i, j]) + CountColumns(g, h, o, i, j, x, h) as real
    ensures forall a, b :: 0 <= a < P.Length0 && 0 <= b < P.Length1 && (a != i || b != j) ==> P[a, b] == old(P[a, b])
  {
    var y := 0;
    while y < h
      invariant 0 <= y <= h
      invariant P[i, j] == old(P[i, j]) + CountColumns(g, h, o, i, j, x, y) as real
      invariant forall a, b :: 0 <= a < P.Length0 && 0 <= b < P.Length1 && (a != i || b != j) ==> P[a, b] == old(P[a, b])
    {
      var t1 := if x + o.dx >= 0 then x + o.dx else -1;
      var t2 := if y + o.dy >= 0 then y + o.dy else -1;
      if t1 >= 0 && t2 >= 0 && t1 < w && t2 < h {
        if pixels[x, y] == i && pixels[t1, t2] == j {
          P[i, j] := P[i, j] + 1.0;
        }
      }
      y := y + 1;
    }
  }

  /** The copy of the builder in the stand-alone Haralick program: same counting,
      after which the image's pixel buffer is freed. */
  method CreateCooccurrenceMatrixAndRelease(img: Image, delta: int, angle: int) returns (P: array2<real>)
    requires img.Valid() && !img.released && img.maxGray >= 0 && IsCanonicalAngle(angle)
    modifies img
    ensures fresh(P)
    ensures img.released && img.pixels == old(img.pixels)
    ensures img.width == old(img.width) && img.height == old(img.height) && img.maxGray == old(img.maxGray)
    ensures P.Length0 == img.maxGray && P.Length1 == img.maxGray
    ensures forall i, j :: 0 <= i < img.maxGray && 0 <= j < img.maxGray ==>
      P[i, j] == old(Count(img.Grid(), img.height, AngleOffset(angle, delta), i, j)) as real
  {
    P := CreateCooccurrenceMatrix(img, delta, angle);
    img.released := true;
  }
}
