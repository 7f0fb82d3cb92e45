/** The exact front half of calculate_haralick_parameters (and of its copies
    calculate_harlick_parameters and calculate_haralick_parameters_RIVLBP):
    the co-occurrence matrix P is divided in place by its grand total N, then
    reduced to row and column marginals Px, Py and to the histograms of i + j
    (Pxplusy) and of |i - j| (Pxminusy). Over reals every step is exact.

    The marginals and histograms are written into fixed-size scratch arrays
    (17000 and 33000 slots in the library, 1024 and 2048 in the stand-alone
    program); their sizes are parameters here. */
module Haralick {
  import opened Numeric

  /** A real matrix as a value: t[i][j] for i < m, j < n. */
  type Table = seq<seq<real>>

  ghost predicate IsTable(t: Table, m: int, n: int)
  {
    |t| == m && forall i :: 0 <= i < m ==> |t[i]| == n
  }

  /** The contents of P as a value. */
  ghost function Cells(P: array2<real>): (t: Table)
    reads P
    ensures IsTable(t, P.Length0, P.Length1)
    ensures forall i, j :: 0 <= i < P.Length0 && 0 <= j < P.Length1 ==> t[i][j] == P[i, j]
  {
    seq(P.Length0, i requires 0 <= i < P.Length0 reads P =>
      seq(P.Length1, j requires 0 <= j < P.Length1 reads P => P[i, j]))
  }

  /** One more element of a prefix adds that element to the sum. */
  lemma SumStep(s: seq<real>, j: int)
    requires 0 <= j < |s|
    ensures Sum(s[..j + 1]) == Sum(s[..j]) + s[j]
  {
    assert s[..j + 1][..j] == s[..j];
  }

  /** The grand total N, accumulated row by row as the C loop does. */
  function Total(t: Table): (r: real)
  {
    if t == [] then 0.0 else Total(t[..|t| - 1]) + Sum(t[|t| - 1])
  }

  // ---------------------------------------------------------------- normalisation

  /** Dividing every cell by d divides the grand total by d. */
  lemma {:induction false} TotalScaled(t: Table, u: Table, m: int, n: int, d: real)
    requires IsTable(t, m, n) && IsTable(u, m, n) && d != 0.0
    requires forall i, j :: 0 <= i < m && 0 <= j < n ==> u[i][j] == t[i][j] / d
    ensures Total(u) == Total(t) / d
  {
    if m > 0 {
      var k := m - 1;
      TotalScaled(t[..k], u[..k], k, n, d);
      SumScaled(t[k], u[k], d);
      DivAdd(Total(t[..k]), Sum(t[k]), d);
    }
  }

  lemma DivAdd(a: real, b: real, d: real)
    requires d != 0.0
    ensures a / d + b / d == (a + b) / d
  {
  }

  lemma DivSelf(x: real)
    requires x != 0.0
    ensures x / x == 1.0
  {
  }

  /** After P[i][j] := P[i][j] / N with N the grand total, the cells sum to exactly 1. */
  lemma NormalisedSumsToOne(t: Table, u: Table, m: int, n: int)
    requires IsTable(t, m, n) && IsTable(u, m, n) && Total(t) != 0.0
    requires forall i, j :: 0 <= i < m && 0 <= j < n ==> u[i][j] == t[i][j] / Total(t)
    ensures Total(u) == 1.0
  {
    TotalScaled(t, u, m, n, Total(t));
    DivSelf(Total(t));
  }

  /** The first normalisation loop: N accumulates every cell of P, row by row. */
  method GrandTotal(P: array2<real>) returns (N: real)
    ensures N == Total(Cells(P))
  {
    ghost var t := Cells(P);
    var m, n := P.Length0, P.Length1;
    N := 0.0;
    var i := 0;
    while i < m
      invariant 0 <= i <= m
      invariant N == Total(t[..i])
    {
      var j := 0;
      while j < n
        invariant 0 <= j <= n
        invariant N == Total(t[..i]) + Sum(t[i][..j])
      {
        SumStep(t[i], j);
        N := N + P[i, j];
        j := j + 1;
      }
      assert t[..i + 1][..i] == t[..i];
      assert t[i][..n] == t[i];
      i := i + 1;
    }
    assert t[..m] == t;
  }

  /** The second normalisation loop: P[i][j] := P[i][j] / N for every cell. */
  method DivideCells(P: array2<real>, N: real)
    requires N != 0.0
    modifies P
    ensures forall i, j :: 0 <= i < P.Length0 && 0 <= j < P.Length1 ==> P[i, j] == old(P[i, j]) / N
  {
    var m, n := P.Length0, P.Length1;
    var i := 0;
    while i < m
      invariant 0 <= i <= m
      invariant forall a, b :: 0 <= a < m && 0 <= b < n ==> P[a, b] == if a < i then old(P[a, b]) / N else old(P[a, b])
    {
      var j := 0;
      while j < n
        invariant 0 <= j <= n
        invariant forall a, b :: 0 <= a < m && 0 <= b < n ==>
          P[a, b] == if a < i || (a == i && b < j) then old(P[a, b]) / N else old(P[a, b])
      {
        P[i, j] := P[i, j] / N;
        j := j + 1;
      }
      i := i + 1;
    }
  }

  /** Normalisation: N is the sum of all cells and every cell is then divided by N,
      after which the cells sum to 1. The C code divides by zero when P is all
      zeros; this model requires a non-zero total. */
  method Normalise(P: array2<real>) returns (N: real)
    requires Total(Cells(P)) != 0.0
    modifies P
    ensures N == Total(old(Cells(P)))
    ensures forall i, j :: 0 <= i < P.Length0 && 0 <= j < P.Length1 ==> P[i, j] == old(P[i, j]) / N
    ensures Total(Cells(P)) == 1.0
  {
    ghost var t := Cells(P);
    N := GrandTotal(P);
    DivideCells(P, N);
    NormalisedSumsToOne(t, Cells(P), P.Length0, P.Length1);
  }

  // ---------------------------------------------------------------- marginals

  /** Column c of a table. */
  function Column(t: Table, n: int, c: int): (col: seq<real>)
    requires IsTable(t, |t|, n) && 0 <= c < n
    ensures |col| == |t| && forall r :: 0 <= r < |t| ==> col[r] == t[r][c]
  {
    seq(|t|, r requires 0 <= r < |t| => t[r][c])
  }

  /** Px: the row sums. */
  function RowSums(t: Table): (px: seq<real>)
    ensures |px| == |t|
  {
    seq(|t|, i requires 0 <= i < |t| => Sum(t[i]))
  }

  /** Py: the column sums. */
  function ColumnSums(t: Table, n: nat): (py: seq<real>)
    requires IsTable(t, |t|, n)
    ensures |py| == n
  {
    seq(n, c requires 0 <= c < n => Sum(Column(t, n, c)))
  }

  /** The row marginals together hold the whole mass of P. */
  lemma {:induction false} RowSumsTotal(t: Table)
    ensures Sum(RowSums(t)) == Total(t)
  {
    if t != [] {
      var k := |t| - 1;
      assert RowSums(t)[..k] == RowSums(t[..k]);
      RowSumsTotal(t[..k]);
    }
  }

  /** So do the column marginals: summing the columns is summing the rows. */
  lemma {:induction false} ColumnSumsTotal(t: Table, m: nat, n: nat)
    requires IsTable(t, m, n)
    ensures Sum(ColumnSums(t, n)) == Total(t)
  {
    if m == 0 {
      SumZeros(n);
      assert ColumnSums(t, n) == Zeros(n);
    } else {
      var k := m - 1;
      ColumnSumsTotal(t[..k], k, n);
      forall c | 0 <= c < n
        ensures ColumnSums(t, n)[c] == ColumnSums(t[..k], n)[c] + t[k][c]
      {
        assert Column(t, n, c)[..k] == Column(t[..k], n, c);
      }
      SumPointwiseAdd(ColumnSums(t[..k], n), t[k], ColumnSums(t, n));
    }
  }

  /** Both indices of P[i][j] and of the transposed P[j][i] stay in an m x n matrix. */
  predicate InRange(m: int, n: int, i: int, j: int)
  {
    0 <= i < m && 0 <= j < n
  }

  /** `Py[i] += P[j][i]` for i < m, j < n reads inside an m x n matrix exactly when
      the matrix is square (or has no cells at all). */
  lemma TransposeInRange(m: nat, n: nat)
    ensures (forall i, j :: InRange(m, n, i, j) ==> InRange(m, n, j, i)) <==> (m == n || m == 0 || n == 0)
  {
    if m != n && m != 0 && n != 0 {
      if m < n {
        assert InRange(m, n, 0, n - 1) && !InRange(m, n, n - 1, 0);
      } else {
        assert InRange(m, n, m - 1, 0) && !InRange(m, n, 0, m - 1);
      }
    }
  }

  /** The marginal loop: Px[i] accumulates row i and Py[i] column i of a square P,
      into scratch arrays of the given capacity. */
  method Marginals(P: array2<real>, capacity: nat) returns (px: array<real>, py: array<real>)
    requires P.Length0 == P.Length1 <= capacity
    ensures fresh(px) && fresh(py) && px.Length == capacity && py.Length == capacity
    ensures px[..P.Length0] == RowSums(Cells(P))
    ensures py[..P.Length0] == ColumnSums(Cells(P), P.Length1)
  {
    ghost var t := Cells(P);
    ghost var rows, cols := RowSums(t), ColumnSums(t, P.Length1);
    var m := P.Length0;
    px := new real[capacity];
    py := new real[capacity];
    var i := 0;
    while i < m
      invariant 0 <= i <= m
      invariant forall a :: 0 <= a < i ==> px[a] == rows[a] && py[a] == cols[a]
    {
      MarginalSums(P, i, px, py);
      i := i + 1;
    }
    assert px[..m] == rows;
    assert py[..m] == cols;
  }
  /** One pass of the outer marginal loop: Px[i] and Py[i] zeroed, then row i and
      column i of P summed into them left to right; no other entry changes. */
  method MarginalSums(P: array2<real>, i: int, px: array<real>, py: array<real>)
    requires P.Length0 == P.Length1 && 0 <= i < P.Length0 && i < px.Length && i < py.Length && px != py
    modifies px, py
    ensures px[i] == Sum(Cells(P)[i]) && py[i] == Sum(Column(Cells(P), P.Length1, i))
    ensures forall a :: 0 <= a < px.Length && a != i ==> px[a] == old(px[a])
    ensures forall a :: 0 <= a < py.Length && a != i ==> py[a] == old(py[a])
  {
    var m := P.Length0;
    ghost var t := Cells(P);
    ghost var row, col := t[i], Column(t, m, i);
    px[i] := 0.0;
    py[i] := 0.0;
    var j := 0;
    while j < m
      invariant 0 <= j <= m
      invariant forall a :: 0 <= a < px.Length && a != i ==> px[a] == old(px[a])
      invariant forall a :: 0 <= a < py.Length && a != i ==> py[a] == old(py[a])
      invariant px[i] == Sum(row[..j]) && py[i] == Sum(col[..j])
    {
      SumStep(row, j);
      SumStep(col, j);
      px[i] := px[i] + P[i, j];
      py[i] := py[i] + P[j, i];
      j := j + 1;
    }
    assert row[..m] == row && col[..m] == col;
  }


  // ---------------------------------------------------------------- sum and difference histograms

  /** Pxplusy is indexed by i + j, Pxminusy by |i - j|. */
  datatype Histogram = SumOfIndices | DifferenceOfIndices

  /** The bucket cell (i, j) falls into. */
  function Key(kind: Histogram, i: int, j: int): (r: int)
  {
    match kind
    case SumOfIndices => i + j
    case DifferenceOfIndices => if i >= j then i - j else j - i
  }

  /** The number of buckets zeroed: the loop runs k < m + n - 1. */
  function Buckets(m: nat, n: nat): (r: nat)
  {
    if m + n == 0 then 0 else m + n - 1
  }

  /** The cells of row i (columns j < |row|) that fall into bucket k, summed. */
  function RowBucket(row: seq<real>, i: int, kind: Histogram, k: int): (r: real)
  {
    if row == [] then 0.0
    else RowBucket(row[..|row| - 1], i, kind, k) + (if Key(kind, i, |row| - 1) == k then row[|row| - 1] else 0.0)
  }

  /** The cells of t that fall into bucket k, summed. */
  function Bucket(t: Table, kind: Histogram, k: int): (r: real)
  {
    if t == [] then 0.0 else Bucket(t[..|t| - 1], kind, k) + RowBucket(t[|t| - 1], |t| - 1, kind, k)
  }

  function RowHistogram(row: seq<real>, i: int, kind: Histogram, size: nat): (h: seq<real>)
  {
    seq(size, k => RowBucket(row, i, kind, k))
  }

  /** The histogram of t with the given number of buckets. */
  function HistogramOf(t: Table, kind: Histogram, size: nat): (h: seq<real>)
    ensures |h| == size
  {
    seq(size, k => Bucket(t, kind, k))
  }

  lemma {:induction false} RowHistogramSum(row: seq<real>, i: int, kind: Histogram, size: nat)
    requires forall j :: 0 <= j < |row| ==> 0 <= Key(kind, i, j) < size
    ensures Sum(RowHistogram(row, i, kind, size)) == Sum(row)
  {
    if row == [] {
      SumZeros(size);
      assert RowHistogram(row, i, kind, size) == Zeros(size);
    } else {
      var j := |row| - 1;
      var front := RowHistogram(row[..j], i, kind, size);
      var key := Key(kind, i, j);
      RowHistogramSum(row[..j], i, kind, size);
      assert RowHistogram(row, i, kind, size) == front[key := front[key] + row[j]];
      SumUpdate(front, key, row[j]);
    }
  }

  /** Each cell is added to exactly one bucket, so when every cell's bucket exists
      the histogram holds the whole mass. */
  lemma {:induction false} HistogramSum(t: Table, kind: Histogram, size: nat)
    requires forall i, j :: 0 <= i < |t| && 0 <= j < |t[i]| ==> 0 <= Key(kind, i, j) < size
    ensures Sum(HistogramOf(t, kind, size)) == Total(t)
  {
    if t == [] {
      SumZeros(size);
      assert HistogramOf(t, kind, size) == Zeros(size);
    } else {
      var k := |t| - 1;
      HistogramSum(t[..k], kind, size);
      RowHistogramSum(t[k], k, kind, size);
      SumPointwiseAdd(HistogramOf(t[..k], kind, size), RowHistogram(t[k], k, kind, size), HistogramOf(t, kind, size));
    }
  }

  /** Pxplusy and Pxminusy over the m + n - 1 zeroed buckets each sum to the total
      mass of an m x n matrix. */
  lemma HistogramsPartitionMass(t: Table, m: nat, n: nat)
    requires IsTable(t, m, n)
    ensures Sum(HistogramOf(t, SumOfIndices, Buckets(m, n))) == Total(t)
    ensures Sum(HistogramOf(t, DifferenceOfIndices, Buckets(m, n))) == Total(t)
  {
    HistogramSum(t, SumOfIndices, Buckets(m, n));
    HistogramSum(t, DifferenceOfIndices, Buckets(m, n));
  }

  lemma {:induction false} RowBucketEmpty(row: seq<real>, i: int, kind: Histogram, k: int)
    requires forall j :: 0 <= j < |row| ==> Key(kind, i, j) != k
    ensures RowBucket(row, i, kind, k) == 0.0
  {
    if row != [] {
      RowBucketEmpty(row[..|row| - 1], i, kind, k);
    }
  }

  lemma {:induction false} BucketEmpty(t: Table, kind: Histogram, k: int)
    requires forall i, j :: 0 <= i < |t| && 0 <= j < |t[i]| ==> Key(kind, i, j) != k
    ensures Bucket(t, kind, k) == 0.0
  {
    if t != [] {
      BucketEmpty(t[..|t| - 1], kind, k);
      RowBucketEmpty(t[|t| - 1], |t| - 1, kind, k);
    }
  }

  /** |i - j| never reaches max(m, n): the difference buckets from there on stay zero
      (for a square P, buckets max_gray .. 2 max_gray - 2). */
  lemma DifferenceBucketsBeyondRange(t: Table, m: nat, n: nat, k: int)
    requires IsTable(t, m, n) && k >= m && k >= n
    ensures Bucket(t, DifferenceOfIndices, k) == 0.0
  {
    BucketEmpty(t, DifferenceOfIndices, k);
  }

  lemma RowBucketStep(row: seq<real>, i: int, kind: Histogram, j: int)
    requires 0 <= j < |row|
    ensures forall q ::
      RowBucket(row[..j + 1], i, kind, q) == RowBucket(row[..j], i, kind, q) + (if Key(kind, i, j) == q then row[j] else 0.0)
  {
    assert row[..j + 1][..j] == row[..j];
  }

  lemma BucketStep(t: Table, i: int)
    requires 0 <= i < |t|
    ensures forall kind, q :: Bucket(t[..i + 1], kind, q) == Bucket(t[..i], kind, q) + RowBucket(t[i], i, kind, q)
  {
    assert t[..i + 1][..i] == t[..i];
  }

  /** The histogram loops: zero the first m + n - 1 slots of each scratch array,
      then add every cell P[i][j] to Pxplusy[i + j] and to Pxminusy[|i - j|]. */
  method SumDiffHistograms(P: array2<real>, capacity: nat) returns (plus: array<real>, minus: array<real>)
    requires Buckets(P.Length0, P.Length1) <= capacity
    ensures fresh(plus) && fresh(minus) && plus.Length == capacity && minus.Length == capacity
    ensures plus[..Buckets(P.Length0, P.Length1)] == HistogramOf(Cells(P), SumOfIndices, Buckets(P.Length0, P.Length1))
    ensures minus[..Buckets(P.Length0, P.Length1)] == HistogramOf(Cells(P), DifferenceOfIndices, Buckets(P.Length0, P.Length1))
  {
    var m, n := P.Length0, P.Length1;
    var size := Buckets(m, n);
    plus := new real[capacity];
    minus := new real[capacity];
    var k := 0;
    while k < m + n - 1
      invariant 0 <= k <= size
      invariant forall q :: 0 <= q < k ==> plus[q] == 0.0 && minus[q] == 0.0
    {
      plus[k] := 0.0;
      minus[k] := 0.0;
      k := k + 1;
    }
    AccumulateHistograms(P, plus, minus, size);
  }

  /** The loop body: cell (i, j) holding v goes to Pxplusy[i + j] and Pxminusy[|i - j|]. */
  method AddCell(plus: array<real>, minus: array<real>, size: nat, i: nat, j: nat, v: real)
    requires plus != minus && size <= plus.Length && size <= minus.Length && i + j < size
    modifies plus, minus
    ensures forall q :: 0 <= q < size ==>
      plus[q] == old(plus[q]) + (if Key(SumOfIndices, i, j) == q then v else 0.0) &&
      minus[q] == old(minus[q]) + (if Key(DifferenceOfIndices, i, j) == q then v else 0.0)
  {
    plus[i + j] := plus[i + j] + v;
    if i >= j {
      minus[i - j] := minus[i - j] + v;
    } else {
      minus[j - i] := minus[j - i] + v;
    }
  }

  /** The accumulation loops, on buckets already zeroed. */
  method AccumulateHistograms(P: array2<real>, plus: array<real>, minus: array<real>, size: nat)
    requires plus != minus && size == Buckets(P.Length0, P.Length1)
    requires size <= plus.Length && size <= minus.Length
    requires forall q :: 0 <= q < size ==> plus[q] == 0.0 && minus[q] == 0.0
    modifies plus, minus
    ensures plus[..size] == HistogramOf(Cells(P), SumOfIndices, size)
    ensures minus[..size] == HistogramOf(Cells(P), DifferenceOfIndices, size)
  {
    ghost var t := Cells(P);
    var m, n := P.Length0, P.Length1;
    var i := 0;
    while i < m
      invariant 0 <= i <= m
      invariant forall q :: 0 <= q < size ==>
        plus[q] == Bucket(t[..i], SumOfIndices, q) && minus[q] == Bucket(t[..i], DifferenceOfIndices, q)
    {
      ghost var row := t[i];
      ghost var sums, diffs := HistogramOf(t[..i], SumOfIndices, size), HistogramOf(t[..i], DifferenceOfIndices, size);
      var j := 0;
      while j < n
        invariant 0 <= j <= n
        invariant forall q :: 0 <= q < size ==>
          plus[q] == sums[q] + RowBucket(row[..j], i, SumOfIndices, q) &&
          minus[q] == diffs[q] + RowBucket(row[..j], i, DifferenceOfIndices, q)
      {
        RowBucketStep(row, i, SumOfIndices, j);
        RowBucketStep(row, i, DifferenceOfIndices, j);
        AddCell(plus, minus, size, i, j, P[i, j]);
        j := j + 1;
      }
      BucketStep(t, i);
      assert row[..n] == row;
      i := i + 1;
    }
    assert t[..m] == t;
  }

  // ---------------------------------------------------------------- the whole front half

  /** Scratch arrays of these sizes hold the marginals and histograms of a
      max_gray x max_gray matrix. */
  predicate ScratchFits(maxGray: nat, marginCapacity: nat, histogramCapacity: nat)
  {
    maxGray <= marginCapacity && Buckets(maxGray, maxGray) <= histogramCapacity
  }

  /** The library's Px[17000], Pxplusy[33000] fit max_gray <= 16500; the
      program's Px[1024], Pxplusy[2048] fit max_gray <= 1024. */
  lemma ScratchLimits(maxGray: nat)
    ensures ScratchFits(maxGray, 17000, 33000) <==> maxGray <= 16500
    ensures ScratchFits(maxGray, 1024, 2048) <==> maxGray <= 1024
  {
  }

  /** Normalise P, then compute its marginals and histograms: P sums to 1 and so
      does each of Px, Py, Pxplusy and Pxminusy. */
  method NormaliseAndAggregate(P: array2<real>, marginCapacity: nat, histogramCapacity: nat)
    returns (N: real, px: array<real>, py: array<real>, plus: array<real>, minus: array<real>)
    requires P.Length0 == P.Length1 && ScratchFits(P.Length0, marginCapacity, histogramCapacity)
    requires Total(Cells(P)) != 0.0
    modifies P
    ensures N == Total(old(Cells(P)))
    ensures forall i, j :: 0 <= i < P.Length0 && 0 <= j < P.Length1 ==> P[i, j] == old(P[i, j]) / N
    ensures fresh(px) && fresh(py) && px.Length == py.Length == marginCapacity
    ensures fresh(plus) && fresh(minus) && plus.Length == minus.Length == histogramCapacity
    ensures px[..P.Length0] == RowSums(Cells(P)) && py[..P.Length0] == ColumnSums(Cells(P), P.Length1)
    ensures plus[..Buckets(P.Length0, P.Length1)] == HistogramOf(Cells(P), SumOfIndices, Buckets(P.Length0, P.Length1))
    ensures minus[..Buckets(P.Length0, P.Length1)] == HistogramOf(Cells(P), DifferenceOfIndices, Buckets(P.Length0, P.Length1))
    ensures Sum(px[..P.Length0]) == 1.0 && Sum(py[..P.Length0]) == 1.0
    ensures Sum(plus[..Buckets(P.Length0, P.Length1)]) == 1.0 && Sum(minus[..Buckets(P.Length0, P.Length1)]) == 1.0
  {
    N := Normalise(P);
    px, py := Marginals(P, marginCapacity);
    plus, minus := SumDiffHistograms(P, histogramCapacity);
    RowSumsTotal(Cells(P));
    ColumnSumsTotal(Cells(P), P.Length0, P.Length1);
    HistogramsPartitionMass(Cells(P), P.Length0, P.Length1);
  }
}
