/** Octave down-sampling of the SIFT pipeline: down_sample_pic keeps every
    2^o-th sample of every 2^o-th row, and calculate_keypoints copies the
    image into a scratch record before down-sampling back into the caller's. */
module Sift {
  import opened Numeric
  import opened Pgm

  /** Row i of octave o reads row p * i of the input, p = 2^o, and p * i stays
      at least p below n whenever i < n / p. */
  lemma SampleInRange(n: int, p: int, i: int)
    requires n >= 0 && p > 0 && 0 <= i < n / p
    ensures 0 <= p * i <= n - p
  {
    MulMonotone(i, n / p - 1, p);
    assert p * (n / p - 1) == p * (n / p) - p;
  }

  /** The picture of octave o: entry (i, j) is input entry (2^o i, 2^o j), for
      i < width / 2^o and j < height / 2^o. */
  ghost function Downsample(g: Matrix, width: int, height: int, o: nat): (d: Matrix)
    requires width >= 0 && height >= 0 && IsMatrix(g, width, height)
    ensures 0 <= width / Pow2(o) <= width && 0 <= height / Pow2(o) <= height
    ensures IsMatrix(d, width / Pow2(o), height / Pow2(o))
  {
    var p := Pow2(o);
    DivBounds(width, p);
    DivBounds(height, p);
    seq(width / p, i requires 0 <= i < width / p => SampledRow(g, width, height, p, i))
  }

  /** Row i of the down-sampled picture: every p-th sample of input row p * i. */
  ghost function SampledRow(g: Matrix, width: int, height: int, p: int, i: int): (r: seq<int>)
    requires width >= 0 && height >= 0 && IsMatrix(g, width, height) && p > 0 && 0 <= i < width / p
    ensures |r| == height / p
  {
    SampleInRange(width, p, i);
    var row := g[p * i];
    DivBounds(height, p);
    seq(height / p, j requires 0 <= j < height / p => SampleInRange(height, p, j); row[p * j])
  }

  /** Octave 0 is the picture itself. */
  lemma DownsampleIdentity(g: Matrix, width: int, height: int)
    requires width >= 0 && height >= 0 && IsMatrix(g, width, height)
    ensures Downsample(g, width, height, 0) == g
  {
    var d := Downsample(g, width, height, 0);
    forall i | 0 <= i < width
      ensures d[i] == g[i]
    {
      assert forall j :: 0 <= j < height ==> d[i][j] == g[i][j];
    }
  }

  lemma MulAssociates(a: int, b: int, c: int)
    ensures a * (b * c) == (a * b) * c
  {
  }

  /** Down-sampling by octave a and then by octave b is down-sampling by a + b:
      the dimensions agree (floor division composes) and so do the samples. */
  lemma DownsampleCompose(g: Matrix, width: int, height: int, a: nat, b: nat)
    requires width >= 0 && height >= 0 && IsMatrix(g, width, height)
    ensures Downsample(Downsample(g, width, height, a), width / Pow2(a), height / Pow2(a), b)
         == Downsample(g, width, height, a + b)
  {
    var pa, pb := Pow2(a), Pow2(b);
    Pow2Add(a, b);
    DivBounds(width, pa);
    DivBounds(height, pa);
    DivDivide(width, pa, pb);
    DivDivide(height, pa, pb);
    var d1 := Downsample(g, width, height, a);
    var d2 := Downsample(d1, width / pa, height / pa, b);
    var d := Downsample(g, width, height, a + b);
    assert |d2| == |d|;
    forall i | 0 <= i < |d|
      ensures d2[i] == d[i]
    {
      forall j | 0 <= j < |d[i]|
        ensures d2[i][j] == d[i][j]
      {
        SampleInRange(width / pa, pb, i);
        SampleInRange(height / pa, pb, j);
        assert d2[i][j] == d1[pb * i][pb * j];
        MulAssociates(pa, pb, i);
        MulAssociates(pa, pb, j);
      }
    }
  }

  /** down_sample_pic: down's dimensions become width / 2^o and height / 2^o
      (the double quotient truncated to int, which for non-negative operands is
      floor division), max_gray is copied, and down's buffer receives octave o.
      down's buffer must hold the down-sampled window. */
  method DownSample(data: Image, o: nat, down: Image)
    requires data.Valid() && down.Valid() && !data.released && !down.released
    requires down != data && down.pixels != data.pixels
    requires data.width / Pow2(o) <= down.pixels.Length0 && data.height / Pow2(o) <= down.pixels.Length1
    modifies down, down.pixels
    ensures down.pixels == old(down.pixels) && !down.released && down.Valid()
    ensures down.width == data.width / Pow2(o) && down.height == data.height / Pow2(o)
    ensures down.maxGray == data.maxGray
    ensures forall i, j :: 0 <= i < down.width && 0 <= j < down.height ==>
      down.pixels[i, j] == Downsample(data.Grid(), data.width, data.height, o)[i][j]
  {
    var w, h := data.width / Pow2(o), data.height / Pow2(o);
    DivBounds(data.width, Pow2(o));
    DivBounds(data.height, Pow2(o));
    down.width := w;
    down.height := h;
    down.maxGray := data.maxGray;
    SampleOctave(data.pixels, data.Grid(), data.width, data.height, o, down.pixels);
  }

  /** The two loops of down_sample_pic: dst[i][j] := src[2^o i][2^o j] over the
      down-sampled window, leaving the rest of dst as it was. */
  method SampleOctave(src: array2<int>, ghost g: Matrix, width: int, height: int, o: nat, dst: array2<int>)
    requires Holds(src, g, width, height) && src != dst
    requires width / Pow2(o) <= dst.Length0 && height / Pow2(o) <= dst.Length1
    modifies dst
    ensures forall i, j :: 0 <= i < width / Pow2(o) && 0 <= j < height / Pow2(o) ==>
      dst[i, j] == Downsample(g, width, height, o)[i][j]
  {
    ghost var expected := Downsample(g, width, height, o);
    var w, h := width / Pow2(o), height / Pow2(o);
    var i := 0;
    while i < w
      invariant 0 <= i <= w
      invariant forall a, b :: 0 <= a < i && 0 <= b < h ==> dst[a, b] == expected[a][b]
    {
      var j := 0;
      while j < h
        invariant 0 <= j <= h
        invariant forall a, b :: 0 <= a < i && 0 <= b < h ==> dst[a, b] == expected[a][b]
        invariant forall b :: 0 <= b < j ==> dst[i, b] == expected[i][b]
      {
        var x := Pow2(o);
        SampleInRange(width, x, i);
        SampleInRange(height, x, j);
        dst[i, j] := src[x * i, x * j];
        j := j + 1;
      }
      i := i + 1;
    }
  }

  /** A cell of the width x height picture. */
  predicate InImage(width: int, height: int, i: int, j: int)
  {
    0 <= i < width && 0 <= j < height
  }

  /** A cell the copy loop of calculate_keypoints visits: both indices run below width. */
  predicate VisitedAsWritten(width: int, i: int, j: int)
  {
    0 <= i < width && 0 <= j < width
  }

  /** The loop visits exactly the picture's cells iff the picture is square
      (or has no rows): a taller picture loses columns width..height-1, a wider
      one is indexed past the end of each row. */
  lemma CopyLoopCoversImageIffSquare(width: int, height: int)
    requires width >= 0 && height >= 0
    ensures (forall i, j :: InImage(width, height, i, j) <==> VisitedAsWritten(width, i, j))
        <==> (width == height || width == 0)
  {
    if width != height && width != 0 {
      if width < height {
        assert InImage(width, height, 0, width) && !VisitedAsWritten(width, 0, width);
      } else {
        assert !InImage(width, height, 0, height) && VisitedAsWritten(width, 0, height);
      }
    }
  }

  /** The copy loop as written, in the setting where it stays inside both
      buffers (width <= height): cells with both indices below width are copied
      and every other cell of dst keeps its value. */
  method CopyPixelsAsWritten(src: array2<int>, dst: array2<int>, width: int, height: int)
    requires src != dst && 0 <= width <= height
    requires height <= src.Length1 && height <= dst.Length1 && width <= src.Length0 && width <= dst.Length0
    modifies dst
    ensures forall i, j :: 0 <= i < dst.Length0 && 0 <= j < dst.Length1 ==>
      dst[i, j] == if VisitedAsWritten(width, i, j) then src[i, j] else old(dst[i, j])
  {
    var i := 0;
    while i < width
      invariant 0 <= i <= width
      invariant forall a, b :: 0 <= a < dst.Length0 && 0 <= b < dst.Length1 ==>
        dst[a, b] == if a < i && VisitedAsWritten(width, a, b) then src[a, b] else old(dst[a, b])
    {
      var j := 0;
      while j < width
        invariant 0 <= j <= width
        invariant forall a, b :: 0 <= a < dst.Length0 && 0 <= b < dst.Length1 ==>
          dst[a, b] == if (a < i || (a == i && b < j)) && VisitedAsWritten(width, a, b) then src[a, b] else old(dst[a, b])
      {
        dst[i, j] := src[i, j];
        j := j + 1;
      }
      i := i + 1;
    }
  }

  /** The copy loop with the second index running below height: every cell of
      the width x height picture is copied and every other cell of dst keeps its value. */
  method CopyPixels(src: array2<int>, dst: array2<int>, width: int, height: int)
    requires src != dst && 0 <= width && 0 <= height
    requires width <= src.Length0 && width <= dst.Length0 && height <= src.Length1 && height <= dst.Length1
    modifies dst
    ensures forall i, j :: 0 <= i < dst.Length0 && 0 <= j < dst.Length1 ==>
      dst[i, j] == if InImage(width, height, i, j) then src[i, j] else old(dst[i, j])
  {
    var i := 0;
    while i < width
      invariant 0 <= i <= width
      invariant forall a, b :: 0 <= a < dst.Length0 && 0 <= b < dst.Length1 ==>
        dst[a, b] == if a < i && InImage(width, height, a, b) then src[a, b] else old(dst[a, b])
    {
      var j := 0;
      while j < height
        invariant 0 <= j <= height
        invariant forall a, b :: 0 <= a < dst.Length0 && 0 <= b < dst.Length1 ==>
          dst[a, b] == if (a < i || (a == i && b < j)) && InImage(width, height, a, b) then src[a, b] else old(dst[a, b])
      {
        dst[i, j] := src[i, j];
        j := j + 1;
      }
      i := i + 1;
    }
  }

  /** The octave step at the head of calculate_keypoints, with the copy loop
      corrected: for o != 0 the picture is copied into a fresh scratch record and
      down-sampled back into the caller's record and buffer; octave 0 leaves it
      as it is. Either way the caller's record ends up holding octave o of its
      old picture. */
  method DownsampleOctave(data: Image, o: nat)
    requires data.Valid() && !data.released
    modifies data, data.pixels
    ensures data.pixels == old(data.pixels) && data.Valid() && !data.released
    ensures data.width == old(data.width) / Pow2(o) && data.height == old(data.height) / Pow2(o)
    ensures data.maxGray == old(data.maxGray)
    ensures forall i, j :: 0 <= i < data.width && 0 <= j < data.height ==>
      data.pixels[i, j] == Downsample(old(data.Grid()), old(data.width), old(data.height), o)[i][j]
  {
    ghost var g := data.Grid();
    if o != 0 {
      var temp := new Image(data.width, data.height, data.maxGray);
      CopyPixels(data.pixels, temp.pixels, data.width, data.height);
      assert temp.Grid() == g by {
        var t := temp.Grid();
        forall x | 0 <= x < data.width
          ensures t[x] == g[x]
        {
          assert forall y :: 0 <= y < data.height ==> t[x][y] == g[x][y];
        }
      }
      DivBounds(data.width, Pow2(o));
      DivBounds(data.height, Pow2(o));
      DownSample(temp, o, data);
    } else {
      DownsampleIdentity(g, data.width, data.height);
    }
  }
}
