/** The PGM image record and its integer utilities: the byte split UP8/LO8,
    the binary (P5) pixel payload writer and reader, the order of the header
    fields, and the in-place gray-level rescaling normalisePGM.

    The record's `width` is the number of rows (first index) and `height` the
    number of samples in each row (second index), as the C struct has them. */
module Pgm {
  import opened Numeric

  /** An intensity matrix as a value: m[x][y] for x < width, y < height. */
  type Matrix = seq<seq<int>>

  ghost predicate IsMatrix(m: Matrix, width: int, height: int)
  {
    |m| == width && forall x :: 0 <= x < width ==> |m[x]| == height
  }

  /** The pixel buffer `pixels` holds the image g in its width x height window. */
  ghost predicate Holds(pixels: array2<int>, g: Matrix, width: int, height: int)
    reads pixels
  {
    0 <= width <= pixels.Length0 && 0 <= height <= pixels.Length1 && IsMatrix(g, width, height)
    && forall x, y :: 0 <= x < width && 0 <= y < height ==> pixels[x, y] == g[x][y]
  }

  /** PGMData: the pixel buffer may be larger than width x height (callers reuse
      buffers); only the width x height window is the image. `released` is set
      once the pixel buffer has been freed, after which the image may not be used. */
  class Image {
    var width: int
    var height: int
    var maxGray: int
    var pixels: array2<int>
    var released: bool

    ghost predicate Valid()
      reads this
    {
      0 <= width <= pixels.Length0 && 0 <= height <= pixels.Length1
    }

    /** The image as a value. */
    ghost function Grid(): (m: Matrix)
      reads this, pixels
      requires Valid()
      ensures IsMatrix(m, width, height)
      ensures forall x, y :: 0 <= x < width && 0 <= y < height ==> m[x][y] == pixels[x, y]
    {
      var a, h := pixels, height;
      seq(width, x requires 0 <= x < a.Length0 reads a =>
        seq(h, y requires 0 <= y < a.Length1 reads a => a[x, y]))
    }

    constructor (w: nat, h: nat, g: int)
      ensures Valid() && !released
      ensures width == w && height == h && maxGray == g
      ensures fresh(pixels) && pixels.Length0 == w && pixels.Length1 == h
    {
      width, height, maxGray := w, h, g;
      pixels := new int[w, h];
      released := false;
    }

    /** normalisePGM: rescale every pixel to the new maximum gray value in place,
        multiplying by `value / max_gray` when the range grows and dividing by
        `max_gray / value` otherwise; then max_gray becomes value. */
    method Normalise(value: int)
      requires Valid() && !released
      requires maxGray > 0 && value > 0
      modifies this, pixels
      ensures Valid() && !released
      ensures pixels == old(pixels) && width == old(width) && height == old(height)
      ensures maxGray == value
      ensures forall x, y :: 0 <= x < width && 0 <= y < height ==>
        pixels[x, y] == Rescale(old(pixels[x, y]), old(maxGray), value)
      ensures forall x, y :: 0 <= x < pixels.Length0 && 0 <= y < pixels.Length1 && !(x < width && y < height) ==>
        pixels[x, y] == old(pixels[x, y])
    {
      var a, w, h := pixels, width, height;
      var i := 0;
      if value > maxGray {
        var f := value / maxGray;
        while i < w
          modifies a
          invariant 0 <= i <= w
          invariant forall x, y :: 0 <= x < a.Length0 && 0 <= y < a.Length1 ==>
            a[x, y] == if x < i && y < h then old(a[x, y]) * f else old(a[x, y])
        {
          var j := 0;
          while j < h
            modifies a
            invariant 0 <= j <= h
            invariant forall x, y :: 0 <= x < a.Length0 && 0 <= y < a.Length1 ==>
              a[x, y] == if (x < i && y < h) || (x == i && y < j) then old(a[x, y]) * f else old(a[x, y])
          {
            a[i, j] := a[i, j] * f;
            j := j + 1;
          }
          i := i + 1;
        }
      } else {
        var d := maxGray / value;
        assert d >= 1;
        while i < w
          modifies a
          invariant 0 <= i <= w
          invariant forall x, y :: 0 <= x < a.Length0 && 0 <= y < a.Length1 ==>
            a[x, y] == if x < i && y < h then TruncDiv(old(a[x, y]), d) else old(a[x, y])
        {
          var j := 0;
          while j < h
            modifies a
            invariant 0 <= j <= h
            invariant forall x, y :: 0 <= x < a.Length0 && 0 <= y < a.Length1 ==>
              a[x, y] == if (x < i && y < h) || (x == i && y < j) then TruncDiv(old(a[x, y]), d) else old(a[x, y])
          {
            a[i, j] := TruncDiv(a[i, j], d);
            j := j + 1;
          }
          i := i + 1;
        }
      }
      maxGray := value;
    }
  }

  /** The value normalisePGM gives a pixel p when max_gray changes from oldMax to
      value: an integer factor value / oldMax when the range grows, an integer
      divisor oldMax / value when it shrinks. The sign of p is kept, growing the
      range never moves p toward zero and shrinking it never moves p away from zero. */
  function Rescale(p: int, oldMax: int, value: int): (r: int)
    requires oldMax > 0 && value > 0
    ensures p >= 0 ==> r >= 0
    ensures p <= 0 ==> r <= 0
    ensures value >= oldMax ==> (p >= 0 ==> r >= p) && (p <= 0 ==> r <= p)
    ensures value <= oldMax ==> (p >= 0 ==> r <= p) && (p <= 0 ==> r >= p)
  {
    if value > oldMax then
      DivMonotone(oldMax, value, oldMax);
      ScaleAway(p, value / oldMax);
      p * (value / oldMax)
    else
      ShrinkDivisor(oldMax, value);
      TruncDivToward(p, oldMax / value);
      TruncDivByOne(p);
      TruncDiv(p, oldMax / value)
  }

  lemma RescaleSameMax(p: int, m: int)
    requires m > 0
    ensures Rescale(p, m, m) == p
  {
    TruncDivByOne(p);
  }

  /** Rescaling keeps the (non-strict) order of pixels. */
  lemma RescaleMonotone(p: int, q: int, oldMax: int, value: int)
    requires oldMax > 0 && value > 0 && p <= q
    ensures Rescale(p, oldMax, value) <= Rescale(q, oldMax, value)
  {
    if value > oldMax {
      MulMonotone(p, q, value / oldMax);
    } else {
      TruncDivMonotone(p, q, oldMax / value);
    }
  }

  /** Growing the range keeps a pixel in [0, oldMax] inside [0, value]. */
  lemma RescaleUpInRange(p: int, oldMax: int, value: int)
    requires 0 < oldMax < value && 0 <= p <= oldMax
    ensures 0 <= Rescale(p, oldMax, value) <= value
  {
    var f := value / oldMax;
    MulMonotone(p, oldMax, f);
    assert oldMax * f <= value;
  }

  /** Shrinking the range: a pixel in [0, oldMax] ends below 2 * value, and at most
      value when value divides oldMax. The integer divisor oldMax / value can be
      smaller than the exact ratio, so the bound value itself can be exceeded. */
  lemma RescaleDownBound(p: int, oldMax: int, value: int)
    requires 0 < value <= oldMax && 0 <= p <= oldMax
    ensures 0 <= Rescale(p, oldMax, value) < 2 * value
    ensures oldMax % value == 0 ==> Rescale(p, oldMax, value) <= value
  {
    var d := oldMax / value;
    ShrinkDivisor(oldMax, value);
    assert Rescale(p, oldMax, value) == p / d;
    DivBounds(p, d);
    DivMonotone(p, oldMax, d);
    QuotientBelow(oldMax, d, 2 * value - 1);
    if oldMax % value == 0 {
      QuotientBelow(oldMax, d, value);
    }
  }

  /** The divisor d = oldMax / value of a shrinking rescale is at least 1, and
      oldMax stays below d * 2 value, and below d * (value + 1) when value divides oldMax. */
  lemma ShrinkDivisor(oldMax: int, value: int)
    requires 0 < value <= oldMax
    ensures oldMax / value >= 1
    ensures oldMax < (oldMax / value) * (2 * value)
    ensures oldMax % value == 0 ==> oldMax < (oldMax / value) * (value + 1)
  {
    var d := oldMax / value;
    var r := oldMax % value;
    assert oldMax == value * d + r && 0 <= r < value;
    if d <= 0 {
      MulMonotone(d, 0, value);
      assert false;
    }
    assert d * (2 * value) == value * d + value * d;
    MulMonotone(1, d, value);
    assert d * (value + 1) == value * d + d;
  }

  /** a < d * (c + 1) implies a / d <= c. */
  lemma QuotientBelow(a: int, d: int, c: int)
    requires a >= 0 && d > 0 && a < d * (c + 1)
    ensures a / d <= c
  {
    if a / d > c {
      MulMonotone(c + 1, a / d, d);
      assert false;
    }
  }

  /** With max_gray 255 rescaled to 100, the divisor is 2 and the brightest pixel
      lands on 127, above the new maximum gray value. */
  lemma RescaleDownExceedsNewMax()
    ensures Rescale(255, 255, 100) == 127
  {
  }

  /** The stand-alone converter rescales to max_gray 63 before writing P5: every
      pixel of [0, max_gray] lands in [0, 126), so the one-byte branch is taken
      and each sample is written and read back exactly. */
  lemma RescaleTo63FitsOneByte(p: int, oldMax: int)
    requires oldMax > 0 && 0 <= p <= oldMax
    ensures BytesPerSample(63) == 1
    ensures 0 <= Rescale(p, oldMax, 63) < 126 < SampleModulus(63)
  {
    if 63 > oldMax {
      RescaleUpInRange(p, oldMax, 63);
    } else {
      RescaleDownBound(p, oldMax, 63);
    }
  }

  // ---------------------------------------------------------------- UP8 / LO8

  /** UP8(num) = (num & 0xFF00) >> 8; on a two's-complement int this is bits 8..15. */
  function Up8(v: int): (r: int)
    ensures 0 <= r < 256
  {
    (v % 0x1_0000) / 0x100
  }

  /** LO8(num) = num & 0xFF: bits 0..7. */
  function Lo8(v: int): (r: int)
    ensures 0 <= r < 256
  {
    v % 0x100
  }

  /** (UP8(v) << 8) + LO8(v) recovers the low 16 bits of v, so v itself when 0 <= v < 65536. */
  lemma Up8Lo8Join(v: int)
    ensures Up8(v) * 256 + Lo8(v) == v % 0x1_0000
    ensures 0 <= v < 0x1_0000 ==> Up8(v) * 256 + Lo8(v) == v
  {
    var x := v % 0x1_0000;
    var q := v / 0x1_0000;
    assert v == 0x1_0000 * q + x;
    assert x == 256 * (x / 256) + x % 256;
    DivModUnique(v, 256, 256 * q + x / 256, x % 256);
    if 0 <= v < 0x1_0000 {
      DivModUnique(v, 0x1_0000, 0, v);
    }
  }

  // ---------------------------------------------------------------- P5 payload

  /** Bytes per sample in a P5 payload: two when max_gray > 255, else one. */
  function BytesPerSample(maxGray: int): (r: nat)
  {
    if maxGray > 255 then 2 else 1
  }

  /** The sample values a P5 payload can carry for this max_gray. */
  function SampleModulus(maxGray: int): (r: nat)
  {
    if maxGray > 255 then 0x1_0000 else 0x100
  }

  /** writePGM's bytes for one pixel: (UP8, LO8), most significant first, when
      max_gray > 255, otherwise LO8 alone. */
  function SampleBytes(v: int, maxGray: int): (bs: seq<int>)
    ensures |bs| == BytesPerSample(maxGray)
    ensures forall k :: 0 <= k < |bs| ==> 0 <= bs[k] < 256
  {
    if maxGray > 255 then [Up8(v), Lo8(v)] else [Lo8(v)]
  }

  /** Number of payload bytes that n samples take. */
  function ByteCount(maxGray: int, n: int): (r: int)
  {
    if maxGray > 255 then 2 * n else n
  }

  /** Every element is a byte value, as fputc writes. */
  predicate IsBytes(bs: seq<int>)
  {
    forall k :: 0 <= k < |bs| ==> 0 <= bs[k] < 256
  }

  /** The bytes of one row, in column order. */
  function EncodeRow(row: seq<int>, maxGray: int): (bs: seq<int>)
    ensures |bs| == ByteCount(maxGray, |row|)
  {
    if row == [] then []
    else EncodeRow(row[..|row| - 1], maxGray) + SampleBytes(row[|row| - 1], maxGray)
  }

  lemma {:induction false} EncodeRowBytes(row: seq<int>, maxGray: int)
    ensures IsBytes(EncodeRow(row, maxGray))
  {
    if row != [] {
      EncodeRowBytes(row[..|row| - 1], maxGray);
    }
  }

  /** The P5 payload writePGM emits: the rows in order. */
  function EncodePayload(m: Matrix, maxGray: int): (bs: seq<int>)
  {
    if m == [] then []
    else EncodePayload(m[..|m| - 1], maxGray) + EncodeRow(m[|m| - 1], maxGray)
  }

  /** Every element of the payload is a byte, whatever the pixel values are. */
  lemma {:induction false} EncodePayloadBytes(m: Matrix, maxGray: int)
    ensures IsBytes(EncodePayload(m, maxGray))
  {
    if m != [] {
      EncodePayloadBytes(m[..|m| - 1], maxGray);
      EncodeRowBytes(m[|m| - 1], maxGray);
    }
  }

  /** fgetc on the payload stream: the byte at position p, or EOF (-1) past its end. */
  function ReadByte(stream: seq<int>, p: int): (r: int)
  {
    if 0 <= p < |stream| then stream[p] else -1
  }

  /** The value readPGM assigns to the q-th pixel (row-major): (upper << 8) + lower
      from two bytes when max_gray > 255, otherwise the single byte. */
  function DecodeSample(stream: seq<int>, q: int, maxGray: int): (v: int)
  {
    if maxGray > 255 then ReadByte(stream, 2 * q) * 256 + ReadByte(stream, 2 * q + 1)
    else ReadByte(stream, q)
  }

  /** A sample wholly inside a byte stream lies in [0, SampleModulus); one past
      the stream's end reads EOF and comes out negative. */
  lemma DecodeSampleRange(stream: seq<int>, q: int, maxGray: int)
    ensures IsBytes(stream) && 0 <= q && ByteCount(maxGray, q + 1) <= |stream| ==>
      0 <= DecodeSample(stream, q, maxGray) < SampleModulus(maxGray)
    ensures 0 <= q && |stream| <= ByteCount(maxGray, q) ==> DecodeSample(stream, q, maxGray) < 0
  {
  }

  /** The width x height matrix readPGM fills from a P5 payload. */
  function DecodePayload(stream: seq<int>, width: nat, height: nat, maxGray: int): (m: Matrix)
    ensures IsMatrix(m, width, height)
  {
    seq(width, x => seq(height, y => DecodeSample(stream, x * height + y, maxGray)))
  }

  lemma {:induction false} EncodeRowAt(row: seq<int>, maxGray: int, j: nat, t: nat)
    requires j < |row| && t < BytesPerSample(maxGray)
    ensures ByteCount(maxGray, j) + t < |EncodeRow(row, maxGray)|
    ensures EncodeRow(row, maxGray)[ByteCount(maxGray, j) + t] == SampleBytes(row[j], maxGray)[t]
  {
    var n := |row| - 1;
    if j < n {
      EncodeRowAt(row[..n], maxGray, j, t);
      assert row[..n][j] == row[j];
    }
  }

  lemma MulSucc(n: int, h: int)
    ensures (n + 1) * h == n * h + h
  {
  }

  lemma {:induction false} EncodePayloadLength(m: Matrix, height: nat, maxGray: int)
    requires IsMatrix(m, |m|, height)
    ensures |EncodePayload(m, maxGray)| == ByteCount(maxGray, |m| * height)
  {
    if m != [] {
      var n := |m| - 1;
      assert IsMatrix(m[..n], n, height);
      EncodePayloadLength(m[..n], height, maxGray);
      assert |EncodeRow(m[n], maxGray)| == ByteCount(maxGray, height);
      MulSucc(n, height);
    }
  }

  lemma {:induction false} EncodePayloadAt(m: Matrix, height: nat, maxGray: int, i: nat, j: nat, t: nat)
    requires IsMatrix(m, |m|, height)
    requires i < |m| && j < height && t < BytesPerSample(maxGray)
    ensures ByteCount(maxGray, i * height + j) + t < |EncodePayload(m, maxGray)|
    ensures EncodePayload(m, maxGray)[ByteCount(maxGray, i * height + j) + t] == SampleBytes(m[i][j], maxGray)[t]
  {
    var n := |m| - 1;
    var pre := m[..n];
    assert IsMatrix(pre, n, height);
    EncodePayloadLength(pre, height, maxGray);
    EncodeRowAt(m[n], maxGray, j, t);
    if i < n {
      EncodePayloadAt(pre, height, maxGray, i, j, t);
      RowIndexBound(i, j, n, height);
      assert pre[i] == m[i];
    }
  }

  /** A row-major index stays below the cell count of the rows before row n. */
  lemma RowIndexBound(i: nat, j: nat, n: nat, h: nat)
    requires i < n && j < h
    ensures i * h + j < n * h
  {
    MulSucc(i, h);
    MulMonotone(i + 1, n, h);
  }

  /** Reading back what writePGM wrote gives every pixel modulo 2^16 (two-byte
      samples) or 2^8 (one-byte samples). */
  lemma DecodeEncode(m: Matrix, width: nat, height: nat, maxGray: int)
    requires IsMatrix(m, width, height)
    ensures forall x, y :: 0 <= x < width && 0 <= y < height ==>
      DecodePayload(EncodePayload(m, maxGray), width, height, maxGray)[x][y] == m[x][y] % SampleModulus(maxGray)
  {
    var bs := EncodePayload(m, maxGray);
    var d := DecodePayload(bs, width, height, maxGray);
    forall x, y | 0 <= x < width && 0 <= y < height
      ensures d[x][y] == m[x][y] % SampleModulus(maxGray)
    {
      assert d[x][y] == DecodeSample(bs, x * height + y, maxGray);
      DecodeEncodeAt(m, width, height, maxGray, x, y);
    }
  }

  lemma DecodeEncodeAt(m: Matrix, width: nat, height: nat, maxGray: int, x: nat, y: nat)
    requires IsMatrix(m, width, height) && x < width && y < height
    ensures DecodeSample(EncodePayload(m, maxGray), x * height + y, maxGray) == m[x][y] % SampleModulus(maxGray)
  {
    EncodePayloadAt(m, height, maxGray, x, y, 0);
    if maxGray > 255 {
      EncodePayloadAt(m, height, maxGray, x, y, 1);
      Up8Lo8Join(m[x][y]);
    }
  }

  /** Round trip: for pixels a P5 sample can hold, decoding the encoding is the identity. */
  lemma DecodeEncodeIdentity(m: Matrix, width: nat, height: nat, maxGray: int)
    requires IsMatrix(m, width, height)
    requires forall x, y :: 0 <= x < width && 0 <= y < height ==> 0 <= m[x][y] < SampleModulus(maxGray)
    ensures DecodePayload(EncodePayload(m, maxGray), width, height, maxGray) == m
  {
    DecodeEncode(m, width, height, maxGray);
    var d := DecodePayload(EncodePayload(m, maxGray), width, height, maxGray);
    forall x | 0 <= x < width ensures d[x] == m[x] {
      assert forall y :: 0 <= y < height ==> d[x][y] == m[x][y];
    }
  }

  /** writePGM's P5 payload loops: row by row, sample by sample, two bytes per
      sample when max_gray > 255 and one otherwise (max_gray is fixed, so testing
      it once per row is testing it once). */
  method WriteP5Payload(img: Image) returns (bytes: seq<int>)
    requires img.Valid() && !img.released
    ensures bytes == EncodePayload(img.Grid(), img.maxGray)
  {
    ghost var m := img.Grid();
    bytes := [];
    var i := 0;
    while i < img.width
      invariant 0 <= i <= img.width
      invariant bytes == EncodePayload(m[..i], img.maxGray)
    {
      var row;
      if img.maxGray > 255 {
        row := WriteWideRow(img, i);
      } else {
        row := WriteNarrowRow(img, i);
      }
      EncodePayloadSnoc(m, i, img.maxGray);
      bytes := bytes + row;
      i := i + 1;
    }
    assert m[..i] == m;
  }

  /** The payload of the first i + 1 rows is that of the first i rows followed by row i. */
  lemma EncodePayloadSnoc(m: Matrix, i: nat, maxGray: int)
    requires i < |m|
    ensures EncodePayload(m[..i + 1], maxGray) == EncodePayload(m[..i], maxGray) + EncodeRow(m[i], maxGray)
  {
    assert m[..i + 1][..i] == m[..i];
  }

  /** The inner loop of the two-byte branch: UP8 then LO8 of each pixel of row i. */
  method WriteWideRow(img: Image, i: int) returns (bytes: seq<int>)
    requires img.Valid() && !img.released && img.maxGray > 255 && 0 <= i < img.width
    ensures bytes == EncodeRow(img.Grid()[i], img.maxGray)
  {
    ghost var row := img.Grid()[i];
    bytes := [];
    var j := 0;
    while j < img.height
      invariant 0 <= j <= img.height
      invariant bytes == EncodeRow(row[..j], img.maxGray)
    {
      var hi := Up8(img.pixels[i, j]);
      var lo := Lo8(img.pixels[i, j]);
      bytes := bytes + [hi] + [lo];
      assert row[..j + 1][..j] == row[..j];
      j := j + 1;
    }
    assert row[..j] == row;
  }

  /** The inner loop of the one-byte branch: LO8 of each pixel of row i. */
  method WriteNarrowRow(img: Image, i: int) returns (bytes: seq<int>)
    requires img.Valid() && !img.released && img.maxGray <= 255 && 0 <= i < img.width
    ensures bytes == EncodeRow(img.Grid()[i], img.maxGray)
  {
    ghost var row := img.Grid()[i];
    bytes := [];
    var j := 0;
    while j < img.height
      invariant 0 <= j <= img.height
      invariant bytes == EncodeRow(row[..j], img.maxGray)
    {
      var lo := Lo8(img.pixels[i, j]);
      bytes := bytes + [lo];
      assert row[..j + 1][..j] == row[..j];
      j := j + 1;
    }
    assert row[..j] == row;
  }

  /** readPGM's P5 payload loops: fill a width x height matrix from the stream,
      reading bytes in order with fgetc. */
  method ReadP5Payload(stream: seq<int>, width: nat, height: nat, maxGray: int) returns (pixels: array2<int>)
    ensures pixels.Length0 == width && pixels.Length1 == height
    ensures forall x, y :: 0 <= x < width && 0 <= y < height ==>
      pixels[x, y] == DecodePayload(stream, width, height, maxGray)[x][y]
  {
    pixels := new int[width, height];
    var pos := 0;
    var i := 0;
    if maxGray > 255 {
      while i < width
        invariant 0 <= i <= width && pos == 2 * (i * height)
        invariant forall x, y :: 0 <= x < i && 0 <= y < height ==> pixels[x, y] == DecodeSample(stream, x * height + y, maxGray)
      {
        var j := 0;
        while j < height
          invariant 0 <= j <= height && pos == 2 * (i * height + j)
          invariant forall x, y :: 0 <= x < i && 0 <= y < height ==> pixels[x, y] == DecodeSample(stream, x * height + y, maxGray)
          invariant forall y :: 0 <= y < j ==> pixels[i, y] == DecodeSample(stream, i * height + y, maxGray)
        {
          var upper := ReadByte(stream, pos);
          var lower := ReadByte(stream, pos + 1);
          pos := pos + 2;
          pixels[i, j] := upper * 256 + lower;
          j := j + 1;
        }
        assert i * height + height == (i + 1) * height;
        i := i + 1;
      }
    } else {
      while i < width
        invariant 0 <= i <= width && pos == i * height
        invariant forall x, y :: 0 <= x < i && 0 <= y < height ==> pixels[x, y] == DecodeSample(stream, x * height + y, maxGray)
      {
        var j := 0;
        while j < height
          invariant 0 <= j <= height && pos == i * height + j
          invariant forall x, y :: 0 <= x < i && 0 <= y < height ==> pixels[x, y] == DecodeSample(stream, x * height + y, maxGray)
          invariant forall y :: 0 <= y < j ==> pixels[i, y] == DecodeSample(stream, i * height + y, maxGray)
        {
          var lower := ReadByte(stream, pos);
          pos := pos + 1;
          pixels[i, j] := lower;
          j := j + 1;
        }
        assert i * height + height == (i + 1) * height;
        i := i + 1;
      }
    }
  }

  // ---------------------------------------------------------------- header

  /** The numeric header fields in the order writePGM prints them: height, width, max_gray. */
  function HeaderFields(width: int, height: int, maxGray: int): (fs: seq<int>)
  {
    [height, width, maxGray]
  }

  datatype Dimensions = Dimensions(width: int, height: int, maxGray: int)

  /** readPGM's three fscanf calls: height first, then width, then max_gray;
      None when the header has fewer than three numbers. */
  function ParseHeader(fields: seq<int>): (d: Option<Dimensions>)
  {
    if |fields| < 3 then None else Some(Dimensions(fields[1], fields[0], fields[2]))
  }

  datatype Option<T> = None | Some(value: T)

  /** Both dimensions survive a write-then-read of the header unswapped. */
  lemma HeaderRoundTrip(width: int, height: int, maxGray: int)
    ensures ParseHeader(HeaderFields(width, height, maxGray)) == Some(Dimensions(width, height, maxGray))
  {
  }
}
