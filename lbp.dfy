/** Local binary patterns (LBPlib.h): every interior pixel gets a P-bit code,
    one bit per neighbour, set when the neighbour is brighter than the centre,
    most significant bit first; find_least_combination maps a code to the least
    of its cyclic right rotations, which makes it rotation invariant.

    The neighbour offsets come from sin/cos/ceil in the C code; here they are
    given as a sequence of integer pairs (dx, dy), one per sampling point. */
module Lbp {
  import opened Numeric
  import opened Pgm

  // ---------------------------------------------------------------- rotations

  /** One step of find_least_combination: bit 0 moves to bit size - 1 and the rest
      shift right (`>> 1` is floor division, `& 0x01` the Euclidean remainder, and
      `temp * pow(2, size - 1)` is the top bit when temp is 1, else 0). A size-bit
      value stays a size-bit value. */
  function RotateRight(n: int, size: int): (r: int)
    requires size >= 1
    ensures 0 <= n < Pow2(size) ==> 0 <= r < Pow2(size)
  {
    assert Pow2(size) == 2 * Pow2(size - 1);
    n / 2 + (if n % 2 == 1 then Pow2(size - 1) else 0)
  }

  /** The opposite one-bit rotation of a size-bit value: bit size - 1 moves to bit 0
      and the rest shift left. */
  function RotateLeft(n: int, size: int): (r: int)
    requires size >= 1
  {
    (2 * n) % Pow2(size) + n / Pow2(size - 1)
  }

  /** A step of find_least_combination loses no bit: rotating back gives the input.
      With h = 2^(size - 1), n = 2q + b with q < h, so r = q + b h, 2r mod 2h is 2q
      and r / h is b. */
  lemma RotateLeftUndoesRight(n: int, size: int)
    requires size >= 1 && 0 <= n < Pow2(size)
    ensures RotateLeft(RotateRight(n, size), size) == n
  {
    var h := Pow2(size - 1);
    assert Pow2(size) == 2 * h;
    var q, b := n / 2, n % 2;
    assert n == 2 * q + b;
    assert q < h;
    var r := RotateRight(n, size);
    if b == 1 {
      assert r == q + h;
      DivModUnique(2 * r, 2 * h, 1, 2 * q);
      DivModUnique(r, h, 1, q);
    } else {
      assert r == q;
      DivModUnique(2 * r, 2 * h, 0, 2 * q);
      DivModUnique(r, h, 0, q);
    }
  }

  /** k successive one-bit right rotations. */
  function Rotate(n: int, size: int, k: nat): (r: int)
    requires size >= 1
  {
    if k == 0 then n else RotateRight(Rotate(n, size, k - 1), size)
  }

  /** Any number of rotations keeps a size-bit value a size-bit value. */
  lemma {:induction false} RotateRange(n: int, size: int, k: nat)
    requires size >= 1 && 0 <= n < Pow2(size)
    ensures 0 <= Rotate(n, size, k) < Pow2(size)
  {
    if k > 0 {
      RotateRange(n, size, k - 1);
    }
  }

  function Min(a: int, b: int): (r: int)
  {
    if a <= b then a else b
  }

  /** The least of n and its first k rotations: never above n. */
  function MinRotation(n: int, size: int, k: nat): (r: int)
    requires size >= 1
    ensures r <= n
  {
    if k == 0 then n else Min(MinRotation(n, size, k - 1), Rotate(n, size, k))
  }

  /** The running minimum of a size-bit value's rotations is a size-bit value. */
  lemma {:induction false} MinRotationRange(n: int, size: int, k: nat)
    requires size >= 1 && 0 <= n < Pow2(size)
    ensures 0 <= MinRotation(n, size, k) < Pow2(size)
  {
    if k > 0 {
      MinRotationRange(n, size, k - 1);
      RotateRange(n, size, k);
    }
  }

  /** What find_least_combination returns: for size <= 0 the loop does not run.
      The result is never above the input and keeps a size-bit value a size-bit value. */
  function LeastRotation(n: int, size: int): (r: int)
    ensures r <= n
    ensures size >= 1 && 0 <= n < Pow2(size) ==> 0 <= r < Pow2(size)
  {
    if size <= 0 then n
    else
      if 0 <= n < Pow2(size) then MinRotationRange(n, size, size); MinRotation(n, size, size)
      else MinRotation(n, size, size)
  }

  /** One rotation of a value of the form q + m * 2e. */
  lemma RotateRightOfForm(r: int, q: int, m: int, e: int, size: int)
    requires size >= 1 && r == q + m * (2 * e)
    ensures RotateRight(r, size) == q / 2 + m * e + (q % 2) * Pow2(size - 1)
  {
    assert m * (2 * e) == 2 * (m * e);
    DivModUnique(r, 2, q / 2 + m * e, q % 2);
    assert (q % 2) * Pow2(size - 1) == if q % 2 == 1 then Pow2(size - 1) else 0;
  }

  lemma Distribute(a: int, b: int, c: int, e: int)
    ensures (a * b + c) * e == b * (a * e) + c * e
  {
    assert (a * b + c) * e == (a * b) * e + c * e;
    assert (a * b) * e == b * (a * e);
  }

  /** After k steps the low k bits of n sit on top: n / 2^k + (n mod 2^k) * 2^(size - k). */
  lemma {:induction false} RotateClosedForm(n: int, size: int, k: nat)
    requires size >= 1 && k <= size
    ensures Rotate(n, size, k) == n / Pow2(k) + (n % Pow2(k)) * Pow2(size - k)
  {
    if k > 0 {
      var j := k - 1;
      RotateClosedForm(n, size, j);
      var p, e := Pow2(j), Pow2(size - k);
      var q, m := n / p, n % p;
      assert Pow2(size - j) == 2 * e;
      RotateRightOfForm(Rotate(n, size, j), q, m, e, size);
      DivDouble(n, p);
      assert Pow2(k) == 2 * p;
      Pow2Add(j, size - k);
      Distribute(p, q % 2, m, e);
    }
  }

  /** size rotations of a size-bit value give the value back, so the loop visits
      every cyclic rotation. */
  lemma RotatePeriod(n: int, size: int)
    requires size >= 1 && 0 <= n < Pow2(size)
    ensures Rotate(n, size, size) == n
  {
    RotateClosedForm(n, size, size);
    DivModUnique(n, Pow2(size), 0, n);
  }

  lemma {:induction false} RotateAdd(n: int, size: int, s: nat, t: nat)
    requires size >= 1
    ensures Rotate(Rotate(n, size, s), size, t) == Rotate(n, size, s + t)
  {
    if t > 0 {
      RotateAdd(n, size, s, t - 1);
    }
  }

  /** Rotation counts of a size-bit value may be taken modulo size. */
  lemma RotateMod(n: int, size: int, t: nat)
    requires size >= 1 && 0 <= n < Pow2(size)
    ensures Rotate(n, size, t) == Rotate(n, size, t % size)
  {
    var c := t / size;
    RotateWraps(n, size, c, t % size);
    assert size * c + t % size == t;
  }

  lemma {:induction false} RotateWraps(n: int, size: int, c: nat, u: nat)
    requires size >= 1 && 0 <= n < Pow2(size)
    ensures Rotate(n, size, size * c + u) == Rotate(n, size, u)
  {
    if c > 0 {
      RotateWraps(n, size, c - 1, u);
      RotatePeriod(n, size);
      RotateAdd(n, size, size, size * (c - 1) + u);
      assert size * c + u == size + (size * (c - 1) + u);
    }
  }

  lemma {:induction false} MinRotationBelow(n: int, size: int, k: nat, t: nat)
    requires size >= 1 && t <= k
    ensures MinRotation(n, size, k) <= Rotate(n, size, t)
  {
    if k > 0 && t < k {
      MinRotationBelow(n, size, k - 1, t);
    }
  }

  lemma {:induction false} MinRotationAttained(n: int, size: int, k: nat) returns (t: nat)
    requires size >= 1
    ensures t <= k && MinRotation(n, size, k) == Rotate(n, size, t)
  {
    if k == 0 {
      t := 0;
    } else {
      t := MinRotationAttained(n, size, k - 1);
      if Rotate(n, size, k) < MinRotation(n, size, k - 1) {
        t := k;
      }
    }
  }

  /** The result is at most every rotation of the input (the input included) and
      is one of them. */
  lemma LeastRotationIsLeast(n: int, size: int)
    requires size >= 1
    ensures forall t :: 0 <= t <= size ==> LeastRotation(n, size) <= Rotate(n, size, t)
    ensures exists t :: 0 <= t <= size && LeastRotation(n, size) == Rotate(n, size, t)
    ensures LeastRotation(n, size) <= n
  {
    forall t | 0 <= t <= size
      ensures LeastRotation(n, size) <= Rotate(n, size, t)
    {
      MinRotationBelow(n, size, size, t);
    }
    var t := MinRotationAttained(n, size, size);
    assert Rotate(n, size, 0) == n;
  }

  /** The least rotation of a rotation of n is a rotation of n, so it is at least
      the least rotation of n. */
  lemma LeastOfRotationAtLeast(n: int, size: int, s: nat)
    requires size >= 1 && 0 <= n < Pow2(size)
    ensures LeastRotation(Rotate(n, size, s), size) >= LeastRotation(n, size)
  {
    var r := Rotate(n, size, s);
    var a := MinRotationAttained(r, size, size);
    RotateAdd(n, size, s, a);
    RotateMod(n, size, s + a);
    MinRotationBelow(n, size, size, (s + a) % size);
  }

  /** s further rotations by size - s mod size make s / size + 1 whole turns. */
  lemma WholeTurns(s: nat, size: int)
    requires size >= 1
    ensures s + (size - s % size) == size * (s / size + 1) + 0
  {
    assert size * (s / size + 1) == size * (s / size) + size;
  }

  /** Any rotation of a size-bit value has the same least rotation. */
  lemma LeastRotationInvariant(n: int, size: int, s: nat)
    requires size >= 1 && 0 <= n < Pow2(size)
    ensures LeastRotation(Rotate(n, size, s), size) == LeastRotation(n, size)
  {
    var r := Rotate(n, size, s);
    RotateRange(n, size, s);
    LeastOfRotationAtLeast(n, size, s);
    var back := RotateBack(n, size, s);
    LeastOfRotationAtLeast(r, size, back);
  }

  /** Rotating on to a whole number of turns returns a size-bit value to itself. */
  lemma RotateBack(n: int, size: int, s: nat) returns (back: nat)
    requires size >= 1 && 0 <= n < Pow2(size)
    ensures Rotate(Rotate(n, size, s), size, back) == n
  {
    back := size - s % size;
    var c := s / size + 1;
    WholeTurns(s, size);
    RotateAdd(n, size, s, back);
    RotateWraps(n, size, c, 0);
  }

  /** find_least_combination is idempotent on size-bit values. */
  lemma LeastRotationIdempotent(n: int, size: int)
    requires size >= 1 && 0 <= n < Pow2(size)
    ensures LeastRotation(LeastRotation(n, size), size) == LeastRotation(n, size)
  {
    var t := MinRotationAttained(n, size, size);
    LeastRotationInvariant(n, size, t);
  }

  /** The loop body's arithmetic is one RotateRight. */
  lemma LoopStep(n: int, size: int)
    requires size >= 1
    ensures n / 2 + (n % 2) * Pow2(size - 1) == RotateRight(n, size)
  {
    if n % 2 == 0 {
      assert (n % 2) * Pow2(size - 1) == 0;
    } else {
      assert (n % 2) * Pow2(size - 1) == Pow2(size - 1);
    }
  }

  /** find_least_combination: rotate `size` times, keeping the least value seen. */
  method FindLeastCombination(number: int, size: int) returns (min: int)
    ensures min == LeastRotation(number, size)
  {
    min := number;
    var n := number;
    var i := 0;
    while i < size
      invariant 0 <= i
      invariant size >= 1 ==> i <= size && n == Rotate(number, size, i) && min == MinRotation(number, size, i)
      invariant size < 1 ==> i == 0 && min == number
    {
      var temp := n % 2;
      ghost var prev := n;
      n := n / 2;
      n := n + temp * Pow2(size - 1);
      LoopStep(prev, size);
      if n < min {
        min := n;
      }
      i := i + 1;
    }
  }

  // ---------------------------------------------------------------- codes

  /** A code built MSB-first by `code = (code << 1) | bit`. */
  function CodeOf(bits: seq<bool>): (r: int)
  {
    if bits == [] then 0 else 2 * CodeOf(bits[..|bits| - 1]) + (if bits[|bits| - 1] then 1 else 0)
  }

  lemma {:induction false} CodeRange(bits: seq<bool>)
    ensures 0 <= CodeOf(bits) < Pow2(|bits|)
  {
    if bits != [] {
      CodeRange(bits[..|bits| - 1]);
    }
  }

  /** Bit |bits| - 1 - i of the code is neighbour i's comparison. */
  lemma {:induction false} CodeBit(bits: seq<bool>, i: int)
    requires 0 <= i < |bits|
    ensures (CodeOf(bits) / Pow2(|bits| - 1 - i)) % 2 == if bits[i] then 1 else 0
  {
    var last := |bits| - 1;
    var front := bits[..last];
    var c := CodeOf(bits);
    var b := if bits[last] then 1 else 0;
    DivModUnique(c, 2, CodeOf(front), b);
    if i < last {
      var e := last - 1 - i;
      CodeBit(front, i);
      DivDouble(c, Pow2(e));
      // c / 2^(e+1) == (c / 2) / 2^e, and c / 2 is the code of the front.
      assert Pow2(last - i) == 2 * Pow2(e);
      DivSwap(c, 2, Pow2(e));
    }
  }

  /** (c / a) / b == (c / b) / a for positive divisors. */
  lemma DivSwap(c: int, a: int, b: int)
    requires a > 0 && b > 0
    ensures (c / a) / b == (c / b) / a
  {
    DivDivide(c, a, b);
    DivDivide(c, b, a);
    assert a * b == b * a;
  }


  /** The neighbour coordinate on one axis: the offset position if it is inside
      [0, bound), otherwise the centre's own coordinate. */
  function Clamp(c: int, d: int, bound: int): (r: int)
    ensures 0 <= c < bound ==> 0 <= r < bound
    ensures r == c + d || r == c
    ensures 0 <= c + d < bound ==> r == c + d
  {
    if 0 <= c + d < bound then c + d else c
  }

  /** The comparison bits of centre (j, k), in sampling order. */
  function NeighbourBits(g: Matrix, width: int, height: int, j: int, k: int, offsets: seq<(int, int)>): (bits: seq<bool>)
    requires IsMatrix(g, width, height) && 0 <= j < width && 0 <= k < height
    ensures |bits| == |offsets|
  {
    seq(|offsets|, i requires 0 <= i < |offsets| =>
      g[Clamp(j, offsets[i].0, width)][Clamp(k, offsets[i].1, height)] > g[j][k])
  }

  /** The raw code of centre (j, k): one bit per neighbour, so a |offsets|-bit value. */
  function RawCode(g: Matrix, width: int, height: int, j: int, k: int, offsets: seq<(int, int)>): (r: int)
    requires IsMatrix(g, width, height) && 0 <= j < width && 0 <= k < height
    ensures 0 <= r < Pow2(|offsets|)
  {
    CodeRange(NeighbourBits(g, width, height, j, k, offsets));
    CodeOf(NeighbourBits(g, width, height, j, k, offsets))
  }

  /** Every raw code is a |offsets|-bit value, and its bit |offsets| - 1 - i says
      whether neighbour i is brighter than the centre. */
  lemma RawCodeBits(g: Matrix, width: int, height: int, j: int, k: int, offsets: seq<(int, int)>, i: int)
    requires IsMatrix(g, width, height) && 0 <= j < width && 0 <= k < height && 0 <= i < |offsets|
    ensures 0 <= RawCode(g, width, height, j, k, offsets) < Pow2(|offsets|)
    ensures (RawCode(g, width, height, j, k, offsets) / Pow2(|offsets| - 1 - i)) % 2 == 1 <==>
      g[Clamp(j, offsets[i].0, width)][Clamp(k, offsets[i].1, height)] > g[j][k]
  {
    CodeRange(NeighbourBits(g, width, height, j, k, offsets));
    CodeBit(NeighbourBits(g, width, height, j, k, offsets), i);
  }

  // ---------------------------------------------------------------- the LBP image

  /** Output cell (a, b) as calculate_LBP leaves it. Line 59 minimises lbp[j][k]
      rather than lbp[j - radius][k - radius], so for radius >= 1 the rotation
      minimum lands on a cell that the raw code of a later centre overwrites, and
      only for radius 0 does the output hold minimised codes. */
  function LbpCellAsWritten(g: Matrix, width: int, height: int, radius: int, offsets: seq<(int, int)>, a: int, b: int): (r: int)
    requires IsMatrix(g, width, height) && radius >= 0
    requires 0 <= a < width - 2 * radius && 0 <= b < height - 2 * radius
  {
    var raw := RawCode(g, width, height, a + radius, b + radius, offsets);
    if radius == 0 then LeastRotation(raw, |offsets|) else raw
  }

  /** The whole output window as calculate_LBP leaves it. */
  ghost function LbpImageAsWritten(g: Matrix, width: int, height: int, radius: int, offsets: seq<(int, int)>): (m: Matrix)
    requires IsMatrix(g, width, height) && radius >= 0 && 2 * radius <= width && 2 * radius <= height
    ensures IsMatrix(m, width - 2 * radius, height - 2 * radius)
    ensures forall a, b :: 0 <= a < width - 2 * radius && 0 <= b < height - 2 * radius ==>
      m[a][b] == LbpCellAsWritten(g, width, height, radius, offsets, a, b)
  {
    seq(width - 2 * radius, a requires 0 <= a < width - 2 * radius =>
      seq(height - 2 * radius, b requires 0 <= b < height - 2 * radius => LbpCellAsWritten(g, width, height, radius, offsets, a, b)))
  }

  /** Output cell (a, b) as intended: the least rotation of the centre's code. */
  function LbpCell(g: Matrix, width: int, height: int, radius: int, offsets: seq<(int, int)>, a: int, b: int): (r: int)
    requires IsMatrix(g, width, height) && radius >= 0
    requires 0 <= a < width - 2 * radius && 0 <= b < height - 2 * radius
  {
    LeastRotation(RawCode(g, width, height, a + radius, b + radius, offsets), |offsets|)
  }

  /** The whole output window as intended. */
  ghost function LbpImage(g: Matrix, width: int, height: int, radius: int, offsets: seq<(int, int)>): (m: Matrix)
    requires IsMatrix(g, width, height) && radius >= 0 && 2 * radius <= width && 2 * radius <= height
    ensures IsMatrix(m, width - 2 * radius, height - 2 * radius)
    ensures forall a, b :: 0 <= a < width - 2 * radius && 0 <= b < height - 2 * radius ==>
      m[a][b] == LbpCell(g, width, height, radius, offsets, a, b)
  {
    seq(width - 2 * radius, a requires 0 <= a < width - 2 * radius =>
      seq(height - 2 * radius, b requires 0 <= b < height - 2 * radius => LbpCell(g, width, height, radius, offsets, a, b)))
  }

  /** The intended cell is invariant under rotating the neighbourhood: rotating the
      code of a centre does not change the cell. */
  lemma LbpCellRotationInvariant(g: Matrix, width: int, height: int, radius: int, offsets: seq<(int, int)>, a: int, b: int, s: nat)
    requires IsMatrix(g, width, height) && radius >= 0 && |offsets| >= 1
    requires 0 <= a < width - 2 * radius && 0 <= b < height - 2 * radius
    ensures LeastRotation(Rotate(RawCode(g, width, height, a + radius, b + radius, offsets), |offsets|, s), |offsets|)
      == LbpCell(g, width, height, radius, offsets, a, b)
    ensures 0 <= LbpCell(g, width, height, radius, offsets, a, b) < Pow2(|offsets|)
  {
    var raw := RawCode(g, width, height, a + radius, b + radius, offsets);
    CodeRange(NeighbourBits(g, width, height, a + radius, b + radius, offsets));
    LeastRotationInvariant(raw, |offsets|, s);
    var t := MinRotationAttained(raw, |offsets|, |offsets|);
  }

  /** A 3 x 3 image whose centre is darker than the pixel after it in the same row
      and not darker than the pixel below it: sampling those two neighbours gives
      the code 0b10, whose least rotation is 0b01. With radius 1 calculate_LBP
      outputs 2 where 1 is intended. */
  lemma LineFiftyNineKeepsRawCode()
    ensures var g := [[0, 0, 0], [0, 0, 1], [0, 0, 0]];
      var offsets := [(0, 1), (1, 0)];
      && IsMatrix(g, 3, 3)
      && LbpCellAsWritten(g, 3, 3, 1, offsets, 0, 0) == 2
      && LbpCell(g, 3, 3, 1, offsets, 0, 0) == 1
  {
    ExampleRawCode();
    ExampleLeastRotation();
  }

  lemma ExampleRawCode()
    ensures IsMatrix([[0, 0, 0], [0, 0, 1], [0, 0, 0]], 3, 3)
    ensures RawCode([[0, 0, 0], [0, 0, 1], [0, 0, 0]], 3, 3, 1, 1, [(0, 1), (1, 0)]) == 2
  {
    var g := [[0, 0, 0], [0, 0, 1], [0, 0, 0]];
    assert IsMatrix(g, 3, 3);
    var bits := NeighbourBits(g, 3, 3, 1, 1, [(0, 1), (1, 0)]);
    assert bits[0] && !bits[1];
    assert bits[..1][..0] == [];
    assert CodeOf(bits[..1]) == 1;
    assert bits[..2] == bits;
  }

  lemma ExampleLeastRotation()
    ensures LeastRotation(2, 2) == 1
  {
    assert Pow2(1) == 2;
    assert RotateRight(2, 2) == 1;
    assert RotateRight(1, 2) == 2;
    assert MinRotation(2, 2, 1) == 1;
    assert MinRotation(2, 2, 2) == 1;
  }

  /** The code loop for centre (j, k): P shifts, each followed by an or of the
      neighbour's comparison, into lbp[j - radius][k - radius]. */
  method CodePixel(pixels: array2<int>, ghost g: Matrix, width: int, height: int, lbp: array2<int>,
                   radius: int, offsets: seq<(int, int)>, j: int, k: int)
    requires Holds(pixels, g, width, height) && radius >= 0 && lbp != pixels
    requires 0 <= j - radius && j < width && 0 <= k - radius && k < height
    requires j - radius < lbp.Length0 && k - radius < lbp.Length1
    modifies lbp
    ensures lbp[j - radius, k - radius] == RawCode(g, width, height, j, k, offsets)
    ensures forall a, b :: 0 <= a < lbp.Length0 && 0 <= b < lbp.Length1 && (a != j - radius || b != k - radius) ==>
      lbp[a, b] == old(lbp[a, b])
  {
    ghost var bits := NeighbourBits(g, width, height, j, k, offsets);
    var a, b := j - radius, k - radius;
    lbp[a, b] := 0;
    var i := 0;
    while i < |offsets|
      invariant 0 <= i <= |offsets|
      invariant lbp[a, b] == CodeOf(bits[..i])
      invariant forall x, y :: 0 <= x < lbp.Length0 && 0 <= y < lbp.Length1 && (x != a || y != b) ==>
        lbp[x, y] == old(lbp[x, y])
    {
      assert bits[..i + 1][..i] == bits[..i];
      lbp[a, b] := lbp[a, b] * 2;
      var jdash := if 0 <= j + offsets[i].0 < width then j + offsets[i].0 else j;
      var kdash := if 0 <= k + offsets[i].1 < height then k + offsets[i].1 else k;
      assert bits[i] == (pixels[jdash, kdash] > pixels[j, k]);
      if pixels[jdash, kdash] > pixels[j, k] {
        lbp[a, b] := lbp[a, b] + 1;
      }
      i := i + 1;
    }
    assert bits[..|offsets|] == bits;
  }

  /** calculate_LBP as written, for radius <= width / 2 and radius <= height / 2:
      the result has width - 2 radius rows of height - 2 radius samples in a
      buffer of the input's size, max_gray 2^P, and the cells LbpCellAsWritten. */
  method CalculateLbp(data: Image, radius: int, offsets: seq<(int, int)>) returns (result: Image)
    requires data.Valid() && !data.released && radius >= 0
    requires 2 * radius <= data.width && 2 * radius <= data.height
    ensures fresh(result) && fresh(result.pixels) && result.Valid() && !result.released
    ensures result.width == data.width - 2 * radius && result.height == data.height - 2 * radius
    ensures result.maxGray == Pow2(|offsets|)
    ensures forall a, b :: 0 <= a < result.width && 0 <= b < result.height ==>
      result.pixels[a, b] == LbpCellAsWritten(old(data.Grid()), data.width, data.height, radius, offsets, a, b)
  {
    var w, h := data.width, data.height;
    ghost var g := data.Grid();
    ghost var expected := LbpImageAsWritten(g, w, h, radius, offsets);
    var lbp := new int[w, h];
    CodeAllPixels(data.pixels, g, w, h, lbp, radius, offsets);
    result := new Image(w, h, Pow2(|offsets|));
    result.width, result.height := w - 2 * radius, h - 2 * radius;
    CopyWindow(lbp, result.pixels, w - 2 * radius, h - 2 * radius);
    assert forall a, b :: 0 <= a < w - 2 * radius && 0 <= b < h - 2 * radius ==> result.pixels[a, b] == expected[a][b];
  }

  /** The two loops over centres (j, k), radius <= j < width - radius and
      radius <= k < height - radius, each coding its pixel and then applying
      find_least_combination to lbp[j][k]. */
  method CodeAllPixels(pixels: array2<int>, ghost g: Matrix, w: int, h: int, lbp: array2<int>, radius: int, offsets: seq<(int, int)>)
    requires Holds(pixels, g, w, h) && radius >= 0 && lbp != pixels
    requires 2 * radius <= w <= lbp.Length0 && 2 * radius <= h <= lbp.Length1
    modifies lbp
    ensures forall a, b :: 0 <= a < w - 2 * radius && 0 <= b < h - 2 * radius ==>
      lbp[a, b] == LbpImageAsWritten(g, w, h, radius, offsets)[a][b]
  {
    ghost var expected := LbpImageAsWritten(g, w, h, radius, offsets);
    var j := radius;
    while j < w - radius
      invariant radius <= j <= w - radius
      invariant forall a, b :: 0 <= a < w - 2 * radius && 0 <= b < h - 2 * radius && a + radius < j ==>
        lbp[a, b] == expected[a][b]
    {
      var k := radius;
      while k < h - radius
        invariant radius <= k <= h - radius
        invariant forall a, b :: 0 <= a < w - 2 * radius && 0 <= b < h - 2 * radius && (a + radius < j || (a + radius == j && b + radius < k)) ==>
          lbp[a, b] == expected[a][b]
      {
        CodeCentre(pixels, g, w, h, lbp, radius, offsets, j, k);
        k := k + 1;
      }
      j := j + 1;
    }
  }

  /** One pass of the inner loop of calculate_LBP as written: code centre (j, k)
      into lbp[j - radius][k - radius], then replace lbp[j][k] by its least
      rotation. Cell (j - radius, k - radius) ends as LbpCellAsWritten, and only
      it and cell (j, k) change. */
  method CodeCentre(pixels: array2<int>, ghost g: Matrix, w: int, h: int, lbp: array2<int>,
                    radius: int, offsets: seq<(int, int)>, j: int, k: int)
    requires Holds(pixels, g, w, h) && radius >= 0 && lbp != pixels
    requires w <= lbp.Length0 && h <= lbp.Length1
    requires radius <= j < w - radius && radius <= k < h - radius
    modifies lbp
    ensures lbp[j - radius, k - radius] == LbpCellAsWritten(g, w, h, radius, offsets, j - radius, k - radius)
    ensures forall a, b :: 0 <= a < lbp.Length0 && 0 <= b < lbp.Length1 && (a != j - radius || b != k - radius) && (a != j || b != k) ==>
      lbp[a, b] == old(lbp[a, b])
  {
    CodePixel(pixels, g, w, h, lbp, radius, offsets, j, k);
    var least := FindLeastCombination(lbp[j, k], |offsets|);
    lbp[j, k] := least;
  }

  /** calculate_LBP with line 59 applying find_least_combination to the cell
      just coded, lbp[j - radius][k - radius]: every output cell is the
      rotation-invariant code LbpCell. */
  method CalculateLbpIntended(data: Image, radius: int, offsets: seq<(int, int)>) returns (result: Image)
    requires data.Valid() && !data.released && radius >= 0
    requires 2 * radius <= data.width && 2 * radius <= data.height
    ensures fresh(result) && fresh(result.pixels) && result.Valid() && !result.released
    ensures result.width == data.width - 2 * radius && result.height == data.height - 2 * radius
    ensures result.maxGray == Pow2(|offsets|)
    ensures forall a, b :: 0 <= a < result.width && 0 <= b < result.height ==>
      result.pixels[a, b] == LbpCell(old(data.Grid()), data.width, data.height, radius, offsets, a, b)
  {
    var w, h := data.width, data.height;
    ghost var g := data.Grid();
    ghost var expected := LbpImage(g, w, h, radius, offsets);
    var lbp := new int[w, h];
    CodeAllPixelsIntended(data.pixels, g, w, h, lbp, radius, offsets);
    result := new Image(w, h, Pow2(|offsets|));
    result.width, result.height := w - 2 * radius, h - 2 * radius;
    CopyWindow(lbp, result.pixels, w - 2 * radius, h - 2 * radius);
    assert forall a, b :: 0 <= a < w - 2 * radius && 0 <= b < h - 2 * radius ==> result.pixels[a, b] == expected[a][b];
  }

  /** The two loops over centres with the minimisation applied to the cell the
      centre was coded into. */
  method CodeAllPixelsIntended(pixels: array2<int>, ghost g: Matrix, w: int, h: int, lbp: array2<int>, radius: int, offsets: seq<(int, int)>)
    requires Holds(pixels, g, w, h) && radius >= 0 && lbp != pixels
    requires 2 * radius <= w <= lbp.Length0 && 2 * radius <= h <= lbp.Length1
    modifies lbp
    ensures forall a, b :: 0 <= a < w - 2 * radius && 0 <= b < h - 2 * radius ==>
      lbp[a, b] == LbpImage(g, w, h, radius, offsets)[a][b]
  {
    ghost var expected := LbpImage(g, w, h, radius, offsets);
    var j := radius;
    while j < w - radius
      invariant radius <= j <= w - radius
      invariant forall a, b :: 0 <= a < w - 2 * radius && 0 <= b < h - 2 * radius && a + radius < j ==>
        lbp[a, b] == expected[a][b]
    {
      var k := radius;
      while k < h - radius
        invariant radius <= k <= h - radius
        invariant forall a, b :: 0 <= a < w - 2 * radius && 0 <= b < h - 2 * radius && (a + radius < j || (a + radius == j && b + radius < k)) ==>
          lbp[a, b] == expected[a][b]
      {
        CodeCentreIntended(pixels, g, w, h, lbp, radius, offsets, j, k);
        k := k + 1;
      }
      j := j + 1;
    }
  }

  /** One pass of the inner loop with the minimisation applied to the cell just
      coded: only cell (j - radius, k - radius) changes, and it ends as LbpCell. */
  method CodeCentreIntended(pixels: array2<int>, ghost g: Matrix, w: int, h: int, lbp: array2<int>,
                            radius: int, offsets: seq<(int, int)>, j: int, k: int)
    requires Holds(pixels, g, w, h) && radius >= 0 && lbp != pixels
    requires w <= lbp.Length0 && h <= lbp.Length1
    requires radius <= j < w - radius && radius <= k < h - radius
    modifies lbp
    ensures lbp[j - radius, k - radius] == LbpCell(g, w, h, radius, offsets, j - radius, k - radius)
    ensures forall a, b :: 0 <= a < lbp.Length0 && 0 <= b < lbp.Length1 && (a != j - radius || b != k - radius) ==>
      lbp[a, b] == old(lbp[a, b])
  {
    CodePixel(pixels, g, w, h, lbp, radius, offsets, j, k);
    var least := FindLeastCombination(lbp[j - radius, k - radius], |offsets|);
    lbp[j - radius, k - radius] := least;
  }

  /** The copy of the rw x rh window of lbp into the result's pixels. */
  method CopyWindow(lbp: array2<int>, pixels: array2<int>, rw: int, rh: int)
    requires 0 <= rw <= lbp.Length0 && rw <= pixels.Length0 && 0 <= rh <= lbp.Length1 && rh <= pixels.Length1
    requires lbp != pixels
    modifies pixels
    ensures forall a, b :: 0 <= a < rw && 0 <= b < rh ==> pixels[a, b] == lbp[a, b]
  {
    var i := 0;
    while i < rw
      invariant 0 <= i <= rw
      invariant forall a, b :: 0 <= a < i && 0 <= b < rh ==> pixels[a, b] == lbp[a, b]
    {
      var k := 0;
      while k < rh
        invariant 0 <= k <= rh
        invariant forall a, b :: 0 <= a < i && 0 <= b < rh ==> pixels[a, b] == lbp[a, b]
        invariant forall b :: 0 <= b < k ==> pixels[i, b] == lbp[i, b]
      {
        pixels[i, k] := lbp[i, k];
        k := k + 1;
      }
      i := i + 1;
    }
  }
}
