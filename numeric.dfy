/** Integer and real helpers shared by the image modules: powers of two,
    C's truncating division, and left-to-right sums of reals. */
module Numeric {

  /** 2^n, as `pow(2, n)` yields it for the small exponents the code uses. */
  function Pow2(n: nat): (r: nat)
    ensures r >= 1
  {
    if n == 0 then 1 else 2 * Pow2(n - 1)
  }

  /** 2^(a + b) == 2^a * 2^b. */
  lemma {:induction false} Pow2Add(a: nat, b: nat)
    ensures Pow2(a + b) == Pow2(a) * Pow2(b)
  {
    if a > 0 {
      Pow2Add(a - 1, b);
      assert Pow2(a + b) == 2 * Pow2(a - 1 + b);
    }
  }

  /** Euclidean quotient and remainder are the only q, r with n == d * q + r, 0 <= r < d. */
  lemma DivModUnique(n: int, d: int, q: int, r: int)
    requires d > 0 && 0 <= r < d && n == d * q + r
    ensures n / d == q && n % d == r
  {
    var q0, r0 := n / d, n % d;
    assert n == d * q0 + r0;
    if q0 > q {
      MulMonotone(q + 1, q0, d);
      assert false;
    } else if q0 < q {
      MulMonotone(q0 + 1, q, d);
      assert false;
    }
  }

  /** Dividing by 2p is dividing by p, then by 2; the remainder modulo 2p is the
      remainder modulo p plus p times the next bit of the quotient. */
  lemma DivDouble(n: int, p: int)
    requires p > 0
    ensures n / (2 * p) == (n / p) / 2
    ensures n % (2 * p) == p * ((n / p) % 2) + n % p
  {
    var q, m := n / p, n % p;
    var h, b := q / 2, q % 2;
    var low := if b == 0 then 0 else p;
    assert p * b == low by {
      if b == 0 { assert p * b == 0; } else { assert b == 1; }
    }
    assert n == (2 * p) * h + (low + m) by {
      assert n == p * q + m;
      assert q == 2 * h + b;
      assert p * q == (2 * p) * h + p * b;
    }
    DivModUnique(n, 2 * p, h, low + m);
  }

  /** (c / a) / b == c / (a * b) for positive divisors. */
  lemma DivDivide(c: int, a: int, b: int)
    requires a > 0 && b > 0
    ensures (c / a) / b == c / (a * b)
  {
    var q1, r1 := c / a, c % a;
    var q2, r2 := q1 / b, q1 % b;
    assert c == a * (b * q2 + r2) + r1;
    assert a * (b * q2 + r2) + r1 == (a * b) * q2 + (a * r2 + r1);
    assert a * r2 + r1 < a * b by {
      MulMonotone(r2, b - 1, a);
      assert a * (b - 1) == a * b - a;
    }
    assert 0 <= a * r2;
    DivModUnique(c, a * b, q2, a * r2 + r1);
  }

  /** A non-negative dividend over a positive divisor gives a quotient between 0 and the dividend. */
  lemma DivBounds(n: int, d: int)
    requires n >= 0 && d > 0
    ensures 0 <= n / d <= n
  {
    DivMonotone(0, n, d);
    MulMonotone(1, d, n / d);
  }

  /** C's `a / b` on int, which truncates toward zero (Dafny's `/` is Euclidean):
      the remainder a - b * q takes the sign of the dividend and is smaller than b. */
  function TruncDiv(a: int, b: int): (q: int)
    requires b > 0
    ensures a >= 0 ==> 0 <= a - b * q < b
    ensures a < 0 ==> -b < a - b * q <= 0
  {
    if a >= 0 then a / b else -((-a) / b)
  }

  lemma TruncDivByOne(a: int)
    ensures TruncDiv(a, 1) == a
  {
  }

  /** Euclidean division by a positive divisor never decreases when the dividend grows. */
  lemma DivMonotone(a: int, b: int, d: int)
    requires 0 <= a <= b && d > 0
    ensures a / d <= b / d
  {
    if a / d > b / d {
      assert d * (a / d) >= d * (b / d + 1) by {
        MulMonotone(b / d + 1, a / d, d);
      }
      assert false;
    }
  }

  /** Multiplying by a factor f >= 1 moves a value away from zero. */
  lemma ScaleAway(p: int, f: int)
    requires f >= 1
    ensures p >= 0 ==> p <= p * f
    ensures p <= 0 ==> p * f <= p
  {
    if p >= 0 {
      MulMonotone(1, f, p);
    } else {
      MulMonotone(1, f, -p);
    }
  }

  /** Truncating division by a divisor d >= 1 moves a value toward zero. */
  lemma TruncDivToward(p: int, d: int)
    requires d >= 1
    ensures p >= 0 ==> 0 <= TruncDiv(p, d) <= p
    ensures p <= 0 ==> p <= TruncDiv(p, d) <= 0
  {
    if p >= 0 {
      DivBounds(p, d);
    } else {
      DivBounds(-p, d);
    }
  }

  lemma MulMonotone(a: int, b: int, c: int)
    requires a <= b && c >= 0
    ensures c * a <= c * b
  {
  }

  lemma {:induction false} TruncDivMonotone(a: int, b: int, d: int)
    requires a <= b && d > 0
    ensures TruncDiv(a, d) <= TruncDiv(b, d)
  {
    var qa, qb := TruncDiv(a, d), TruncDiv(b, d);
    if a >= 0 {
      assert qa == a / d && qb == b / d;
      DivMonotone(a, b, d);
    } else if b >= 0 {
      assert qa == -((-a) / d) && qb == b / d;
      DivBounds(-a, d);
      DivBounds(b, d);
    } else {
      assert qa == -((-a) / d) && qb == -((-b) / d);
      DivMonotone(-b, -a, d);
    }
  }

  /** Sum of a sequence of reals, accumulated from the front as the C loops do. */
  function Sum(s: seq<real>): (r: real)
  {
    if s == [] then 0.0 else Sum(s[..|s| - 1]) + s[|s| - 1]
  }

  /** Adding v to one slot of a sequence adds v to its sum. */
  lemma {:induction false} SumUpdate(s: seq<real>, k: nat, v: real)
    requires k < |s|
    ensures Sum(s[k := s[k] + v]) == Sum(s) + v
  {
    var n := |s| - 1;
    if k == n {
      assert s[k := s[k] + v][..n] == s[..n];
    } else {
      assert s[k := s[k] + v][..n] == s[..n][k := s[k] + v];
      SumUpdate(s[..n], k, v);
    }
  }

  function Zeros(n: nat): (z: seq<real>)
    ensures |z| == n && forall k :: 0 <= k < n ==> z[k] == 0.0
  {
    seq(n, k => 0.0)
  }

  lemma {:induction false} SumZeros(n: nat)
    ensures Sum(Zeros(n)) == 0.0
  {
    if n > 0 {
      assert Zeros(n)[..n - 1] == Zeros(n - 1);
      SumZeros(n - 1);
    }
  }

  /** Dividing every entry by d divides the sum by d. */
  lemma {:induction false} SumScaled(s: seq<real>, t: seq<real>, d: real)
    requires d != 0.0 && |s| == |t|
    requires forall k :: 0 <= k < |s| ==> t[k] == s[k] / d
    ensures Sum(t) == Sum(s) / d
  {
    if s != [] {
      var n := |s| - 1;
      SumScaled(s[..n], t[..n], d);
    }
  }

  /** Entrywise addition of two sequences adds their sums. */
  lemma {:induction false} SumPointwiseAdd(s: seq<real>, t: seq<real>, u: seq<real>)
    requires |s| == |t| == |u|
    requires forall k :: 0 <= k < |s| ==> u[k] == s[k] + t[k]
    ensures Sum(u) == Sum(s) + Sum(t)
  {
    if s != [] {
      var n := |s| - 1;
      SumPointwiseAdd(s[..n], t[..n], u[..n]);
    }
  }
}
