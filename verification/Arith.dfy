/** Facts about products and remainders that the solver does not find by itself. */
module Arith {

  function Abs(x: int): (m: int)
    ensures m >= 0 && (m == x || m == -x)
  {
    if x > 0 then x else -x
  }

  function Min(x: int, y: int): (m: int)
    ensures m <= x && m <= y && (m == x || m == y)
  {
    if x < y then x else y
  }

  function Max(x: int, y: int): (m: int)
    ensures x <= m && y <= m && (m == x || m == y)
  {
    if x < y then y else x
  }

  lemma NonNegative(x: int, y: int)
    requires 0 <= x && 0 <= y
    ensures 0 <= x * y
  {
  }

  lemma Monotone(d: int, x: int, y: int)
    requires 0 <= d && x <= y
    ensures d * x <= d * y
  {
    NonNegative(d, y - x);
    assert d * y == d * x + d * (y - x);
  }

  lemma ScaledUp(k: int, p: int)
    requires k >= 1 && p >= 0
    ensures k * p >= p
  {
    NonNegative(k - 1, p);
    assert k * p == (k - 1) * p + p;
  }

  lemma Distance(d: int, t: int)
    requires d > 0 && t != 0
    ensures d * t <= -d || d <= d * t
  {
    if t > 0 {
      NonNegative(d, t - 1);
      assert d * t == d * (t - 1) + d;
    } else {
      NonNegative(d, -t - 1);
      assert d * t == -(d * (-t - 1)) - d;
    }
  }

  lemma Associate(k: int, p: int, q: int)
    ensures k * (p * q) == (k * p) * q
  {
  }

  /** Quotient and remainder are unique. */
  lemma DivModUnique(x: int, d: int, q: int, r: int)
    requires 0 <= r < d && x == d * q + r
    ensures x % d == r && x / d == q
  {
    var q', r' := x / d, x % d;
    assert d * (q - q') == r' - r;
    if q != q' {
      Distance(d, q - q');
    }
  }

  lemma MultipleMod(k: int, d: int, r: int)
    requires d > 0
    ensures (d * k + r) % d == r % d
  {
    var q := r / d;
    assert r == d * q + r % d;
    assert d * k + r == d * (k + q) + r % d;
    DivModUnique(d * k + r, d, k + q, r % d);
  }

  /** The remainder of one multiple of d by another is a multiple of d. */
  lemma RemainderOfMultiples(d: int, a: int, b: int)
    requires d > 0 && b > 0 && a % d == 0 && b % d == 0
    ensures a % b % d == 0
  {
    var x, y, q, r := a / d, b / d, a / b, a % b;
    assert a == d * x && b == d * y && a == b * q + r;
    assert (d * y) * q == d * (y * q);
    DivModUnique(r, d, x - y * q, 0);
  }

  lemma RemainderIsLess(x: nat, q: nat)
    requires q > 0
    ensures x % q <= x && (x % q == x <==> x < q)
  {
    if x < q {
      DivModUnique(x, q, 0, x);
    }
  }

  lemma SubsetSize<T>(a: set<T>, b: set<T>)
    requires a <= b
    ensures |a| <= |b| && (|a| == |b| ==> a == b)
  {
    assert b == a + (b - a);
  }
}
