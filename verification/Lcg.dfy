/** The pseudo-random generator of lib_math.c.  Math_RandSeed computes in 32 unsigned bits
    and reduces modulo 2^31; its period is exactly 2^31 because the multiplier is one more
    than a multiple of 4 and the increment is odd. */
module Lcg {
  import opened Arith
  import opened Words

  const A: nat := 1103515245
  const B: nat := 12345
  const MODULUS: int := 0x8000_0000      // RAND_LCG_PARAM_M + 1
  const RAND_SEED_INIT_VAL: nat := 1

  /** Math_RandSeed, with both wrap-arounds of 32-bit arithmetic. */
  function RandSeed(seed: Word): (r: Word)
    ensures r < MODULUS
  {
    ((A * seed % WORD32 + B) % WORD32) % MODULUS
  }

  class Generator {
    var randSeedCur: Word

    constructor ()
      ensures randSeedCur == 1
    {
      randSeedCur := RAND_SEED_INIT_VAL;
    }

    method RandSetSeed(seed: Word)
      modifies this
      ensures randSeedCur == seed
    {
      randSeedCur := seed;
    }

    method Rand() returns (r: Word)
      modifies this
      ensures r == randSeedCur == RandSeed(old(randSeedCur))
      ensures r == (1103515245 * old(randSeedCur) + 12345) % 0x8000_0000
    {
      var seed := randSeedCur;
      NextIsExact(seed);
      r := RandSeed(seed);
      randSeedCur := r;
    }

    /** n calls in a row. */
    method RandMany(n: nat) returns (rs: seq<Word>)
      modifies this
      ensures |rs| == n && randSeedCur == Iterate(old(randSeedCur), n)
      ensures forall i :: 0 <= i < n ==> rs[i] == Iterate(old(randSeedCur), i + 1)
    {
      rs := [];
      for i := 0 to n
        invariant |rs| == i && randSeedCur == Iterate(old(randSeedCur), i)
        invariant forall j :: 0 <= j < i ==> rs[j] == Iterate(old(randSeedCur), j + 1)
      {
        var r := Rand();
        rs := rs + [r];
      }
    }
  }

  /** The state after n calls of Math_Rand. */
  function Iterate(x: Word, n: nat): Word {
    if n == 0 then x else RandSeed(Iterate(x, n - 1))
  }

  function Power(a: nat, n: nat): nat {
    if n == 0 then 1 else a * Power(a, n - 1)
  }

  /** 1 + a + ... + a^(n-1) */
  function Geometric(a: nat, n: nat): nat {
    if n == 0 then 0 else a * Geometric(a, n - 1) + 1
  }

  /** 2^k divides x. */
  predicate Divides2(k: nat, x: int) {
    k == 0 || (x % 2 == 0 && Divides2(k - 1, x / 2))
  }

  lemma RemainderOfHalf(x: int, m: int)
    requires m > 0
    ensures x % (2 * m) == 2 * (x / 2 % m) + x % 2
  {
    var y := x / 2;
    var q, r := y / m, y % m;
    assert y == m * q + r;
    DivModUnique(x, 2 * m, q, 2 * r + x % 2);
  }

  lemma {:induction false} Divides2Meaning(k: nat, x: int)
    ensures Divides2(k, x) <==> x % Pow2(k) == 0
  {
    if k > 0 {
      Divides2Meaning(k - 1, x / 2);
      RemainderOfHalf(x, Pow2(k - 1));
    }
  }

  lemma {:induction false} Divides2Sum(k: nat, x: int, y: int)
    requires Divides2(k, x)
    ensures Divides2(k, x + y) <==> Divides2(k, y)
  {
    if k > 0 && y % 2 == 0 {
      Divides2Sum(k - 1, x / 2, y / 2);
      assert (x + y) / 2 == x / 2 + y / 2;
    }
  }

  lemma {:induction false} Divides2Zero(k: nat)
    ensures Divides2(k, 0)
  {
    if k > 0 {
      Divides2Zero(k - 1);
    }
  }

  lemma {:induction false} Divides2Multiple(k: nat, x: int, m: int)
    requires Divides2(k, x)
    ensures Divides2(k, x * m)
  {
    if k > 0 {
      Divides2Multiple(k - 1, x / 2, m);
      EvenProduct(x, m);
    }
  }

  lemma EvenProduct(x: int, m: int)
    requires x % 2 == 0
    ensures (x * m) % 2 == 0 && (x * m) / 2 == x / 2 * m
  {
    assert x * m == 2 * (x / 2 * m);
  }

  /** An odd factor does not change how often 2 divides a number. */
  lemma {:induction false} Divides2Odd(k: nat, x: int, h: int)
    ensures Divides2(k, x * (2 * h + 1)) <==> Divides2(k, x)
  {
    if k > 0 {
      assert x * (2 * h + 1) == 2 * (x * h) + x;
      if x % 2 == 0 {
        EvenProduct(x, 2 * h + 1);
        Divides2Odd(k - 1, x / 2, h);
      }
    }
  }

  /** 2^k and no higher power divides 2^k. */
  lemma {:induction false} Divides2Exactly(k: nat)
    ensures Divides2(k, Pow2(k)) && !Divides2(k + 1, Pow2(k))
  {
    if k > 0 {
      Divides2Exactly(k - 1);
    }
  }

  /** Two numbers that both miss 2^(k+1) by the same factor 2 make it up between them. */
  lemma {:induction false} Divides2Halves(k: nat, x: int, y: int)
    requires Divides2(k, x) && !Divides2(k + 1, x)
    requires Divides2(k, y) && !Divides2(k + 1, y)
    ensures Divides2(k + 1, x + y)
  {
    if k > 0 {
      Divides2Halves(k - 1, x / 2, y / 2);
      assert (x + y) / 2 == x / 2 + y / 2;
    } else {
      assert Divides2(0, x / 2) && Divides2(0, y / 2) && Divides2(0, (x + y) / 2);
    }
  }

  lemma Distribute(a: int, p: int, g: int, h: int)
    ensures a * (p * g + h) == (a * p) * g + a * h
  {
    assert a * (p * g + h) == a * (p * g) + a * h;
    assert a * (p * g) == (a * p) * g;
  }

  lemma NextParity(a: int, g: int, n: int)
    requires a % 2 == 1 && g % 2 == (n - 1) % 2
    ensures (a * g + 1) % 2 == n % 2
  {
    var h := a / 2;
    assert a * g == 2 * (h * g) + g;
  }

  lemma {:induction false} GeometricSplits(a: nat, m: nat, n: nat)
    ensures Geometric(a, m + n) == Power(a, n) * Geometric(a, m) + Geometric(a, n)
  {
    if n > 0 {
      GeometricSplits(a, m, n - 1);
      assert Geometric(a, m + n) == a * Geometric(a, m + (n - 1)) + 1;
      Distribute(a, Power(a, n - 1), Geometric(a, m), Geometric(a, n - 1));
    }
  }

  /** Powers of a multiplier that is 1 modulo 4 are 1 modulo 4. */
  lemma {:induction false} PowerMod4(a: nat, n: nat) returns (h: nat)
    requires a % 4 == 1
    ensures Power(a, n) == 4 * h + 1
  {
    if n == 0 {
      h := 0;
    } else {
      var g := PowerMod4(a, n - 1);
      var b := a / 4;
      h := 4 * b * g + b + g;
      assert (4 * b + 1) * (4 * g + 1) == 4 * h + 1;
    }
  }

  lemma {:induction false} GeometricParity(a: nat, n: nat)
    requires a % 2 == 1
    ensures Geometric(a, n) % 2 == n % 2
  {
    if n > 0 {
      GeometricParity(a, n - 1);
      NextParity(a, Geometric(a, n - 1), n);
    }
  }

  lemma DoubledSum(g: int, h: int)
    ensures (4 * h + 1) * g + g == 2 * (g * (2 * h + 1))
  {
  }

  /** 2 divides 1 + a + ... + a^(n-1) exactly as often as it divides n. */
  lemma {:induction false} GeometricDivides(a: nat, n: nat, k: nat)
    requires a % 4 == 1
    ensures Divides2(k, Geometric(a, n)) <==> Divides2(k, n)
    decreases n
  {
    GeometricParity(a, n);
    if n > 0 && k > 0 && n % 2 == 0 {
      var m := n / 2;
      GeometricSplits(a, m, m);
      var h := PowerMod4(a, m);
      var g := Geometric(a, m);
      DoubledSum(g, h);
      assert Geometric(a, n) == 2 * (g * (2 * h + 1));
      Divides2Odd(k - 1, g, h);
      GeometricDivides(a, m, k - 1);
    }
  }

  /** The same iteration over the integers, without any reduction. */
  function Unreduced(x: int, n: nat): int {
    if n == 0 then x else A * Unreduced(x, n - 1) + B
  }

  lemma ClosedStep(a: int, b: int, x: int, u: int, g: int)
    requires u - x == g * ((a - 1) * x + b)
    ensures a * u + b - x == (a * g + 1) * ((a - 1) * x + b)
  {
    var c := (a - 1) * x + b;
    assert a * u + b - x == a * (u - x) + c;
    assert (a * g + 1) * c == a * (g * c) + c;
  }

  lemma {:induction false} UnreducedClosed(x: int, n: nat)
    ensures Unreduced(x, n) - x == Geometric(A, n) * ((A - 1) * x + B)
  {
    if n > 0 {
      UnreducedClosed(x, n - 1);
      ClosedStep(A, B, x, Unreduced(x, n - 1), Geometric(A, n - 1));
    }
  }

  /** Wrapping at 2^32 on the way is harmless, because 2^31 divides 2^32. */
  lemma RandSeedMeans(seed: Word) returns (q: int)
    ensures RandSeed(seed) == A * seed + B - MODULUS * q
  {
    var p := A * seed;
    var q0, r0 := p / WORD32, p % WORD32;
    var q1, r1 := (r0 + B) / WORD32, (r0 + B) % WORD32;
    var q2 := r1 / MODULUS;
    q := 2 * q0 + 2 * q1 + q2;
  }

  /** The two wrap-arounds do not matter: the next number is the one the linear congruence of
      lib_math.h gives. */
  lemma NextIsExact(seed: Word)
    ensures RandSeed(seed) == (1103515245 * seed + 12345) % 0x8000_0000
  {
    var q := RandSeedMeans(seed);
    DivModUnique(1103515245 * seed + 12345, 0x8000_0000, q, RandSeed(seed));
  }

  /** So the numbers are the sequence it gives. */
  lemma IterateIsExact(x: Word, n: nat)
    ensures Iterate(x, 0) == x && Iterate(x, n + 1) == (1103515245 * Iterate(x, n) + 12345) % 0x8000_0000
  {
    NextIsExact(Iterate(x, n));
  }

  lemma Pow2Of31()
    ensures Pow2(31) == MODULUS
  {
    assert Pow2(4) == 0x10 && Pow2(8) == 0x100 && Pow2(12) == 0x1000 && Pow2(16) == 0x1_0000;
    assert Pow2(20) == 0x10_0000 && Pow2(24) == 0x100_0000 && Pow2(28) == 0x1000_0000;
  }

  lemma {:induction false} Divides2Lower(j: nat, k: nat, x: int)
    requires j <= k && Divides2(k, x)
    ensures Divides2(j, x)
  {
    if j > 0 {
      Divides2Lower(j - 1, k - 1, x / 2);
    }
  }

  lemma {:induction false} IterateIsUnreduced(x: Word, n: nat, k: nat)
    requires k <= 31
    ensures Divides2(k, Iterate(x, n) - Unreduced(x, n))
  {
    Divides2Zero(k);
    if n > 0 {
      IterateIsUnreduced(x, n - 1, k);
      var s, u := Iterate(x, n - 1), Unreduced(x, n - 1);
      var q := RandSeedMeans(s);
      Pow2Of31();
      Divides2Exactly(31);
      Divides2Lower(k, 31, MODULUS);
      Divides2Multiple(k, MODULUS, -q);
      Divides2Multiple(k, s - u, A);
      Divides2Sum(k, (s - u) * A, MODULUS * -q);
      assert Iterate(x, n) - Unreduced(x, n) == (s - u) * A + MODULUS * -q;
    }
  }

  lemma OddFactor(x: int) returns (h: int)
    ensures (A - 1) * x + B == 2 * h + 1
  {
    var half := 551757622;
    assert A - 1 == 2 * half && B == 2 * 6172 + 1;
    h := half * x + 6172;
    assert (2 * half) * x == 2 * (half * x);
  }

  lemma UnreducedReturns(x: int, n: nat, k: nat)
    ensures Divides2(k, Unreduced(x, n) - x) <==> Divides2(k, n)
  {
    UnreducedClosed(x, n);
    var h := OddFactor(x);
    var g := Geometric(A, n);
    assert Unreduced(x, n) - x == g * (2 * h + 1);
    Divides2Odd(k, g, h);
    GeometricDivides(A, n, k);
  }

  /** Modulo 2^k the state is back where it was exactly after each multiple of 2^k calls. */
  lemma ReturnsEvery(x: Word, n: nat, k: nat)
    requires k <= 31
    ensures Divides2(k, Iterate(x, n) - x) <==> Divides2(k, n)
  {
    IterateIsUnreduced(x, n, k);
    UnreducedReturns(x, n, k);
    var r, u := Iterate(x, n), Unreduced(x, n);
    Divides2Sum(k, r - u, u - x);
    assert (r - u) + (u - x) == r - x;
  }

  lemma {:induction false} IterateSplits(x: Word, m: nat, n: nat)
    ensures Iterate(x, m + n) == Iterate(Iterate(x, m), n)
  {
    if n > 0 {
      IterateSplits(x, m, n - 1);
      assert m + n - 1 == m + (n - 1);
    }
  }

  lemma StepsApart(x: Word, i: nat, j: nat, k: nat)
    requires i <= j && k <= 31
    ensures Divides2(k, Iterate(x, j) - Iterate(x, i)) <==> Divides2(k, j - i)
  {
    var d: nat := j - i;
    IterateSplits(x, i, d);
    ReturnsEvery(Iterate(x, i), d, k);
  }

  lemma Congruent(k: nat, x: int, y: int)
    ensures x % Pow2(k) == y % Pow2(k) <==> Divides2(k, x - y)
  {
    Divides2Meaning(k, x - y);
    SameRemainder(x, y, Pow2(k));
  }

  /** The low k bits of the sequence have period exactly 2^k, from any seed whatever. */
  lemma LowBitsPeriod(x: Word, i: nat, j: nat, k: nat)
    requires i <= j && k <= 31
    ensures Iterate(x, j) % Pow2(k) == Iterate(x, i) % Pow2(k) <==> (j - i) % Pow2(k) == 0
  {
    StepsApart(x, i, j, k);
    SameLowBits(k, Iterate(x, j), Iterate(x, i), j - i);
  }

  lemma SameLowBits(k: nat, s: int, t: int, d: int)
    requires Divides2(k, s - t) <==> Divides2(k, d)
    ensures s % Pow2(k) == t % Pow2(k) <==> d % Pow2(k) == 0
  {
    Congruent(k, s, t);
    Divides2Meaning(k, d);
  }

  lemma SameRemainder(x: int, y: int, m: nat)
    requires m > 0
    ensures x % m == y % m <==> (x - y) % m == 0
  {
    var q := x / m - y / m;
    assert x - y == m * q + (x % m - y % m);
    if x % m == y % m {
      DivModUnique(x - y, m, q, 0);
    } else if x % m > y % m {
      DivModUnique(x - y, m, q, x % m - y % m);
    } else {
      assert x - y == m * (q - 1) + (m + x % m - y % m);
      DivModUnique(x - y, m, q - 1, m + x % m - y % m);
    }
  }

  /** If call n agrees with y in the low k bits but not in bit k, call n + 2^k agrees in both. */
  lemma Lifts(x: Word, y: int, n: nat, k: nat)
    requires k < 31 && Divides2(k, Iterate(x, n) - y) && !Divides2(k + 1, Iterate(x, n) - y)
    ensures Divides2(k + 1, Iterate(x, n + Pow2(k)) - y)
  {
    var m := Pow2(k);
    Divides2Exactly(k);
    StepsApart(x, n, n + m, k);
    StepsApart(x, n, n + m, k + 1);
    var s, t := Iterate(x, n), Iterate(x, n + m);
    Divides2Halves(k, t - s, s - y);
    assert (t - s) + (s - y) == t - y;
  }

  /** Some call among the first 2^k agrees with y in the low k bits. */
  lemma {:induction false} Reaches(x: Word, y: int, k: nat) returns (n: nat)
    requires k <= 31
    ensures n < Pow2(k) && Divides2(k, Iterate(x, n) - y)
  {
    if k == 0 {
      n := 0;
    } else {
      n := Reaches(x, y, k - 1);
      if !Divides2(k, Iterate(x, n) - y) {
        Lifts(x, y, n, k - 1);
        n := n + Pow2(k - 1);
      }
    }
  }

  lemma SmallMultiple(x: int)
    requires Divides2(31, x) && -MODULUS < x < MODULUS
    ensures x == 0
  {
    Pow2Of31();
    Divides2Meaning(31, x);
  }

  lemma {:induction false} IterateInRange(x: Word, n: nat)
    requires x < MODULUS
    ensures Iterate(x, n) < MODULUS
  {
  }

  /** The period is exactly 2^31. */
  lemma Period(x: Word, n: nat)
    requires x < 0x8000_0000
    ensures Iterate(x, n) == x <==> n % 0x8000_0000 == 0
  {
    IterateInRange(x, n);
    ReturnsEvery(x, n, 31);
    Divides2Zero(31);
    Pow2Of31();
    Divides2Meaning(31, n);
    if Divides2(31, Iterate(x, n) - x) {
      SmallMultiple(Iterate(x, n) - x);
    }
  }

  lemma ComesUpOnce(x: Word, m: nat, n: nat)
    requires m <= n < MODULUS && Iterate(x, m) == Iterate(x, n)
    ensures m == n
  {
    StepsApart(x, m, n, 31);
    Divides2Zero(31);
    SmallMultiple(n - m);
  }

  /** Full period: from any state, each of the 2^31 values comes up once, and only once, in
      any 2^31 calls in a row. */
  lemma FullPeriod(x: Word, y: Word) returns (n: nat)
    requires x < 0x8000_0000 && y < 0x8000_0000
    ensures n < 0x8000_0000 && Iterate(x, n) == y
    ensures forall m: nat :: m < 0x8000_0000 && Iterate(x, m) == y ==> m == n
  {
    Pow2Of31();
    n := Reaches(x, y, 31);
    IterateInRange(x, n);
    SmallMultiple(Iterate(x, n) - y);
    forall m: nat | m < MODULUS && Iterate(x, m) == y ensures m == n {
      if m <= n {
        ComesUpOnce(x, m, n);
      } else {
        ComesUpOnce(x, n, m);
      }
    }
  }
}
