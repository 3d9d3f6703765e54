/** The straight line of stm322xg_eval_lcd.c, in 16-bit variables. */
module Line {
  import opened Arith
  import opened Pixels
  import opened Words

  /** Offset along the minor axis after k steps along the major one: k * numadd / den, rounded
      to the nearest integer. */
  function Minor(k: nat, numadd: nat, den: nat): (m: nat) {
    if den == 0 then 0 else (k * numadd + den / 2) / den
  }

  /** The true line passes within half a pixel. */
  lemma MinorIsNearest(k: nat, numadd: nat, den: nat)
    requires den > 0
    ensures -(den as int) <= 2 * (den * Minor(k, numadd, den) - k * numadd) <= den
  {
    var n := k * numadd + den / 2;
    assert n == den * (n / den) + n % den;
  }

  /** The line ends where it should. */
  lemma MinorEnds(numadd: nat, den: nat)
    requires numadd <= den
    ensures Minor(0, numadd, den) == 0 && Minor(den, numadd, den) == numadd
  {
    if den > 0 {
      DivModUnique(den * numadd + den / 2, den, numadd, den / 2);
      DivModUnique(0 * numadd + den / 2, den, 0, den / 2);
    }
  }

  /** What is left over, in units of 1 / den. */
  function Residue(k: nat, numadd: nat, den: nat): (r: nat)
    ensures den > 0 ==> r < den
  {
    if den == 0 then 0 else (k * numadd + den / 2) % den
  }

  /** The residue alone decides each step: one comparison replaces the division. */
  lemma MinorSteps(k: nat, numadd: nat, den: nat)
    requires den > 0 && numadd <= den
    ensures var num := Residue(k, numadd, den) + numadd;
            if num >= den then
              Residue(k + 1, numadd, den) == num - den && Minor(k + 1, numadd, den) == Minor(k, numadd, den) + 1
            else
              Residue(k + 1, numadd, den) == num && Minor(k + 1, numadd, den) == Minor(k, numadd, den)
  {
    var n := k * numadd + den / 2;
    var m, num := n / den, n % den + numadd;
    assert n == den * m + n % den;
    assert (k + 1) * numadd + den / 2 == n + numadd;
    if num >= den {
      assert den * (m + 1) == den * m + den;
      DivModUnique(n + numadd, den, m + 1, num - den);
    } else {
      DivModUnique(n + numadd, den, m, num);
    }
  }

  /** Point k of the line from (x1, y1) to (x2, y2), before it is cut to 16 bits. */
  function Point(x1: int, y1: int, x2: int, y2: int, k: nat): Pixel {
    var dx, dy := Abs(x2 - x1), Abs(y2 - y1);
    var minor := Minor(k, Min(dx, dy), Max(dx, dy));
    if dx >= dy then Pixel(Towards(x1, x2, k), Towards(y1, y2, minor))
    else Pixel(Towards(x1, x2, minor), Towards(y1, y2, k))
  }

  function Towards(from: int, to: int, steps: int): int {
    if to >= from then from + steps else from - steps
  }

  /** Along the major axis a step each time, along the minor one the nearest offset, a tie counting
      as a step; both towards the other end. */
  lemma PointMeans(x1: int, y1: int, x2: int, y2: int, k: nat)
    ensures var p, dx, dy := Point(x1, y1, x2, y2, k), Abs(x2 - x1), Abs(y2 - y1);
            if dx >= dy then
              && p.x == (if x2 >= x1 then x1 + k else x1 - k) && (if y2 >= y1 then p.y >= y1 else p.y <= y1)
              && if dx == 0 then p.y == y1 else 0 <= k * dy + dx / 2 - dx * Abs(p.y - y1) < dx
            else
              && p.y == (if y2 >= y1 then y1 + k else y1 - k) && (if x2 >= x1 then p.x >= x1 else p.x <= x1)
              && 0 <= k * dx + dy / 2 - dy * Abs(p.x - x1) < dy
  {
    var dx, dy := Abs(x2 - x1), Abs(y2 - y1);
    var den, numadd := Max(dx, dy), Min(dx, dy);
    MinorMeans(k, numadd, den);
    var m := Minor(k, numadd, den);
    assert Abs(Towards(x1, x2, m) - x1) == m && Abs(Towards(y1, y2, m) - y1) == m;
  }

  lemma MinorMeans(k: nat, numadd: nat, den: nat)
    ensures if den == 0 then Minor(k, numadd, den) == 0
            else 0 <= k * numadd + den / 2 - den * Minor(k, numadd, den) < den
  {
    if den > 0 {
      QuotientParts(k * numadd + den / 2, den);
    }
  }

  /** The line joins its two ends exactly. */
  lemma PointEnds(x1: int, y1: int, x2: int, y2: int)
    ensures Point(x1, y1, x2, y2, 0) == Pixel(x1, y1)
    ensures Point(x1, y1, x2, y2, Max(Abs(x2 - x1), Abs(y2 - y1))) == Pixel(x2, y2)
  {
    var dx, dy := Abs(x2 - x1), Abs(y2 - y1);
    MinorEnds(Min(dx, dy), Max(dx, dy));
  }

  /** Consecutive points are neighbours, and never the same point. */
  lemma PointsAreConnected(x1: int, y1: int, x2: int, y2: int, k: nat)
    ensures var p, q := Point(x1, y1, x2, y2, k), Point(x1, y1, x2, y2, k + 1);
            -1 <= q.x - p.x <= 1 && -1 <= q.y - p.y <= 1 && p != q
  {
    var dx, dy := Abs(x2 - x1), Abs(y2 - y1);
    if dx > 0 || dy > 0 {
      MinorSteps(k, Min(dx, dy), Max(dx, dy));
    }
  }

  function Cut(p: Pixel): Pixel {
    Pixel(Signed16(p.x), Signed16(p.y))
  }

  lemma CutMoves(x: int, d: int)
    ensures Signed16(Signed16(x) + d) == Signed16(x + d)
  {
    var carry := if x % WORD16 >= 0x8000 then 1 else 0;
    MultipleMod(x / WORD16 + carry, WORD16, Signed16(x) + d);
  }

  /** Neighbouring coordinates differ in 16 bits as well. */
  lemma NeighboursDiffer(x: int, y: int)
    requires x - y == 1 || y - x == 1
    ensures Signed16(x) != Signed16(y)
  {
    CutMoves(y, x - y);
  }

  /** One coordinate after a round: inc1 is added only when the numerator overflows. */
  method Move(ghost from: int, c: int, inc1: int, inc2: int, carry: bool) returns (c': int)
    ensures c == Signed16(from) ==> c' == Signed16(from + (if carry then inc1 else 0) + inc2)
  {
    c' := c;
    if carry {
      CutMoves(from, inc1);
      c' := Signed16(c' + inc1);
    }
    CutMoves(if carry then from + inc1 else from, inc2);
    c' := Signed16(c' + inc2);
  }

  /** The numerator does not fit in 16 bits when numadd is added after k rounds. */
  predicate OverflowsAt(numadd: nat, den: nat, k: nat) {
    k < den && Residue(k, numadd, den) + numadd >= 0x8000
  }

  /** The numerator after a round: what is left over, unless it has overflowed, and then a carry is
      missed. */
  method Carry(num: int, numadd: nat, den: nat, ghost k: nat) returns (num': int, carry: bool)
    requires numadd <= den < 0x8000
    ensures k < den && num == Residue(k, numadd, den) ==>
              && carry == (StepsAside(numadd, den, k) && !OverflowsAt(numadd, den, k))
              && (OverflowsAt(numadd, den, k) ==> StepsAside(numadd, den, k))
              && (!OverflowsAt(numadd, den, k) ==> num' == Residue(k + 1, numadd, den))
  {
    if k < den {
      MinorSteps(k, numadd, den);
    }
    num' := Signed16(num + numadd);
    carry := num' >= den;
    if carry {
      num' := num' - den;
    }
  }

  /** The true line takes a step along the minor axis. */
  predicate StepsAside(numadd: nat, den: nat, k: nat) {
    Minor(k + 1, numadd, den) > Minor(k, numadd, den)
  }

  function Moved(p: Pixel, xinc1: int, xinc2: int, yinc1: int, yinc2: int, carry: bool): Pixel {
    Pixel(p.x + (if carry then xinc1 else 0) + xinc2, p.y + (if carry then yinc1 else 0) + yinc2)
  }

  /** One point of the line leads to the next. */
  lemma NextPoint(x1: int, y1: int, x2: int, y2: int, k: nat)
    requires k < Max(Abs(x2 - x1), Abs(y2 - y1))
    ensures var dx, dy := Abs(x2 - x1), Abs(y2 - y1);
            var xinc, yinc := Towards(0, x2 - x1, 1), Towards(0, y2 - y1, 1);
            var aside := StepsAside(Min(dx, dy), Max(dx, dy), k);
            Point(x1, y1, x2, y2, k + 1) ==
            if dx >= dy then Moved(Point(x1, y1, x2, y2, k), 0, xinc, yinc, 0, aside)
            else Moved(Point(x1, y1, x2, y2, k), xinc, 0, 0, yinc, aside)
  {
    var dx, dy := Abs(x2 - x1), Abs(y2 - y1);
    MinorSteps(k, Min(dx, dy), Max(dx, dy));
  }

  /** The increments of the two axes. */
  method Increments(c1: int, c2: int, major: bool) returns (inc1: int, inc2: int)
    ensures inc1 == (if major then 0 else Towards(0, c2 - c1, 1))
    ensures inc2 == (if major then Towards(0, c2 - c1, 1) else 0)
  {
    if c2 >= c1 {
      inc1, inc2 := 1, 1;
    } else {
      inc1, inc2 := -1, -1;
    }
    if major {
      inc1 := 0;
    } else {
      inc2 := 0;
    }
  }

  /** The loop counter before round k. */
  function Counter(k: nat): int {
    if k == 0 then 0 else Signed16(Counter(k - 1) + 1)
  }

  lemma {:induction false} CounterIs(k: nat)
    ensures Counter(k) == Signed16(k)
  {
    if k > 0 {
      CounterIs(k - 1);
      CutMoves(k - 1, 1);
    }
  }

  /** The counter passes the number of pixels, and the loop ends, if and only if that number is
      below the greatest 16-bit number: the counter wraps around instead of exceeding it. */
  lemma LoopEnds(numpixels: int)
    requires -0x8000 <= numpixels < 0x8000
    ensures (exists k: nat :: Counter(k) > numpixels) <==> numpixels < 0x7FFF
  {
    if numpixels < 0x7FFF {
      CounterIs(0x7FFF);
      assert Counter(0x7FFF) > numpixels;
    } else {
      forall k: nat ensures Counter(k) <= numpixels {
        CounterIs(k);
      }
    }
  }

  /** One round of the loop: it gives the next point if the numerator does not overflow, and
      another one if it does. */
  method Step(ghost from: Pixel, ghost k: nat, num: int, numadd: nat, den: nat,
              x: int, y: int, xinc1: int, xinc2: int, yinc1: int, yinc2: int)
    returns (num': int, x': int, y': int)
    requires numadd <= den < 0x8000
    requires (xinc1 == 0 && -1 <= yinc1 <= 1 && yinc1 != 0) || (-1 <= xinc1 <= 1 && xinc1 != 0 && yinc1 == 0)
    ensures k < den && num == Residue(k, numadd, den) && Pixel(x, y) == Cut(from) ==>
              var next := Moved(from, xinc1, xinc2, yinc1, yinc2, StepsAside(numadd, den, k));
              if OverflowsAt(numadd, den, k) then Pixel(x', y') != Cut(next)
              else num' == Residue(k + 1, numadd, den) && Pixel(x', y') == Cut(next)
  {
    var carry;
    num', carry := Carry(num, numadd, den, k);
    x' := Move(from.x, x, xinc1, xinc2, carry);
    y' := Move(from.y, y, yinc1, yinc2, carry);
    if xinc1 != 0 {
      NeighboursDiffer(from.x + xinc2, from.x + xinc1 + xinc2);
    } else {
      NeighboursDiffer(from.y + yinc2, from.y + yinc1 + yinc2);
    }
  }

  /** The numerator overflows in some round. */
  ghost predicate Overflows(numadd: nat, den: nat) {
    exists k: nat :: OverflowsAt(numadd, den, k)
  }

  /** Pixels are these points, in 16 bits. */
  ghost predicate Shows(pixels: seq<Pixel>, points: seq<Pixel>) {
    |pixels| == |points| && forall k :: 0 <= k < |pixels| ==> pixels[k] == Cut(points[k])
  }

  /** The loop of LCD_DrawUniLine: it draws the true points if and only if num never overflows. */
  method DrawPoints(ghost points: seq<Pixel>, x1: int, y1: int, numadd: nat, den: nat,
                    xinc1: int, xinc2: int, yinc1: int, yinc2: int)
    returns (pixels: seq<Pixel>)
    requires numadd <= den < 0x7FFF && |points| == den + 1 && Pixel(x1, y1) == Cut(points[0])
    requires (xinc1 == 0 && -1 <= yinc1 <= 1 && yinc1 != 0) || (-1 <= xinc1 <= 1 && xinc1 != 0 && yinc1 == 0)
    requires forall k :: 0 <= k < den ==>
               points[k + 1] == Moved(points[k], xinc1, xinc2, yinc1, yinc2, StepsAside(numadd, den, k))
    ensures |pixels| == den + 1 && (Shows(pixels, points) <==> !Overflows(numadd, den))
  {
    var num: int := den / 2;
    ResidueStarts(numadd, den);
    pixels := [];
    var x, y, curpixel := x1, y1, 0;
    ghost var wrong: nat := den + 1;       // the first point that is not the true one, if there is one
    while curpixel <= den
      invariant 0 <= curpixel == |pixels| <= den + 1 && 0 < wrong <= den + 1
      invariant wrong == den + 1 ==>
                  && (forall k: nat :: k < curpixel ==> !OverflowsAt(numadd, den, k))
                  && (forall k :: 0 <= k < curpixel ==> pixels[k] == Cut(points[k]))
                  && (curpixel <= den ==> num == Residue(curpixel, numadd, den) && Pixel(x, y) == Cut(points[curpixel]))
      invariant wrong <= den ==>
                  && wrong <= curpixel && OverflowsAt(numadd, den, wrong - 1)
                  && (if wrong < curpixel then pixels[wrong] else Pixel(x, y)) != Cut(points[wrong])
      decreases den + 1 - curpixel
    {
      pixels := pixels + [Pixel(x, y)];
      num, x, y := Step(points[curpixel], curpixel, num, numadd, den, x, y, xinc1, xinc2, yinc1, yinc2);
      if wrong == den + 1 && OverflowsAt(numadd, den, curpixel) {
        wrong := curpixel + 1;
      }
      curpixel := Signed16(curpixel + 1);
    }
    if wrong <= den {
      assert pixels[wrong] != Cut(points[wrong]);
    }
  }

  /** The points of the line. */
  function Points(x1: int, y1: int, x2: int, y2: int): (ps: seq<Pixel>)
    ensures |ps| == Max(Abs(x2 - x1), Abs(y2 - y1)) + 1
  {
    seq(Max(Abs(x2 - x1), Abs(y2 - y1)) + 1, (k: nat) => Point(x1, y1, x2, y2, k))
  }

  /** LCD_DrawUniLine.  Every variable is a signed 16-bit number, so the loop ends only if both
      differences are below 2^15 - 1 (see LoopEnds).  The line drawn is the true one if and only if
      num never overflows. */
  method DrawUniLine(x1: nat, y1: nat, x2: nat, y2: nat) returns (pixels: seq<Pixel>)
    requires x1 < WORD16 && y1 < WORD16 && x2 < WORD16 && y2 < WORD16
    requires Max(Abs(x2 - x1), Abs(y2 - y1)) < 0x7FFF
    ensures |pixels| == Max(Abs(x2 - x1), Abs(y2 - y1)) + 1
    ensures (forall k :: 0 <= k < |pixels| ==>
               pixels[k] == Pixel(Signed16(Point(x1, y1, x2, y2, k).x), Signed16(Point(x1, y1, x2, y2, k).y))) <==>
              FitsNumerator(Min(Abs(x2 - x1), Abs(y2 - y1)), Max(Abs(x2 - x1), Abs(y2 - y1)))
  {
    var deltax, deltay := Signed16(Abs(x2 - x1)), Signed16(Abs(y2 - y1));
    var xinc1, xinc2 := Increments(x1, x2, deltax >= deltay);
    var yinc1, yinc2 := Increments(y1, y2, deltax < deltay);
    var den, numadd := Max(deltax, deltay), Min(deltax, deltay);
    ghost var points := Points(x1, y1, x2, y2);
    PointEnds(x1, y1, x2, y2);
    forall k | 0 <= k < den
      ensures points[k + 1] == Moved(points[k], xinc1, xinc2, yinc1, yinc2, StepsAside(numadd, den, k))
    {
      NextPoint(x1, y1, x2, y2, k);
    }
    OverflowsExactly(numadd, den);
    pixels := DrawPoints(points, Signed16(x1), Signed16(y1), numadd, den, xinc1, xinc2, yinc1, yinc2);
    assert forall k :: 0 <= k < |points| ==> points[k] == Point(x1, y1, x2, y2, k);
  }

  /** A line of five points. */
  lemma ShortLine()
    ensures Points(0, 0, 4, 2) == [Pixel(0, 0), Pixel(1, 1), Pixel(2, 1), Pixel(3, 2), Pixel(4, 2)] && FitsNumerator(2, 4)
  {
    assert Minor(0, 2, 4) == 0 && Minor(1, 2, 4) == 1 && Minor(2, 2, 4) == 1;
    assert Minor(3, 2, 4) == 2 && Minor(4, 2, 4) == 2;
  }

  function Gcd(a: nat, b: nat): (g: nat)
    requires a > 0 || b > 0
    ensures g > 0
    decreases b
  {
    if b == 0 then a else Gcd(b, a % b)
  }

  lemma CombinationStep(a: int, b: int, t: int, r: int, x: int, y: int, g: int)
    requires a == b * t + r && b * x + r * y == g
    ensures a * y + b * (x - t * y) == g
  {
    assert (b * t + r) * y == (b * t) * y + r * y;
    assert b * (x - t * y) == b * x - b * (t * y);
    Associate(b, t, y);
  }

  lemma DivisorStep(a: int, b: int, t: nat, r: int, g: int, p: nat, q: nat)
    requires a == b * t + r && b == g * p && r == g * q
    ensures a == g * (p * t + q) && p * t + q >= 0
  {
    assert g * (p * t + q) == g * (p * t) + g * q;
    Associate(g, p, t);
    NonNegative(p, t);
  }

  lemma EuclidStep(a: nat, b: nat, t: nat, r: nat)
    requires b > 0 && t == a / b && r == a % b
    ensures a == b * t + r && Gcd(a, b) == Gcd(b, r)
  {
  }

  /** The greatest common divisor divides both numbers and is a combination of them. */
  lemma {:induction false} Bezout(a: nat, b: nat) returns (x: int, y: int, p: nat, q: nat)
    requires a > 0 || b > 0
    ensures a * x + b * y == Gcd(a, b) && a == Gcd(a, b) * p && b == Gcd(a, b) * q
    decreases b, 0
  {
    if b == 0 {
      x, y, p, q := 1, 0, 1, 0;
    } else {
      var t, r := a / b, a % b;
      EuclidStep(a, b, t, r);
      x, y, p, q := BezoutStep(a, b, t, r);
    }
  }

  lemma {:induction false} BezoutStep(a: nat, b: nat, t: nat, r: nat) returns (x: int, y: int, p: nat, q: nat)
    requires r < b && a == b * t + r
    ensures a * x + b * y == Gcd(b, r) && a == Gcd(b, r) * p && b == Gcd(b, r) * q
    decreases r, 1
  {
    var x', y', p', q' := Bezout(b, r);
    CombinationStep(a, b, t, r, x', y', Gcd(b, r));
    DivisorStep(a, b, t, r, Gcd(b, r), p', q');
    x, y, p, q := y', x' - t * y', p' * t + q', p';
  }

  /** What is left over is at most den - g plus what den / 2 leaves modulo g, where g is the greatest
      common divisor. */
  function Highest(numadd: nat, den: nat): int
    requires den > 0
  {
    den - Gcd(den, numadd) + den / 2 % Gcd(den, numadd)
  }

  /** A number below g * p is at most the greatest one with its remainder. */
  lemma AtMostHighest(r: nat, g: nat, p: nat)
    requires g > 0 && r < g * p
    ensures r <= g * p - g + r % g
  {
    var t := r / g;
    assert r == g * t + r % g;
    if t >= p {
      Monotone(g, p, t);
    }
    Monotone(g, t, p - 1);
    assert g * (p - 1) == g * p - g;
  }

  lemma ResidueAtMost(k: nat, numadd: nat, den: nat)
    requires den > 0
    ensures Residue(k, numadd, den) <= Highest(numadd, den)
  {
    var x, y, p, q := Bezout(den, numadd);
    var n := k * numadd + den / 2;
    QuotientParts(n, den);
    SharedRemainder(Gcd(den, numadd), p, q, k, n / den, n % den, den / 2);
    AtMostHighest(n % den, Gcd(den, numadd), p);
  }

  lemma QuotientParts(a: nat, b: nat)
    requires b > 0
    ensures a == b * (a / b) + a % b
  {
  }

  /** What k rounds leave differs from h by a multiple of g. */
  lemma SharedRemainder(g: nat, p: nat, q: nat, k: nat, t: int, r: nat, h: nat)
    requires g > 0 && k * (g * q) + h == (g * p) * t + r
    ensures r % g == h % g
  {
    Associate(g, p, t);
    assert k * (g * q) == g * (k * q);
    assert g * (k * q - p * t) == g * (k * q) - g * (p * t);
    MultipleMod(k * q - p * t, g, h);
  }

  /** Some round leaves as much. */
  lemma ResidueReaches(numadd: nat, den: nat) returns (k: nat)
    requires den > 0
    ensures k < den && Residue(k, numadd, den) == Highest(numadd, den)
  {
    var x, y, p, q := Bezout(den, numadd);
    var g, h := Gcd(den, numadd), den / 2;
    var t := p - 1 - h / g;
    HighestIs(g, p, h, t);
    k := (y * t) % den;
    var s := (y * t) / den;
    assert y * t == den * s + k;
    SumOfRounds(den, numadd, x, y, g, t, s, k);
    DivModUnique(k * numadd + h, den, -(x * t + s * numadd), Highest(numadd, den));
  }

  /** The highest residue is h plus a multiple of g. */
  lemma HighestIs(g: nat, p: nat, h: nat, t: int)
    requires g > 0 && g * p > 0 && t == p - 1 - h / g
    ensures g * t + h == g * p - g + h % g
    ensures 0 <= g * p - g + h % g < g * p
  {
    assert h == g * (h / g) + h % g;
    assert g * t == g * p - g - g * (h / g);
    Monotone(g, 1, p);
  }

  lemma SumOfRounds(den: int, numadd: int, x: int, y: int, g: int, t: int, s: int, k: int)
    requires den * x + numadd * y == g && y * t == den * s + k
    ensures k * numadd == den * -(x * t + s * numadd) + g * t
  {
    assert (den * x + numadd * y) * t == (den * x) * t + (numadd * y) * t;
    Associate(den, x, t);
    Associate(numadd, y, t);
    assert numadd * (den * s + k) == numadd * (den * s) + numadd * k;
    assert numadd * (den * s) == den * (s * numadd);
    assert den * -(x * t + s * numadd) == -(den * (x * t)) - den * (s * numadd);
  }

  predicate FitsNumerator(numadd: nat, den: nat) {
    den > 0 ==> Highest(numadd, den) + numadd < 0x8000
  }

  /** So whether the numerator overflows can be told before the line is drawn. */
  lemma OverflowsExactly(numadd: nat, den: nat)
    ensures Overflows(numadd, den) <==> !FitsNumerator(numadd, den)
  {
    if den > 0 {
      var k := ResidueReaches(numadd, den);
      if !FitsNumerator(numadd, den) {
        assert OverflowsAt(numadd, den, k);
      }
      if l: nat :| OverflowsAt(numadd, den, l) {
        ResidueAtMost(l, numadd, den);
      }
    }
  }

  lemma ResidueStarts(numadd: nat, den: nat)
    ensures Residue(0, numadd, den) == den / 2
  {
    if den > 0 {
      DivModUnique(0 * numadd + den / 2, den, 0, den / 2);
    }
  }
}
