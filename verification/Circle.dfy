/** The midpoint circle of stm322xg_eval_lcd.c. */
module Circle {
  import opened Arith
  import opened Pixels
  import opened Words

  /** y is the integer nearest to the square root of radius * radius - x * x: the true
      ordinate exists and lies strictly between y - 1/2 and y + 1/2. */
  predicate Nearest(x: int, y: int, radius: int) {
    var four := 4 * (radius * radius - x * x);
    y >= 0 && 0 <= four < (2 * y + 1) * (2 * y + 1) && (y >= 1 ==> (2 * y - 1) * (2 * y - 1) < four)
  }

  /** Squares as sums of odd numbers, which is how the loop arrives at them. */
  function Square(n: nat): nat {
    if n == 0 then 0 else Square(n - 1) + 2 * n - 1
  }

  lemma {:induction false} SquareIs(n: nat)
    ensures Square(n) == n * n
  {
    if n > 0 {
      SquareIs(n - 1);
      Binomial(n - 1);
    }
  }

  lemma Binomial(n: int)
    ensures (n + 1) * (n + 1) == n * n + 2 * n + 1
  {
  }

  /** How far a point is outside the circle. */
  function Excess(x: nat, y: nat, radius: nat): int {
    Square(x) + Square(y) - Square(radius)
  }

  /** What the loop keeps instead of Nearest. */
  predicate Close(x: nat, y: nat, radius: nat) {
    -(y as int) <= Excess(x, y, radius) <= if y >= 1 then y - 1 else 0
  }

  lemma CloseIsNearest(x: nat, y: nat, radius: nat)
    ensures Close(x, y, radius) <==> Nearest(x, y, radius)
  {
    SquareIs(x);
    SquareIs(y);
    SquareIs(radius);
    HalfWay(y);
  }

  lemma HalfWay(y: int)
    ensures (2 * y - 1) * (2 * y - 1) == 4 * (y * y) - 4 * y + 1
    ensures (2 * y + 1) * (2 * y + 1) == 4 * (y * y) + 4 * y + 1
  {
  }

  /** An ordinate that is not too low is not below the nearest one. */
  lemma NotAbove(x: nat, y: nat, z: nat, radius: nat)
    requires Excess(x, y, radius) >= -(y as int) && Close(x, z, radius)
    ensures z <= y
  {
    if z > y {
      Farther(y, z);
    }
  }

  lemma {:induction false} Farther(y: nat, z: nat)
    requires y < z
    ensures Square(z) - z >= Square(y) + y
  {
    if y + 1 < z {
      Farther(y, z - 1);
    }
  }

  /** There is at most one nearest ordinate. */
  lemma NearestUnique(x: nat, y: nat, z: nat, radius: nat)
    requires Nearest(x, y, radius) && Nearest(x, z, radius)
    ensures y == z
  {
    CloseIsNearest(x, y, radius);
    CloseIsNearest(x, z, radius);
    NotAbove(x, y, z, radius);
    NotAbove(x, z, y, radius);
  }

  /** The eight pixels drawn for one point of the octant, before they are cut to 16 bits. */
  function Eight(cx: int, cy: int, x: int, y: int): seq<Pixel> {
    [Pixel(cx + x, cy + y), Pixel(cx + x, cy - y), Pixel(cx - x, cy + y), Pixel(cx - x, cy - y),
     Pixel(cx + y, cy + x), Pixel(cx + y, cy - x), Pixel(cx - y, cy + x), Pixel(cx - y, cy - x)]
  }

  /** What LCD_SetCursor makes of coordinates: its parameters are unsigned and have 16 bits. */
  function Cut(p: Pixel): Pixel {
    Pixel(p.x % WORD16, p.y % WORD16)
  }

  function Shown(pixels: seq<Pixel>): (s: seq<Pixel>)
    ensures |s| == |pixels| && forall i :: 0 <= i < |s| ==> s[i] == Pixel(pixels[i].x % 0x1_0000, pixels[i].y % 0x1_0000)
  {
    seq(|pixels|, i requires 0 <= i < |pixels| => Cut(pixels[i]))
  }

  /** The pixels for the ordinates ys above the abscissas 0, 1, 2 and so on. */
  function Octants(cx: int, cy: int, ys: seq<nat>): seq<Pixel> {
    if ys == [] then []
    else Octants(cx, cy, ys[..|ys| - 1]) + Eight(cx, cy, |ys| - 1, ys[|ys| - 1])
  }

  /** An exact octant: every abscissa up to the diagonal once, each with its nearest ordinate. */
  predicate Exact(ys: seq<nat>, radius: nat) {
    forall x :: 0 <= x < |ys| ==> x <= ys[x] && Nearest(x, ys[x], radius)
  }

  /** ... and none is missing. */
  ghost predicate Complete(ys: seq<nat>, radius: nat) {
    forall x: nat, y: nat :: |ys| <= x && Nearest(x, y, radius) ==> y < x
  }

  predicate AllClose(ys: seq<nat>, radius: nat) {
    forall x :: 0 <= x < |ys| ==> x <= ys[x] && Close(x, ys[x], radius)
  }

  lemma AllCloseIsExact(ys: seq<nat>, radius: nat)
    ensures AllClose(ys, radius) <==> Exact(ys, radius)
  {
    forall x | 0 <= x < |ys| ensures Close(x, ys[x], radius) <==> Nearest(x, ys[x], radius) {
      CloseIsNearest(x, ys[x], radius);
    }
  }

  /** The decision variable is the sum of the excess of the two candidates. */
  function Decision(x: nat, y: nat, radius: nat): int
    requires y >= 1
  {
    Excess(x + 1, y, radius) + Excess(x + 1, y - 1, radius)
  }

  /** What is shown is the exact octant of a circle, drawn in all eight octants. */
  ghost predicate DrawnExactly(pixels: seq<Pixel>, cx: int, cy: int, radius: nat) {
    exists ys :: Exact(ys, radius) && Complete(ys, radius) && Shown(pixels) == Shown(Octants(cx, cy, ys))
  }

  /** The state of the loop while all is well: the point is the nearest one unless it is past
      the diagonal, and d decides the next one. */
  predicate Good(d: int, x: nat, y: nat, radius: nat) {
    && y <= radius && Excess(x, y, radius) >= -(y as int)
    && (x <= y ==> y >= 1 && Close(x, y, radius) && d == Decision(x, y, radius))
  }

  /** With radius 0 the second point is already far outside. */
  predicate Runaway(d: int, x: nat, y: nat) {
    y < WORD32
    && (if x == 0 then y == 0 && d == 3 else if x == 1 then y == WORD32 - 1 && d == 13 else y < WORD32 - 1)
  }

  /** One round, without the 32-bit reductions, which do not matter. */
  lemma GoodGoesOn(d: int, x: nat, y: nat, radius: nat)
    requires Good(d, x, y, radius) && x <= y && radius <= 0xFFFF
    ensures y >= 1
    ensures var d', y' := if d < 0 then d + 4 * x + 6 else d + 4 * (x - y) + 10, if d < 0 then y else y - 1;
            Good(d', x + 1, y', radius) && (x + 1 <= y' ==> -0x8_0000 <= d' <= 0x8_0000)
  {
    assert Square(x + 2) == Square(x + 1) + 2 * x + 3;
    if y >= 2 {
      assert Square(y - 1) == Square(y - 2) + 2 * y - 3;
    }
  }

  predicate Going(d: int, x: nat, y: nat, radius: nat) {
    if radius >= 1 then Good(d, x, y, radius) else Runaway(d, x, y)
  }

  /** A round with radius 0: the first takes the unsigned ordinate below zero. */
  lemma RunawayGoesOn(d: int, x: nat, y: nat)
    requires Runaway(d, x, y) && x <= y
    ensures d >= 0 ==> Runaway(Signed32(d + 4 * (x - y) + 10), x + 1, (y - 1) % WORD32)
    ensures d < 0 ==> Runaway(Signed32(d + 4 * x + 6), x + 1, y)
  {
    if x == 0 {
      DivModUnique(-1, WORD32, -1, WORD32 - 1);
    } else {
      RemainderIsLess(y - 1, WORD32);
    }
  }

  /** What a round makes of the decision variable and the ordinate; the unsigned operands are
      reduced modulo 2^32 once, at the end. */
  method Round(d: int, x: nat, y: nat, ghost radius: nat) returns (d': int, y': nat)
    requires Going(d, x, y, radius) && x <= y && radius <= 0xFFFF
    ensures Going(d', x + 1, y', radius)
  {
    if radius >= 1 {
      GoodGoesOn(d, x, y, radius);
      RemainderIsLess(y - 1, WORD32);
    } else {
      RunawayGoesOn(d, x, y);
    }
    if d < 0 {
      d', y' := Signed32(d + 4 * x + 6), y;
    } else {
      d', y' := Signed32(d + 4 * (x - y) + 10), (y - 1) % WORD32;
    }
  }

  /** Where the loop is after drawing the points with ordinates ys. */
  ghost predicate State(d: int, x: nat, y: nat, ys: seq<nat>, radius: nat) {
    var state :=
      && x == |ys| && Going(d, x, y, radius)
      && (if radius >= 1 then AllClose(ys, radius) else x >= 2 ==> ys[1] == WORD32 - 1);
    state
  }

  lemma PointDrawn(d: int, x: nat, y: nat, ys: seq<nat>, d': int, y': nat, radius: nat)
    requires State(d, x, y, ys, radius) && x <= y && radius <= 0xFFFF && Going(d', x + 1, y', radius)
    ensures State(d', x + 1, y', ys + [y], radius) && x + 1 < WORD32
  {
    if radius == 0 && x >= 2 {
      assert (ys + [y])[1] == ys[1];
    }
  }

  /** Past the diagonal no ordinate is missing. */
  lemma NothingMissing(ys: seq<nat>, y: nat, radius: nat)
    requires AllClose(ys, radius) && y < |ys| && Excess(|ys|, y, radius) >= -(y as int)
    ensures Exact(ys, radius) && Complete(ys, radius)
  {
    AllCloseIsExact(ys, radius);
    forall x: nat, z: nat | |ys| <= x && Nearest(x, z, radius) ensures z < x {
      if |ys| < x {
        Farther(|ys|, x);
      }
      CloseIsNearest(x, z, radius);
      NotAbove(x, y, z, radius);
    }
  }

  lemma OneMoreColumn(cx: int, cy: int, ys: seq<nat>, y: nat)
    ensures Octants(cx, cy, ys + [y]) == Octants(cx, cy, ys) + Eight(cx, cy, |ys|, y)
  {
    assert (ys + [y])[..|ys|] == ys;
  }

  lemma {:induction false} ColumnIsDrawn(cx: int, cy: int, ys: seq<nat>, x: nat)
    requires x < |ys|
    ensures Pixel(cx + x, cy + ys[x]) in Octants(cx, cy, ys)
  {
    var n := |ys| - 1;
    if x < n {
      ColumnIsDrawn(cx, cy, ys[..n], x);
    } else {
      assert Eight(cx, cy, n, ys[n])[0] == Pixel(cx + n, cy + ys[n]);
    }
  }

  lemma LongerShowsGap(ys: seq<nat>, zs: seq<nat>, radius: nat)
    requires Exact(zs, radius) && |ys| < |zs|
    ensures !Complete(ys, radius)
  {
    assert Nearest(|ys|, zs[|ys|], radius) && |ys| <= zs[|ys|];
  }

  /** An exact octant has one form only, so the circle is determined by centre and radius. */
  lemma ExactIsUnique(ys: seq<nat>, zs: seq<nat>, radius: nat)
    requires Exact(ys, radius) && Complete(ys, radius) && Exact(zs, radius) && Complete(zs, radius)
    ensures ys == zs
  {
    if |ys| < |zs| {
      LongerShowsGap(ys, zs, radius);
    } else if |zs| < |ys| {
      LongerShowsGap(zs, ys, radius);
    }
    forall x | 0 <= x < |ys| && x < |zs| ensures ys[x] == zs[x] {
      NearestUnique(x, ys[x], zs[x], radius);
    }
  }

  /** The exact circle of radius 0 is its centre. */
  lemma CentreIsExact(cx: int, cy: int)
    ensures Exact([0], 0) && Complete([0], 0) && DrawnExactly(Eight(cx, cy, 0, 0), cx, cy, 0)
    ensures Octants(cx, cy, [0]) == Eight(cx, cy, 0, 0)
  {
    assert Octants(cx, cy, [0][..0]) == [];
    assert Octants(cx, cy, [0]) == Octants(cx, cy, [0][..0]) + Eight(cx, cy, 0, 0);
  }

  /** The unsigned ordinate that has passed below zero is cut to the one below the centre. */
  lemma Around(cx: int, cy: int)
    ensures Cut(Pixel(cx + 1, cy + (WORD32 - 1))) == Cut(Pixel(cx + 1, cy - 1)) != Cut(Pixel(cx, cy))
  {
  }

  /** A picture with a pixel beside the centre is not that circle. */
  lemma RunawayIsNotExact(pixels: seq<Pixel>, cx: int, cy: int)
    requires Cut(Pixel(cx + 1, cy - 1)) in Shown(pixels)
    ensures !DrawnExactly(pixels, cx, cy, 0)
  {
    CentreIsExact(cx, cy);
    forall ys | Exact(ys, 0) && Complete(ys, 0) ensures Shown(pixels) != Shown(Octants(cx, cy, ys)) {
      ExactIsUnique(ys, [0], 0);
      CentreOnly(cx, cy);
      Around(cx, cy);
    }
  }

  lemma CentreOnly(cx: int, cy: int)
    ensures forall p :: p in Shown(Eight(cx, cy, 0, 0)) ==> p == Cut(Pixel(cx, cy))
  {
    assert forall i :: 0 <= i < 8 ==> Eight(cx, cy, 0, 0)[i] == Pixel(cx, cy);
  }

  lemma RunawayIsShown(cx: int, cy: int, ys: seq<nat>)
    requires |ys| >= 2 && ys[1] == WORD32 - 1
    ensures Pixel(cx + 1, cy + ys[1]) in Octants(cx, cy, ys) && Cut(Pixel(cx + 1, cy - 1)) in Shown(Octants(cx, cy, ys))
  {
    ColumnIsDrawn(cx, cy, ys, 1);
    var p := Pixel(cx + 1, cy + ys[1]);
    var all := Octants(cx, cy, ys);
    var i :| 0 <= i < |all| && all[i] == p;
    assert Shown(all)[i] == Cut(p);
    Around(cx, cy);
  }

  /** The loop of LCD_DrawCircle. */
  method DrawOctants(cx: int, cy: int, radius: nat) returns (pixels: seq<Pixel>, ghost ys: seq<nat>)
    requires radius <= 0xFFFF
    ensures pixels == Octants(cx, cy, ys)
    ensures if radius >= 1 then Exact(ys, radius) && Complete(ys, radius) else |ys| >= 2 && ys[1] == WORD32 - 1
  {
    pixels := [];
    var d, x, y: nat := 3 - 2 * radius, 0, radius;
    ys := [];
    assert Square(1) == 1;
    while x <= y
      invariant State(d, x, y, ys, radius) && pixels == Octants(cx, cy, ys)
      decreases WORD32 - x
    {
      pixels := pixels + Eight(cx, cy, x, y);
      OneMoreColumn(cx, cy, ys, y);
      var d', y' := Round(d, x, y, radius);
      PointDrawn(d, x, y, ys, d', y', radius);
      ys := ys + [y];
      d, x, y := d', (x + 1) % WORD32, y';
    }
    if radius >= 1 {
      NothingMissing(ys, y, radius);
    }
  }

  /** LCD_DrawCircle.  A pixel, before it is cut to 16 bits, is drawn if and only if its greater
      distance from the centre along an axis is the integer nearest to the one that belongs to its
      smaller distance.  So the circle is exact if and only if the radius is not 0; with radius 0 the
      unsigned CurY passes below zero, and a pixel beside the centre is drawn. */
  method DrawCircle(cx: int, cy: int, radius: nat) returns (pixels: seq<Pixel>)
    requires radius <= 0xFFFF
    ensures radius >= 1 ==>
              forall p :: p in pixels <==>
                var u, v := Min(Abs(p.x - cx), Abs(p.y - cy)), Max(Abs(p.x - cx), Abs(p.y - cy));
                (2 * v - 1) * (2 * v - 1) < 4 * (radius * radius - u * u) < (2 * v + 1) * (2 * v + 1)
    ensures DrawnExactly(pixels, cx, cy, radius) <==> radius >= 1
    ensures radius == 0 ==>
              Pixel(cx + 1, cy + 0xFFFF_FFFF) in pixels && Pixel((cx + 1) % 0x1_0000, (cy - 1) % 0x1_0000) in Shown(pixels)
  {
    ghost var ys;
    pixels, ys := DrawOctants(cx, cy, radius);
    if radius >= 1 {
      forall p: Pixel
        ensures p in pixels <==>
                  Between(Min(Abs(p.x - cx), Abs(p.y - cy)), Max(Abs(p.x - cx), Abs(p.y - cy)), radius)
      {
        PixelsAreNear(cx, cy, ys, radius, p);
        NearestIsBetween(Min(Abs(p.x - cx), Abs(p.y - cy)), Max(Abs(p.x - cx), Abs(p.y - cy)), radius);
      }
    } else {
      RunawayIsShown(cx, cy, ys);
      RunawayIsNotExact(pixels, cx, cy);
    }
  }

  /** For a radius that is not 0 the true ordinate exists if it lies within half a pixel. */
  predicate Between(u: int, v: int, radius: int) {
    (2 * v - 1) * (2 * v - 1) < 4 * (radius * radius - u * u) < (2 * v + 1) * (2 * v + 1)
  }

  lemma NearestIsBetween(u: int, v: int, radius: int)
    requires 0 <= u <= v && radius >= 1
    ensures Nearest(u, v, radius) <==> Between(u, v, radius)
  {
    NonNegative(radius - 1, radius);
    if v >= 1 {
      NonNegative(v - 1, v);
    }
    HalfWay(v);
  }

  /** Eight mirror images, seen from a pixel. */
  lemma MirrorsAre(cx: int, cy: int, x: nat, y: nat, p: Pixel)
    ensures p in Eight(cx, cy, x, y) <==>
              (Abs(p.x - cx) == x && Abs(p.y - cy) == y) || (Abs(p.x - cx) == y && Abs(p.y - cy) == x)
  {
    assert p in Eight(cx, cy, x, y) <==> exists i :: 0 <= i < 8 && Eight(cx, cy, x, y)[i] == p;
  }

  lemma {:induction false} PixelsAre(cx: int, cy: int, ys: seq<nat>, p: Pixel)
    ensures p in Octants(cx, cy, ys) <==> exists x :: 0 <= x < |ys| && p in Eight(cx, cy, x, ys[x])
  {
    if ys != [] {
      var n := |ys| - 1;
      var zs := ys[..n];
      PixelsAre(cx, cy, zs, p);
      assert p in Octants(cx, cy, ys) <==> p in Octants(cx, cy, zs) || p in Eight(cx, cy, n, ys[n]);
      if x :| 0 <= x < |zs| && p in Eight(cx, cy, x, zs[x]) {
        assert zs[x] == ys[x];
      }
      if x :| 0 <= x < n && p in Eight(cx, cy, x, ys[x]) {
        assert zs[x] == ys[x];
      }
    }
  }

  /** Just those pixels are drawn whose greater distance from the centre along an axis is the integer
      nearest to what their smaller distance demands. */
  lemma PixelsAreNear(cx: int, cy: int, ys: seq<nat>, radius: nat, p: Pixel)
    requires Exact(ys, radius) && Complete(ys, radius)
    ensures p in Octants(cx, cy, ys) <==> Nearest(Min(Abs(p.x - cx), Abs(p.y - cy)), Max(Abs(p.x - cx), Abs(p.y - cy)), radius)
  {
    var u, v := Min(Abs(p.x - cx), Abs(p.y - cy)), Max(Abs(p.x - cx), Abs(p.y - cy));
    PixelsAre(cx, cy, ys, p);
    if x :| 0 <= x < |ys| && p in Eight(cx, cy, x, ys[x]) {
      MirrorsAre(cx, cy, x, ys[x], p);
    }
    if Nearest(u, v, radius) {
      assert u < |ys|;
      NearestUnique(u, v, ys[u], radius);
      MirrorsAre(cx, cy, u, ys[u], p);
    }
  }
}
