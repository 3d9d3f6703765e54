/** The scan-line arithmetic of stm322xg_eval_lcd.c: the crossings of one row with a polygon, how they
    are stored and sorted, and the even-odd rule. */
module Polygon {
  import opened Arith
  import opened Words

  const MAX_POLY_CORNERS := 200

  type Coord = c: int | -0x8000 <= c < 0x8000

  datatype Point = Point(x: Coord, y: Coord)

  // The rows of the picture are the X of the points, and the columns their Y.
  function PolyY(p: Point): int { p.x }

  function PolyX(p: Point): int { p.y }

  /** Division as C rounds it, towards zero. */
  function TruncDiv(a: int, b: int): int
    requires b != 0
  {
    var q := Abs(a) / Abs(b);
    if (a < 0) == (b < 0) then q else -q
  }

  predicate Below(p: Point, row: int) {
    PolyY(p) < row
  }

  /** The edge from p to q crosses the row. */
  predicate Crosses(p: Point, q: Point, row: int) {
    (PolyY(p) < row && PolyY(q) >= row) || (PolyY(q) < row && PolyY(p) >= row)
  }

  /** The column where it does. */
  function Node(p: Point, q: Point, row: int): int
    requires Crosses(p, q, row)
  {
    PolyX(p) + TruncDiv(Product(p, q, row), PolyY(q) - PolyY(p))
  }

  /** A part t / d of a distance w, 0 <= t / d <= 1, is no more than all of it. */
  lemma PartOfWhole(t: int, d: int, w: int)
    requires Part(t, d)
    ensures if w >= 0 then 0 <= TruncDiv(t * w, d) <= w else w <= TruncDiv(t * w, d) <= 0
  {
    MagnitudeOfProduct(t, w);
    SignOfProduct(t, w);
    Monotone(Abs(w), Abs(t), Abs(d));
    QuotientAtMost(Abs(t * w), Abs(d), Abs(w));
    QuotientOfPart(t * w, d, w);
  }

  predicate Part(t: int, d: int) {
    if d > 0 then 0 <= t <= d else d < 0 && d <= t <= 0
  }

  lemma QuotientOfPart(n: int, d: int, w: int)
    requires d != 0 && Abs(n) / Abs(d) <= Abs(w)
    requires if (w >= 0) == (d > 0) then n >= 0 else n <= 0
    ensures if w >= 0 then 0 <= TruncDiv(n, d) <= w else w <= TruncDiv(n, d) <= 0
  {
    var q := Abs(n) / Abs(d);
    assert n == 0 ==> q == 0;
  }

  lemma MagnitudeOfProduct(t: int, w: int)
    ensures Abs(t * w) == Abs(t) * Abs(w)
  {
    SignOfProduct(t, w);
    assert -t * w == -(t * w) && t * -w == -(t * w) && -t * -w == t * w;
  }

  lemma SignOfProduct(t: int, w: int)
    ensures (t >= 0 && w >= 0) || (t <= 0 && w <= 0) ==> t * w >= 0
    ensures (t >= 0 && w <= 0) || (t <= 0 && w >= 0) ==> t * w <= 0
    ensures t != 0 && w != 0 ==> t * w != 0
  {
    if t >= 0 && w >= 0 {
      NonNegative(t, w);
    } else if t <= 0 && w <= 0 {
      NonNegative(-t, -w);
      assert -t * -w == t * w;
    } else if t >= 0 {
      NonNegative(t, -w);
      assert t * -w == -(t * w);
    } else {
      NonNegative(-t, w);
      assert -t * w == -(t * w);
    }
  }

  lemma QuotientAtMost(n: nat, b: nat, m: nat)
    requires b > 0 && n <= b * m
    ensures n / b <= m
  {
    if n / b > m {
      ProductGrows(b, m, n / b);
    }
  }

  lemma ProductGrows(b: nat, m: nat, q: nat)
    requires b > 0 && q > m
    ensures b * q > b * m
  {
    Monotone(b, m + 1, q);
    assert b * (m + 1) == b * m + b;
  }

  /** An edge crosses a row if just one of its ends has a lower X; the divisor is then not zero, and
      the node lies between the Y of the two ends. */
  lemma NodeBetween(p: Point, q: Point, row: int)
    ensures Crosses(p, q, row) <==> (p.x < row <= q.x || q.x < row <= p.x)
    ensures Crosses(p, q, row) ==>
              q.x - p.x != 0 && (p.y <= Node(p, q, row) <= q.y || q.y <= Node(p, q, row) <= p.y)
  {
    if Crosses(p, q, row) {
      PartIsBetween(p, q, row);
    }
  }

  lemma PartIsBetween(p: Point, q: Point, row: int)
    requires Crosses(p, q, row)
    ensures p.y <= Node(p, q, row) <= q.y || q.y <= Node(p, q, row) <= p.y
  {
    PartOfWhole(row - PolyY(p), PolyY(q) - PolyY(p), PolyX(q) - PolyX(p));
  }

  /** The product a node is computed from. */
  function Product(p: Point, q: Point, row: int): int {
    (row - PolyY(p)) * (PolyX(q) - PolyX(p))
  }

  /** A node is less than one column off the true crossing, on the side of the first end. */
  lemma NodeIsClose(p: Point, q: Point, row: int)
    requires Crosses(p, q, row)
    ensures -Abs(q.x - p.x) < (row - p.x) * (q.y - p.y) - (q.x - p.x) * (Node(p, q, row) - p.y) < Abs(q.x - p.x)
    ensures var off := Abs(Node(p, q, row) - p.y);
            Abs(q.x - p.x) * off <= Abs((row - p.x) * (q.y - p.y)) < Abs(q.x - p.x) * (off + 1)
  {
    var n, d := Product(p, q, row), q.x - p.x;
    TruncRemainder(n, d);
    TruncMagnitude(n, d);
  }

  lemma TruncMagnitude(n: int, d: int)
    requires d != 0
    ensures Abs(d) * Abs(TruncDiv(n, d)) <= Abs(n) < Abs(d) * (Abs(TruncDiv(n, d)) + 1)
  {
    var a, b := Abs(n), Abs(d);
    QuotientParts(a, b);
    TruncIs(n, d, a / b);
    assert b * (a / b + 1) == b * (a / b) + b;
  }

  lemma TruncRemainder(n: int, d: int)
    requires d != 0
    ensures -Abs(d) < n - d * TruncDiv(n, d) < Abs(d)
  {
    var a, b := Abs(n), Abs(d);
    assert a == b * (a / b) + a % b;
    var q: int := a / b;
    assert -d * q == -(d * q) && d * -q == -(d * q);
  }

  /** The corner before corner i, going round. */
  function Before(points: seq<Point>, i: nat): Point
    requires i < |points|
  {
    if i == 0 then points[|points| - 1] else points[i - 1]
  }

  /** The nodes of the edges that end in the first n corners. */
  function Crossings(points: seq<Point>, row: int, n: nat): (s: seq<int>)
    requires n <= |points|
    ensures |s| <= n
  {
    if n == 0 then []
    else
      var rest := Crossings(points, row, n - 1);
      var p, q := points[n - 1], Before(points, n - 1);
      if Crosses(p, q, row) then rest + [Node(p, q, row)] else rest
  }

  lemma OneMoreCrossing(points: seq<Point>, row: int, n: nat)
    requires 0 < n <= |points|
    ensures |Crossings(points, row, n)|
            == |Crossings(points, row, n - 1)| + if Below(points[n - 1], row) != Below(Before(points, n - 1), row) then 1 else 0
  {
  }

  /** Each crossing changes sides. */
  lemma {:induction false} CrossingsChangeSides(points: seq<Point>, row: int, n: nat)
    requires 0 < n <= |points|
    ensures |Crossings(points, row, n)| % 2 == 1 <==> Below(points[n - 1], row) != Below(points[|points| - 1], row)
  {
    OneMoreCrossing(points, row, n);
    if n > 1 {
      CrossingsChangeSides(points, row, n - 1);
    } else {
      assert Crossings(points, row, 0) == [];
    }
  }

  /** A row crosses a closed polygon an even number of times. */
  lemma EvenCrossings(points: seq<Point>, row: int)
    ensures |Crossings(points, row, |points|)| % 2 == 0
  {
    if points != [] {
      CrossingsChangeSides(points, row, |points|);
    }
  }

  lemma {:induction false} CrossingsGrow(points: seq<Point>, row: int, k: nat, n: nat)
    requires k <= n <= |points|
    ensures |Crossings(points, row, k)| <= |Crossings(points, row, n)|
  {
    if k < n {
      CrossingsGrow(points, row, k, n - 1);
    }
  }

  lemma {:induction false} OneSideOnly(points: seq<Point>, row: int, n: nat)
    requires n <= |points|
    requires forall i, j :: 0 <= i < |points| && 0 <= j < |points| ==> Below(points[i], row) == Below(points[j], row)
    ensures Crossings(points, row, n) == []
  {
    if n > 0 {
      OneSideOnly(points, row, n - 1);
      assert Below(points[n - 1], row) == Below(Before(points, n - 1), row);
    }
  }

  /** A closed polygon crosses just those rows that have a corner on each side. */
  lemma CrossedRows(points: seq<Point>, row: int)
    ensures Crossings(points, row, |points|) != [] <==>
              exists i, j :: 0 <= i < |points| && 0 <= j < |points| && Below(points[i], row) && !Below(points[j], row)
  {
    if i, j :| 0 <= i < |points| && 0 <= j < |points| && Below(points[i], row) && !Below(points[j], row) {
      var k := if Below(points[|points| - 1], row) then j else i;
      CrossingsChangeSides(points, row, k + 1);
      CrossingsGrow(points, row, k + 1, |points|);
    } else {
      OneSideOnly(points, row, |points|);
    }
  }

  /** A node as it is stored: computed in 32 bits, which wrap around here, and cut to 16 without
      a sign. */
  function Kept(p: Point, q: Point, row: int): nat
    requires Crosses(p, q, row)
  {
    (PolyX(p) + TruncDiv(Signed32(Product(p, q, row)), PolyY(q) - PolyY(p))) % WORD16
  }

  /** The product fits in 32 bits. */
  predicate Fits(p: Point, q: Point, row: int) {
    -0x8000_0000 <= Product(p, q, row) < 0x8000_0000
  }

  /** The product does not fit, but is divided by the greatest difference of rows and leaves a
      remainder that hides it. */
  predicate Hidden(p: Point, q: Point, row: int) {
    Abs(PolyY(q) - PolyY(p)) == 65535 && Abs(Product(p, q, row)) % 65535 >= 2
  }

  /** The node is stored modulo 2^16 if and only if the product fits, or is hidden; then a column
      that is not negative is stored as it is. */
  lemma KeptExactly(p: Point, q: Point, row: int)
    requires Crosses(p, q, row)
    ensures Kept(p, q, row) == Node(p, q, row) % WORD16 <==> Fits(p, q, row) || Hidden(p, q, row)
    ensures Node(p, q, row) >= 0 ==> Node(p, q, row) % WORD16 == Node(p, q, row)
  {
    if Fits(p, q, row) {
      FitsSigned32(Product(p, q, row));
    } else {
      KeptOverflowed(p, q, row);
    }
    NodeBetween(p, q, row);
    if Node(p, q, row) >= 0 {
      RemainderIsLess(Node(p, q, row), WORD16);
    }
  }

  lemma FitsSigned32(n: int)
    requires -0x8000_0000 <= n < 0x8000_0000
    ensures Signed32(n) == n
  {
  }

  lemma KeptOverflowed(p: Point, q: Point, row: int)
    requires Crosses(p, q, row) && !Fits(p, q, row)
    ensures Kept(p, q, row) == Node(p, q, row) % WORD16 <==> Hidden(p, q, row)
  {
    var d, n := PolyY(q) - PolyY(p), Product(p, q, row);
    ProductBound(p, q, row);
    var sum := QuotientsApart(n, d);
    KeptApart(p, q, row, sum);
  }

  lemma KeptApart(p: Point, q: Point, row: int, sum: nat)
    requires Crosses(p, q, row)
    requires var d, n := PolyY(q) - PolyY(p), Product(p, q, row);
             Abs(TruncDiv(n, d) - TruncDiv(Signed32(n), d)) == sum
    ensures Kept(p, q, row) == Node(p, q, row) % WORD16 <==> sum % WORD16 == 0
  {
    var d, n := PolyY(q) - PolyY(p), Product(p, q, row);
    ShiftedRemainder(PolyX(p), TruncDiv(n, d), TruncDiv(Signed32(n), d), sum);
  }

  /** How far apart the two quotients are. */
  lemma QuotientsApart(n: int, d: int) returns (sum: nat)
    requires 0x8000_0000 <= Abs(n) <= Abs(d) * 65535 && 0 < Abs(d) <= 65535 && n != -0x8000_0000
    ensures Abs(TruncDiv(n, d) - TruncDiv(Signed32(n), d)) == sum
    ensures sum % WORD16 == 0 <==> Abs(d) == 65535 && Abs(n) % 65535 >= 2
  {
    var w := Signed32(n);
    Monotone(65535, Abs(d), 65535);
    Overflowed(n);
    QuotientParts(Abs(n), Abs(d));
    QuotientParts(Abs(w), Abs(d));
    var i, j := Abs(n) / Abs(d), Abs(w) / Abs(d);
    OppositeQuotients(n, w, d, i, j);
    OverflowQuotients(Abs(n), Abs(w), Abs(d), i, j);
    sum := i + j;
  }

  lemma ShiftedRemainder(x: int, k: int, l: int, sum: nat)
    requires Abs(k - l) == sum
    ensures (x + k) % WORD16 == (x + l) % WORD16 <==> sum % WORD16 == 0
  {
    SameRemainder(x + k, x + l, WORD16);
  }

  lemma Overflowed(n: int)
    requires Abs(n) < WORD32 && !(-0x8000_0000 <= n < 0x8000_0000)
    ensures Abs(Signed32(n)) == WORD32 - Abs(n) && (Signed32(n) < 0) != (n < 0)
  {
    if n > 0 {
      DivModUnique(n, WORD32, 0, n);
    } else {
      DivModUnique(n, WORD32, -1, n + WORD32);
    }
  }

  lemma TruncIs(n: int, d: int, i: int)
    requires d != 0 && i == Abs(n) / Abs(d)
    ensures TruncDiv(n, d) == if (n < 0) == (d < 0) then i else -i
  {
  }

  lemma OppositeQuotients(n: int, w: int, d: int, i: nat, j: nat)
    requires d != 0 && (n < 0) != (w < 0) && i == Abs(n) / Abs(d) && j == Abs(w) / Abs(d)
    ensures Abs(TruncDiv(n, d) - TruncDiv(w, d)) == i + j
  {
    TruncIs(n, d, i);
    TruncIs(w, d, j);
  }

  lemma ProductBound(p: Point, q: Point, row: int)
    requires Crosses(p, q, row)
    ensures Abs(Product(p, q, row)) <= Abs(PolyY(q) - PolyY(p)) * 65535 <= 65535 * 65535
  {
    var t, w, d := row - PolyY(p), PolyX(q) - PolyX(p), PolyY(q) - PolyY(p);
    MagnitudeOfProduct(t, w);
    Monotone(Abs(t), Abs(w), 65535);
    Monotone(65535, Abs(t), Abs(d));
  }

  lemma SameRemainder(x: int, y: int, m: nat)
    requires m > 0
    ensures x % m == y % m <==> Abs(x - y) % m == 0
  {
    if x % m == y % m {
      assert x - y == m * (x / m - y / m);
      DivModUnique(x - y, m, x / m - y / m, 0);
      DivModUnique(y - x, m, y / m - x / m, 0);
    }
    if Abs(x - y) % m == 0 {
      var q := if x >= y then (x - y) / m else -((y - x) / m);
      assert x - y == m * q;
      MultipleMod(q, m, y);
    }
  }

  /** The quotients of a number and of its complement to 2^32 add up to a multiple of 2^16 in one
      case only. */
  lemma OverflowQuotients(a: nat, c: nat, b: nat, i: nat, j: nat)
    requires 0x8000_0000 <= a <= b * 65535 && b <= 65535 && c == WORD32 - a && i == a / b && j == c / b
    ensures (i + j) % WORD16 == 0 <==> b == 65535 && a % 65535 >= 2
  {
    QuotientParts(a, b);
    QuotientParts(c, b);
    SumOfQuotients(b, i, a % b, j, c % b);
  }

  lemma QuotientParts(a: nat, b: nat)
    requires b > 0
    ensures a == b * (a / b) + a % b && a / b >= 0
  {
  }

  lemma SumOfQuotients(b: nat, q: nat, r: nat, q': nat, r': nat)
    requires 32768 < b <= 65535 && r < b && r' < b && WORD32 == (b * q + r) + (b * q' + r')
    ensures (q + q') % WORD16 == 0 <==> b == 65535 && r >= 2
  {
    var sum := q + q';
    assert b * sum == b * q + b * q';
    if sum >= 2 * WORD16 {
      Monotone(b, 2 * WORD16, sum);
    }
    OnlyMultiple(sum);
    if b == 65535 {
      assert 65535 * (65537 - sum) == r + r' - 1;
    }
  }

  lemma OnlyMultiple(sum: nat)
    requires 0 < sum < 2 * WORD16
    ensures sum % WORD16 == 0 <==> sum == WORD16
  {
  }

  /** Edges between corners without negative coordinates fit. */
  lemma OnScreenFits(p: Point, q: Point, row: int)
    requires Crosses(p, q, row) && p.x >= 0 && p.y >= 0 && q.x >= 0 && q.y >= 0
    ensures Fits(p, q, row)
  {
    var t, w := row - PolyY(p), PolyX(q) - PolyX(p);
    MagnitudeOfProduct(t, w);
    Monotone(Abs(t), Abs(w), 0x7FFF);
  }

  /** An edge across the whole range does not fit, and its node is stored one column off. */
  lemma OverflowMisplaces(p: Point, q: Point)
    requires p == Point(-0x8000, -0x8000) && q == Point(0x7FFF, 0x7FFF)
    ensures Crosses(p, q, 20000) && !Fits(p, q, 20000)
    ensures Node(p, q, 20000) == 20000 && Kept(p, q, 20000) == 19999
  {
    assert Product(p, q, 20000) == 52768 * 65535;
    assert Signed32(3458150880) == -836816416;
  }

  /** The list of nodes as it is stored. */
  function Stored(points: seq<Point>, row: int, n: nat): (s: seq<nat>)
    requires n <= |points|
    ensures |s| == |Crossings(points, row, n)|
  {
    if n == 0 then []
    else
      var rest := Stored(points, row, n - 1);
      var p, q := points[n - 1], Before(points, n - 1);
      if Crosses(p, q, row) then rest + [Kept(p, q, row)] else rest
  }

  /** The edge into corner i crosses the row, and where its node is stored. */
  predicate Hits(points: seq<Point>, row: int, i: nat) {
    i < |points| && Crosses(points[i], Before(points, i), row)
  }

  function StoredOf(points: seq<Point>, row: int, i: nat): nat
    requires Hits(points, row, i)
  {
    Kept(points[i], Before(points, i), row)
  }

  /** The edges into the first n corners that cross the row at column x or left of it. */
  ghost function EdgesUpTo(points: seq<Point>, row: int, n: nat, x: int): set<nat> {
    set i: nat | i < n && Hits(points, row, i) && StoredOf(points, row, i) <= x
  }

  lemma OneMoreEdge(points: seq<Point>, row: int, n: nat, x: int)
    ensures EdgesUpTo(points, row, n + 1, x)
            == EdgesUpTo(points, row, n, x) + if Hits(points, row, n) && StoredOf(points, row, n) <= x then {n} else {}
  {
  }

  /** The list has one node for every edge that crosses the row. */
  lemma {:induction false} StoredAreEdges(points: seq<Point>, row: int, n: nat, x: int)
    requires n <= |points|
    ensures CountUpTo(Stored(points, row, n), x) == |EdgesUpTo(points, row, n, x)|
    ensures x in Stored(points, row, n) <==> exists i: nat :: i < n && Hits(points, row, i) && StoredOf(points, row, i) == x
  {
    if n > 0 {
      var m := n - 1;
      var rest := Stored(points, row, m);
      StoredAreEdges(points, row, m, x);
      OneMoreEdge(points, row, m, x);
      if Hits(points, row, m) {
        CountSnoc(rest, StoredOf(points, row, m), x);
        assert Stored(points, row, n) == rest + [StoredOf(points, row, m)];
      } else {
        assert Stored(points, row, n) == rest;
      }
    } else {
      assert EdgesUpTo(points, row, n, x) == {};
    }
  }

  /** A node with small numbers. */
  lemma SmallNode(p: Point, q: Point, row: int, n: int, d: int, k: int)
    requires Crosses(p, q, row) && n == (row - p.x) * (q.y - p.y) && d == q.x - p.x
    requires 0 <= n < 0x8000 && d > 0 && n == d * k && 0 <= p.y + k < 0x8000
    ensures Kept(p, q, row) == p.y + k
  {
    DivModUnique(n, d, k, 0);
    RemainderIsLess(p.y + k, WORD16);
  }

  /** One row of a triangle: the edges into the first and the last corner cross it. */
  lemma TriangleNodes(points: seq<Point>)
    requires points == [Point(5, 0), Point(0, 30), Point(20, 30)]
    ensures Stored(points, 10, |points|) == [10, 30]
  {
    var a, b, c := points[0], points[1], points[2];
    SmallNode(a, c, 10, 150, 15, 10);
    LevelNode(c, b, 10);
    var n := |points|;
    OneMoreStored(points, 10, n - 3);
    OneMoreStored(points, 10, n - 2);
    OneMoreStored(points, 10, n - 1);
  }

  /** On a level edge every node is in its column. */
  lemma LevelNode(p: Point, q: Point, row: int)
    requires Crosses(p, q, row) && p.y == q.y >= 0
    ensures Kept(p, q, row) == p.y
  {
    NoQuotient(row - p.x, q.y - p.y, q.x - p.x);
    RemainderIsLess(p.y, WORD16);
  }

  lemma NoQuotient(t: int, w: int, d: int)
    requires w == 0 && d != 0
    ensures TruncDiv(Signed32(t * w), d) == 0
  {
    assert t * w == 0;
  }

  lemma OneMoreStored(points: seq<Point>, row: int, i: nat)
    requires i < |points|
    ensures i == 0 ==> Stored(points, row, i) == []
    ensures Stored(points, row, i + 1) == Stored(points, row, i) + if Hits(points, row, i) then [StoredOf(points, row, i)] else []
  {
  }

  /** For a polygon without negative coordinates it holds the crossings themselves. */
  lemma {:induction false} StoredIsExact(points: seq<Point>, row: int, n: nat)
    requires n <= |points| && forall p :: p in points ==> p.x >= 0 && p.y >= 0
    ensures Stored(points, row, n) == Crossings(points, row, n)
  {
    if n > 0 {
      StoredIsExact(points, row, n - 1);
      var p, q := points[n - 1], Before(points, n - 1);
      assert p in points && q in points;
      if Crosses(p, q, row) {
        OnScreenFits(p, q, row);
        KeptExactly(p, q, row);
        NodeBetween(p, q, row);
      }
    }
  }

  /** The loop of LCD_FillPolyLine that builds the list of nodes. */
  method BuildNodes(points: seq<Point>, row: nat, nodeX: array<nat>) returns (nodes: nat)
    requires |points| <= MAX_POLY_CORNERS == nodeX.Length
    modifies nodeX
    ensures nodes == |Stored(points, row, |points|)| <= nodeX.Length
    ensures nodeX[..nodes] == Stored(points, row, |points|)
  {
    nodes := 0;
    var i, j := 0, |points| - 1;
    while i < |points|
      invariant 0 <= i <= |points| && (i < |points| ==> 0 <= j < |points| && points[j] == Before(points, i))
      invariant nodes == |Stored(points, row, i)| <= i
      invariant nodeX[..nodes] == Stored(points, row, i)
    {
      if Crosses(points[i], points[j], row) {
        nodeX[nodes] := Kept(points[i], points[j], row);
        nodes := nodes + 1;
      }
      j := i;
      i := i + 1;
    }
  }

  // ----- Sorting -----

  predicate Sorted(s: seq<int>) {
    forall i, j :: 0 <= i < j < |s| ==> s[i] <= s[j]
  }

  /** Earlier elements weigh more, so exchanging neighbours that are out of order loses weight. */
  function Weight(s: seq<nat>): nat {
    if s == [] then 0 else |s| * s[0] + Weight(s[1..])
  }

  function Exchanged(s: seq<nat>, i: nat): seq<nat>
    requires i + 1 < |s|
  {
    s[i := s[i + 1]][i + 1 := s[i]]
  }

  lemma {:induction false} ExchangeLosesWeight(s: seq<nat>, i: nat)
    requires i + 1 < |s| && s[i] > s[i + 1]
    ensures Weight(Exchanged(s, i)) < Weight(s)
  {
    var t := Exchanged(s, i);
    if i > 0 {
      assert t[1..] == Exchanged(s[1..], i - 1);
      ExchangeLosesWeight(s[1..], i - 1);
    } else {
      assert t[1..][1..] == s[1..][1..];
      FrontWeighsMore(|s|, s[0], s[1]);
    }
  }

  lemma FrontWeighsMore(n: nat, a: nat, b: nat)
    requires a > b
    ensures n * a + (n - 1) * b > n * b + (n - 1) * a
  {
    assert n * a + (n - 1) * b - (n * b + (n - 1) * a) == a - b;
  }

  lemma ExchangeKeepsElements(s: seq<nat>, i: nat)
    requires i + 1 < |s|
    ensures multiset(Exchanged(s, i)) == multiset(s)
  {
  }

  predicate SortedUpTo(s: seq<int>, n: nat)
    requires n <= |s|
  {
    forall i, j :: 0 <= i < j < n ==> s[i] <= s[j]
  }

  lemma OneMoreSorted(s: seq<int>, i: nat)
    requires i + 1 < |s| && SortedUpTo(s, i + 1) && s[i] <= s[i + 1]
    ensures SortedUpTo(s, i + 2)
  {
  }

  method Exchange(nodeX: array<nat>, i: nat, ghost nodes: nat)
    requires i + 1 < nodes <= nodeX.Length
    modifies nodeX
    ensures nodeX[..nodes] == Exchanged(old(nodeX[..nodes]), i) && nodeX[nodes..] == old(nodeX[nodes..])
  {
    var swap := nodeX[i];
    nodeX[i] := nodeX[i + 1];
    nodeX[i + 1] := swap;
  }

  /** The back-stepping sort of LCD_FillPolyLine: a step back after each exchange. */
  method SortNodes(nodeX: array<nat>, nodes: nat)
    requires nodes <= nodeX.Length
    modifies nodeX
    ensures Sorted(nodeX[..nodes]) && multiset(nodeX[..nodes]) == multiset(old(nodeX[..nodes]))
    ensures nodeX[nodes..] == old(nodeX[nodes..])
  {
    var i := 0;
    ghost var s := nodeX[..nodes];
    while i < nodes - 1
      invariant 0 <= i && (nodes > 0 ==> i <= nodes - 1)
      invariant s == nodeX[..nodes] && multiset(s) == multiset(old(nodeX[..nodes]))
      invariant nodes > 0 ==> SortedUpTo(s, i + 1)
      invariant nodeX[nodes..] == old(nodeX[nodes..])
      decreases Weight(s), nodes - i
    {
      assert nodeX[i] == s[i] && nodeX[i + 1] == s[i + 1];
      if nodeX[i] > nodeX[i + 1] {
        ExchangeLosesWeight(s, i);
        ExchangeKeepsElements(s, i);
        Exchange(nodeX, i, nodes);
        s := Exchanged(s, i);
        if i != 0 {
          i := i - 1;
        }
      } else {
        OneMoreSorted(s, i);
        i := i + 1;
      }
    }
  }

  // ----- The even-odd rule -----

  function CountUpTo(s: seq<int>, x: int): nat {
    if s == [] then 0 else CountUpTo(s[..|s| - 1], x) + (if s[|s| - 1] <= x then 1 else 0)
  }

  /** In a sorted list the counted elements come first. */
  lemma {:induction false} CountedComeFirst(s: seq<int>, x: int)
    requires Sorted(s)
    ensures CountUpTo(s, x) <= |s|
    ensures forall i :: 0 <= i < |s| ==> (s[i] <= x <==> i < CountUpTo(s, x))
  {
    if s != [] {
      var t := s[..|s| - 1];
      CountedComeFirst(t, x);
      assert forall i :: 0 <= i < |t| ==> t[i] == s[i];
    }
  }

  /** It counts the elements up to x, wherever they are. */
  lemma {:induction false} CountIsSize(s: seq<int>, x: int)
    ensures CountUpTo(s, x) == |set i | 0 <= i < |s| && s[i] <= x|
  {
    if s != [] {
      var n := |s| - 1;
      CountIsSize(s[..n], x);
      var front, all := set i | 0 <= i < n && s[..n][i] <= x, set i | 0 <= i < |s| && s[i] <= x;
      assert all == front + if s[n] <= x then {n} else {};
    }
  }

  lemma CountSnoc(s: seq<int>, v: int, x: int)
    ensures CountUpTo(s + [v], x) == CountUpTo(s, x) + if v <= x then 1 else 0
  {
    assert (s + [v])[..|s|] == s;
  }

  lemma {:induction false} CountWithout(s: seq<int>, j: nat, x: int)
    requires j < |s|
    ensures CountUpTo(s, x) == CountUpTo(s[..j] + s[j + 1..], x) + if s[j] <= x then 1 else 0
  {
    var n := |s| - 1;
    if j < n {
      var r := s[..n];
      CountWithout(r, j, x);
      CountSnoc(r, s[n], x);
      CountSnoc(r[..j] + r[j + 1..], s[n], x);
      assert s == r + [s[n]] && s[..j] + s[j + 1..] == r[..j] + r[j + 1..] + [s[n]];
    } else {
      assert s[..j] + s[j + 1..] == s[..n];
    }
  }

  /** The count does not depend on the order. */
  lemma {:induction false} CountOfPermutation(s: seq<int>, t: seq<int>, x: int)
    requires multiset(s) == multiset(t)
    ensures CountUpTo(s, x) == CountUpTo(t, x)
    decreases |s|
  {
    if s == [] {
      assert |multiset(t)| == 0;
    } else {
      var n := |s| - 1;
      var v := s[n];
      assert v in multiset(t);
      var j :| 0 <= j < |t| && t[j] == v;
      WithoutOne(s, t, j);
      CountOfPermutation(s[..n], t[..j] + t[j + 1..], x);
      CountWithout(t, j, x);
    }
  }

  lemma WithoutOne(s: seq<int>, t: seq<int>, j: nat)
    requires multiset(s) == multiset(t) && s != [] && j < |t| && t[j] == s[|s| - 1]
    ensures multiset(s[..|s| - 1]) == multiset(t[..j] + t[j + 1..])
  {
    var v := t[j];
    assert s == s[..|s| - 1] + [v];
    assert multiset(s) == multiset(s[..|s| - 1]) + multiset{v};
    assert t == t[..j] + [v] + t[j + 1..];
    assert multiset(t) == multiset(t[..j]) + multiset{v} + multiset(t[j + 1..]);
    var rest := t[..j] + t[j + 1..];
    assert multiset(rest) == multiset(t[..j]) + multiset(t[j + 1..]);
    assert multiset(s[..|s| - 1]) == multiset(s) - multiset{v} && multiset(rest) == multiset(t) - multiset{v};
  }

  /** Column x lies between the nodes of pair k, the right one excluded. */
  predicate InPair(s: seq<int>, k: nat, x: int) {
    2 * k + 1 < |s| && s[2 * k] <= x < s[2 * k + 1]
  }

  /** Sorted nodes in pairs amount to the even-odd rule. */
  lemma EvenOdd(s: seq<int>, x: int)
    requires Sorted(s) && |s| % 2 == 0
    ensures (exists k: nat :: InPair(s, k, x)) <==> CountUpTo(s, x) % 2 == 1
  {
    CountedComeFirst(s, x);
    var c := CountUpTo(s, x);
    if c % 2 == 1 {
      assert InPair(s, c / 2, x);
    }
    if k: nat :| InPair(s, k, x) {
      assert s[2 * k] <= x && !(s[2 * k + 1] <= x);
      assert c == 2 * k + 1;
    }
  }
}
