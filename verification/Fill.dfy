/** How stm322xg_eval_lcd.c paints a filled polygon: the box, the colours and the pixels. */
module Fill {
  import opened Arith
  import opened Words
  import opened Pixels
  import opened Polygon

  type Color = c: int | 0 <= c < 0x1_0000

  /** What PutPixel does not leave out: a row of 0..239 and a column of 0..319. */
  predicate Visible(p: Pixel) {
    0 <= p.x <= 239 && 0 <= p.y <= 319
  }

  /** The columns left..right of a row. */
  function Segment(row: int, left: int, right: int): (ps: set<Pixel>)
    ensures forall p :: p in ps <==> p.x == row && left <= p.y <= right
    decreases right - left
  {
    if left > right then {} else {Pixel(row, left)} + Segment(row, left + 1, right)
  }

  function Dot(p: Pixel): set<Pixel> {
    if Visible(p) then {p} else {}
  }

  /** A span is a line from its right end down to its left end, which the line does not reach, and
      a pixel at each end. */
  function Span(row: int, left: int, right: int): set<Pixel> {
    Segment(row, left + 1, right) + Dot(Pixel(row, right)) + Dot(Pixel(row, left))
  }

  /** Pair k is drawn when it reaches into the box. */
  predicate Drawn(s: seq<int>, k: nat, left: int, right: int) {
    2 * k + 1 < |s| && s[2 * k] < right && left < s[2 * k + 1]
  }

  /** The first n pairs, clipped to the box. */
  function RowOf(s: seq<int>, n: nat, row: int, left: int, right: int): set<Pixel>
    requires 2 * n <= |s|
  {
    if n == 0 then {}
    else
      RowOf(s, n - 1, row, left, right)
      + if Drawn(s, n - 1, left, right) then Span(row, Max(s[2 * n - 2], left), Min(s[2 * n - 1], right)) else {}
  }

  predicate Covers(s: seq<int>, k: nat, left: int, right: int, x: int) {
    Drawn(s, k, left, right) && Max(s[2 * k], left) <= x <= Min(s[2 * k + 1], right)
  }

  /** What one span paints. */
  lemma SpanMeans(row: int, left: int, right: int, p: Pixel)
    requires left <= right
    ensures p in Span(row, left, right) ==> p.x == row && left <= p.y <= right
    ensures p.x == row && Visible(p) ==> (p in Span(row, left, right) <==> left <= p.y <= right)
    ensures p in Span(row, left, right) <==>
              p.x == row && (left < p.y <= right || (left <= p.y <= right && 0 <= p.x <= 239 && 0 <= p.y <= 319))
  {
  }

  lemma PairMeans(s: seq<int>, m: nat, row: int, left: int, right: int, p: Pixel)
    requires 2 * m + 1 < |s| && s[2 * m] <= s[2 * m + 1] && left <= right
    ensures p in RowOf(s, m + 1, row, left, right) ==>
              p in RowOf(s, m, row, left, right) || (p.x == row && left <= p.y <= right)
    ensures p.x == row && Visible(p) ==>
              (p in RowOf(s, m + 1, row, left, right) <==> p in RowOf(s, m, row, left, right) || Covers(s, m, left, right, p.y))
  {
    if Drawn(s, m, left, right) {
      SpanMeans(row, Max(s[2 * m], left), Min(s[2 * m + 1], right), p);
    }
  }

  /** Pixels that can be seen are painted by some pair, and no pixel outside the box is. */
  lemma {:induction false} RowMeans(s: seq<int>, n: nat, row: int, left: int, right: int, p: Pixel)
    requires 2 * n <= |s| && Sorted(s) && left <= right
    ensures p in RowOf(s, n, row, left, right) ==> p.x == row && left <= p.y <= right
    ensures p.x == row && Visible(p) ==>
              (p in RowOf(s, n, row, left, right) <==> exists k: nat :: k < n && Covers(s, k, left, right, p.y))
  {
    if n > 0 {
      var m := n - 1;
      RowMeans(s, m, row, left, right, p);
      PairMeans(s, m, row, left, right, p);
    }
  }

  predicate Odd(s: seq<int>, x: int) {
    CountUpTo(s, x) % 2 == 1
  }

  /** The even-odd rule as it is painted: strictly inside the box the nodes count as painted as
      well, and at its borders only what lies right of the left and left of the right one. */
  predicate InRow(s: seq<int>, left: int, right: int, x: int) {
    if left < x < right then Odd(s, x) || x in s
    else if left < right then (x == left && Odd(s, left)) || (x == right && Odd(s, right - 1))
    else x == left && Odd(s, left) && x !in s
  }

  /** Sorted nodes in pairs, clipped to the box, amount to that rule. */
  lemma PairsMean(s: seq<int>, left: int, right: int, x: int)
    requires Sorted(s) && |s| % 2 == 0 && left <= right
    ensures (exists k: nat :: Covers(s, k, left, right, x)) <==> InRow(s, left, right, x)
  {
    if k: nat :| Covers(s, k, left, right, x) {
      CoversMeans(s, k, left, right, x);
    }
    if InRow(s, left, right, x) {
      InRowMeans(s, left, right, x);
    }
  }

  lemma CoversMeans(s: seq<int>, k: nat, left: int, right: int, x: int)
    requires Sorted(s) && |s| % 2 == 0 && left <= right && Covers(s, k, left, right, x)
    ensures InRow(s, left, right, x)
  {
    CountedComeFirst(s, x);
    CountedComeFirst(s, left);
    CountedComeFirst(s, right - 1);
    var a, b := s[2 * k], s[2 * k + 1];
    if left < x < right {
      assert x < b ==> CountUpTo(s, x) == 2 * k + 1;
    } else if left < right {
      assert x == left ==> CountUpTo(s, left) == 2 * k + 1;
      assert x == right ==> CountUpTo(s, right - 1) == 2 * k + 1;
    } else {
      assert CountUpTo(s, left) == 2 * k + 1;
    }
  }

  lemma InRowMeans(s: seq<int>, left: int, right: int, x: int)
    requires Sorted(s) && |s| % 2 == 0 && left <= right && InRow(s, left, right, x)
    ensures exists k: nat :: Covers(s, k, left, right, x)
  {
    CountedComeFirst(s, x);
    CountedComeFirst(s, left);
    CountedComeFirst(s, right - 1);
    if left < x < right {
      if Odd(s, x) {
        assert Covers(s, CountUpTo(s, x) / 2, left, right, x);
      } else {
        var i :| 0 <= i < |s| && s[i] == x;
        assert s[2 * (i / 2)] <= x <= s[2 * (i / 2) + 1];
        assert Covers(s, i / 2, left, right, x);
      }
    } else if x == left {
      assert Covers(s, CountUpTo(s, left) / 2, left, right, x);
    } else {
      assert Covers(s, CountUpTo(s, right - 1) / 2, left, right, x);
    }
  }

  /** The row as the stored nodes have it, in the order they were built or sorted. */
  lemma RowExactly(built: seq<int>, s: seq<int>, row: int, left: int, right: int, p: Pixel)
    requires Sorted(s) && |s| % 2 == 0 && multiset(s) == multiset(built) && left <= right
    ensures p in RowOf(s, |s| / 2, row, left, right) ==> p.x == row && left <= p.y <= right
    ensures p.x == row && Visible(p) ==>
              (p in RowOf(s, |s| / 2, row, left, right) <==> InRow(built, left, right, p.y))
  {
    RowMeans(s, |s| / 2, row, left, right, p);
    PairsMean(s, left, right, p.y);
    CountOfPermutation(built, s, p.y);
    CountOfPermutation(built, s, left);
    CountOfPermutation(built, s, right - 1);
    assert p.y in built <==> p.y in multiset(built);
    assert p.y in s <==> p.y in multiset(s);
    assert forall k: nat :: Covers(s, k, left, right, p.y) ==> k < |s| / 2;
  }

  /** The display after some pixels have been written in one colour. */
  function Painted(pixels: map<Pixel, Color>, ps: set<Pixel>, c: Color): map<Pixel, Color> {
    map p | p in pixels.Keys + ps :: if p in ps then c else pixels[p]
  }

  lemma PaintedTwice(pixels: map<Pixel, Color>, ps: set<Pixel>, qs: set<Pixel>, c: Color)
    ensures Painted(Painted(pixels, ps, c), qs, c) == Painted(pixels, ps + qs, c)
  {
  }

  lemma SpanIsPainted(pixels: map<Pixel, Color>, row: int, left: int, right: int, c: Color)
    ensures Painted(Painted(Painted(pixels, Segment(row, left + 1, right), c), Dot(Pixel(row, right)), c), Dot(Pixel(row, left)), c)
            == Painted(pixels, Span(row, left, right), c)
  {
    var line, end, start := Segment(row, left + 1, right), Dot(Pixel(row, right)), Dot(Pixel(row, left));
    PaintedTwice(pixels, line, end, c);
    PaintedTwice(pixels, line + end, start, c);
  }

  /** The display after the first k pairs of nodes have been drawn. */
  function AfterPairs(pixels: map<Pixel, Color>, s: seq<int>, k: nat, row: int, left: int, right: int, c: Color): map<Pixel, Color>
    requires 2 * k <= |s|
  {
    Painted(pixels, RowOf(s, k, row, left, right), c)
  }

  /** One more pair of nodes, drawn or not. */
  lemma OneMorePair(pixels: map<Pixel, Color>, s: seq<int>, k: nat, row: int, left: int, right: int, c: Color)
    requires 2 * k + 1 < |s|
    ensures AfterPairs(pixels, s, k + 1, row, left, right, c) ==
            var before := AfterPairs(pixels, s, k, row, left, right, c);
            if Drawn(s, k, left, right) then Painted(before, Span(row, Max(s[2 * k], left), Min(s[2 * k + 1], right)), c) else before
  {
    PaintedTwice(pixels, RowOf(s, k, row, left, right), Span(row, Max(s[2 * k], left), Min(s[2 * k + 1], right)), c);
  }

  class Lcd {
    var textColor: Color
    var backColor: Color
    var pixels: map<Pixel, Color>     // what has been written to the display

    method SetTextColor(c: Color)
      modifies this`textColor
      ensures textColor == c
    {
      textColor := c;
    }

    /** LCD_DrawLine in horizontal direction: from column col down. */
    method DrawLine(row: nat, col: nat, length: nat)
      modifies this`pixels
      ensures pixels == Painted(old(pixels), Segment(row, col - length + 1, col), textColor)
    {
      var i := 0;
      while i < length
        invariant 0 <= i <= length
        invariant pixels == Painted(old(pixels), Segment(row, col - i + 1, col), textColor)
      {
        pixels := pixels[Pixel(row, col - i) := textColor];
        i := i + 1;
      }
    }

    method PutPixel(x: nat, y: nat)
      requires x < WORD16 && y < WORD16
      modifies this`pixels
      ensures pixels == Painted(old(pixels), Dot(Pixel(x, y)), textColor)
      ensures pixels == if x <= 239 && y <= 319 then old(pixels)[Pixel(x, y) := textColor] else old(pixels)
    {
      var row, col := Signed16(x), Signed16(y);
      if row < 0 || row > 239 || col < 0 || col > 319 {
        return;
      }
      DrawLine(row, col, 1);
    }

    /** One span.  Before it is drawn the text colour has been overwritten by the back colour, so
        setting it again does nothing and everything has the back colour. */
    method DrawSpan(row: nat, left: nat, right: nat)
      requires row < WORD16 && left <= right < WORD16
      modifies this`pixels, this`textColor
      ensures pixels == Painted(old(pixels), Span(row, left, right), backColor) && textColor == backColor
    {
      SetTextColor(backColor);
      DrawLine(row, right, right - left);
      assert right - (right - left) + 1 == left + 1;
      assert pixels == Painted(old(pixels), Segment(row, left + 1, right), backColor);
      SetTextColor(textColor);
      PutPixel(row, right);
      PutPixel(row, left);
      SpanIsPainted(old(pixels), row, left, right, backColor);
    }

    /** One pair of nodes, clipped to the box. */
    method DrawPair(row: nat, nodeX: array<nat>, i: nat, left: nat, right: nat)
      requires i + 1 < nodeX.Length && nodeX[i] <= nodeX[i + 1] && nodeX[i] < right
      requires row < WORD16 && left <= right < WORD16 && textColor == backColor
      modifies nodeX, this`pixels, this`textColor
      ensures var a, b := old(nodeX[i]), old(nodeX[i + 1]);
              pixels == if left < b then Painted(old(pixels), Span(row, Max(a, left), Min(b, right)), backColor) else old(pixels)
      ensures textColor == backColor && forall k :: i + 2 <= k < nodeX.Length ==> nodeX[k] == old(nodeX[k])
    {
      if nodeX[i + 1] > left {
        if nodeX[i] < left {
          nodeX[i] := left;
        }
        if nodeX[i + 1] > right {
          nodeX[i + 1] := right;
        }
        DrawSpan(row, nodeX[i], nodeX[i + 1]);
      }
    }

    /** The next pair of nodes s, on top of the ones before it. */
    method DrawNext(row: nat, nodeX: array<nat>, i: nat, left: nat, right: nat, ghost s: seq<nat>, ghost k: nat, ghost first: map<Pixel, Color>)
      requires i == 2 * k && i + 1 < |s| && i + 1 < nodeX.Length && nodeX[i] == s[2 * k] && nodeX[i + 1] == s[2 * k + 1]
      requires s[2 * k] <= s[2 * k + 1] && s[2 * k] < right && row < WORD16 && left <= right < WORD16
      requires textColor == backColor && pixels == AfterPairs(first, s, k, row, left, right, backColor)
      modifies nodeX, this`pixels, this`textColor
      ensures pixels == AfterPairs(first, s, k + 1, row, left, right, backColor)
      ensures textColor == backColor && forall k :: i + 2 <= k < nodeX.Length ==> nodeX[k] == old(nodeX[k])
    {
      OneMorePair(first, s, k, row, left, right, backColor);
      DrawPair(row, nodeX, i, left, right);
    }

    /** The loop over pairs of nodes: it stops at the first one right of the box, and never reads
        past an even number of nodes. */
    method DrawPairs(row: nat, nodeX: array<nat>, nodes: nat, left: nat, right: nat)
      requires nodes <= nodeX.Length && nodes % 2 == 0 && Sorted(nodeX[..nodes])
      requires row < WORD16 && left <= right < WORD16 && textColor == backColor
      modifies nodeX, this`pixels, this`textColor
      ensures pixels == Painted(old(pixels), RowOf(old(nodeX[..nodes]), nodes / 2, row, left, right), backColor)
      ensures textColor == backColor
    {
      ghost var s := nodeX[..nodes];
      var i := 0;
      ghost var k := 0;
      while i < nodes
        invariant 0 <= i == 2 * k <= nodes && textColor == backColor
        invariant pixels == AfterPairs(old(pixels), s, k, row, left, right, backColor)
        invariant forall k :: i <= k < nodes ==> nodeX[k] == s[k]
      {
        if nodeX[i] >= right {
          NoneAfter(s, k, nodes / 2, row, left, right);
          break;
        }
        DrawNext(row, nodeX, i, left, right, s, k, old(pixels));
        i, k := i + 2, k + 1;
      }
    }

    /** One row: a pixel that can be seen is painted exactly as the even-odd rule says, in the back
        colour, and no pixel outside the box is touched. */
    method FillRow(points: seq<Point>, row: nat, left: nat, right: nat) returns (ghost painted: set<Pixel>)
      requires |points| <= MAX_POLY_CORNERS && row < WORD16 && left <= right < WORD16 && textColor == backColor
      modifies this`pixels, this`textColor
      ensures pixels == Painted(old(pixels), painted, backColor) && textColor == backColor
      ensures forall p :: p in painted ==> p.x == row && left <= p.y <= right
      ensures forall p: Pixel :: p.x == row && Visible(p) ==> (p in painted <==> InRow(Stored(points, row, |points|), left, right, p.y))
    {
      var nodeX := new nat[MAX_POLY_CORNERS];
      var nodes := BuildNodes(points, row, nodeX);
      EvenCrossings(points, row);
      ghost var built := nodeX[..nodes];
      SortNodes(nodeX, nodes);
      ghost var s := nodeX[..nodes];
      painted := RowOf(s, nodes / 2, row, left, right);
      DrawPairs(row, nodeX, nodes, left, right);
      forall p: Pixel
        ensures p in painted ==> p.x == row && left <= p.y <= right
        ensures p.x == row && Visible(p) ==> (p in painted <==> InRow(built, left, right, p.y))
      {
        RowExactly(built, s, row, left, right, p);
      }
    }

    /** LCD_FillPolyLine.  Every pixel of the picture has the back colour, and so has all text
        afterwards; a pixel that can be seen is painted if and only if it lies in one of the rows
        of the box and the even-odd rule says so. */
    method FillPolyLine(points: seq<Point>) returns (ghost painted: set<Pixel>)
      requires 1 <= |points| <= MAX_POLY_CORNERS
      modifies this`pixels, this`textColor
      ensures textColor == backColor && forall p :: p in painted ==> p in pixels && pixels[p] == backColor
      ensures forall p :: p !in painted ==> (p in pixels <==> p in old(pixels)) && (p in pixels ==> pixels[p] == old(pixels)[p])
      ensures forall p :: p in painted ==> (pixels[p] == old(textColor) <==> old(textColor) == old(backColor))
      ensures var b := BoxOf(points);
              && (forall p :: p in painted ==> b.top <= p.x < b.bottom && b.left <= p.y <= b.right)
              && (forall p: Pixel :: 0 <= p.x <= 239 && 0 <= p.y <= 319 ==>
                    var s, x := Stored(points, p.x, |points|), p.y;
                    (p in painted <==>
                       && b.top <= p.x < b.bottom
                       && if b.left < x < b.right then CountUpTo(s, x) % 2 == 1 || x in s
                          else if b.left < b.right then
                            (x == b.left && CountUpTo(s, x) % 2 == 1) || (x == b.right && CountUpTo(s, x - 1) % 2 == 1)
                          else x == b.left && CountUpTo(s, x) % 2 == 1 && x !in s))
    {
      var left, right, top, bottom := FindBox(points);
      SetTextColor(backColor);
      painted := {};
      var row := top;
      while row < bottom
        invariant top <= row && (row <= bottom || row == top) && textColor == backColor
        invariant pixels == Painted(old(pixels), painted, backColor)
        invariant forall p :: p in painted ==> top <= p.x < row && left <= p.y <= right
        invariant forall p :: Visible(p) ==>
                    (p in painted <==> top <= p.x < row && InRow(Stored(points, p.x, |points|), left, right, p.y))
      {
        ghost var one := FillRow(points, row, left, right);
        PaintedTwice(old(pixels), painted, one, backColor);
        painted := painted + one;
        row := row + 1;
      }
      SetTextColor(textColor);
    }
  }

  lemma {:induction false} NoneAfter(s: seq<int>, m: nat, n: nat, row: int, left: int, right: int)
    requires m < n && 2 * n <= |s| && Sorted(s) && s[2 * m] >= right
    ensures RowOf(s, n, row, left, right) == RowOf(s, m, row, left, right)
  {
    if m + 1 < n {
      NoneAfter(s, m, n - 1, row, left, right);
    }
  }

  datatype Box = Box(left: nat, right: nat, top: nat, bottom: nat)

  /** A signed 16-bit number as an unsigned one. */
  function Unsigned(c: int): (u: nat)
    requires -0x8000 <= c < 0x8000
    ensures u < WORD16
  {
    if c < 0 then c + WORD16 else c
  }

  /** The box of the first n points.  Their X are the rows and their Y the columns, but the first
      point is taken the other way round. */
  function BoxOfFirst(points: seq<Point>, n: nat): (b: Box)
    requires 1 <= n <= |points|
    ensures b.left <= b.right < WORD16 && b.top <= b.bottom < WORD16
  {
    if n == 1 then
      var x, y := Unsigned(points[0].x), Unsigned(points[0].y);
      Box(x, x, y, y)
    else
      var b, x, y := BoxOfFirst(points, n - 1), Unsigned(PolyX(points[n - 1])), Unsigned(PolyY(points[n - 1]));
      Box(Min(b.left, x), Max(b.right, x), Min(b.top, y), Max(b.bottom, y))
  }

  function BoxOf(points: seq<Point>): Box
    requires points != []
  {
    BoxOfFirst(points, |points|)
  }

  function LeastRow(points: seq<Point>): int
    requires points != []
  {
    var n := |points| - 1;
    if n == 0 then PolyY(points[0]) else Min(LeastRow(points[..n]), PolyY(points[n]))
  }

  function GreatestRow(points: seq<Point>): int
    requires points != []
  {
    var n := |points| - 1;
    if n == 0 then PolyY(points[0]) else Max(GreatestRow(points[..n]), PolyY(points[n]))
  }

  lemma RowsBetween(points: seq<Point>)
    requires points != []
    ensures forall p :: p in points ==> LeastRow(points) <= PolyY(p) <= GreatestRow(points)
    ensures exists p :: p in points && LeastRow(points) == PolyY(p)
    ensures exists p :: p in points && GreatestRow(points) == PolyY(p)
  {
    var i := LeastIsReached(points);
    var j := GreatestIsReached(points);
    assert points[i] in points && points[j] in points;
  }

  lemma {:induction false} LeastIsReached(points: seq<Point>) returns (i: nat)
    requires points != []
    ensures i < |points| && LeastRow(points) == PolyY(points[i])
    ensures forall k :: 0 <= k < |points| ==> LeastRow(points) <= PolyY(points[k])
  {
    i := |points| - 1;
    if i > 0 {
      var j := LeastIsReached(points[..i]);
      assert forall k :: 0 <= k < i ==> points[k] == points[..i][k];
      i := if PolyY(points[i]) < PolyY(points[j]) then i else j;
    }
  }

  lemma {:induction false} GreatestIsReached(points: seq<Point>) returns (i: nat)
    requires points != []
    ensures i < |points| && GreatestRow(points) == PolyY(points[i])
    ensures forall k :: 0 <= k < |points| ==> PolyY(points[k]) <= GreatestRow(points)
  {
    i := |points| - 1;
    if i > 0 {
      var j := GreatestIsReached(points[..i]);
      assert forall k :: 0 <= k < i ==> points[k] == points[..i][k];
      i := if PolyY(points[i]) < PolyY(points[j]) then j else i;
    }
  }

  /** Where the rows of the box begin and end. */
  lemma {:induction false} BoxRows(points: seq<Point>, n: nat)
    requires 2 <= n <= |points| && forall p :: p in points ==> p.x >= 0 && p.y >= 0
    ensures BoxOfFirst(points, n).top == Min(points[0].y, LeastRow(points[1..n]))
    ensures BoxOfFirst(points, n).bottom == Max(points[0].y, GreatestRow(points[1..n]))
  {
    assert points[0] in points && points[n - 1] in points;
    assert points[1..n][n - 2] == points[n - 1];
    if n > 2 {
      BoxRows(points, n - 1);
      assert points[1..n][..n - 2] == points[1..n - 1];
    } else {
      assert BoxOfFirst(points, 1) == Box(points[0].x, points[0].x, points[0].y, points[0].y);
    }
  }

  predicate Crossed(points: seq<Point>, row: int) {
    Crossings(points, row, |points|) != []
  }

  /** A row is crossed if it lies above the least corner row and not above the greatest. */
  lemma CrossedBetween(points: seq<Point>, row: int)
    requires points != []
    ensures Crossed(points, row) <==> LeastRow(points) < row <= GreatestRow(points)
  {
    CrossedRows(points, row);
    RowsBetween(points);
    var p :| p in points && LeastRow(points) == PolyY(p);
    var q :| q in points && GreatestRow(points) == PolyY(q);
    var i :| 0 <= i < |points| && points[i] == p;
    var j :| 0 <= j < |points| && points[j] == q;
  }

  lemma WholeBoxRows(points: seq<Point>)
    requires |points| > 1 && forall p :: p in points ==> p.x >= 0 && p.y >= 0
    ensures BoxOf(points).top == Min(points[0].y, LeastRow(points[1..]))
    ensures BoxOf(points).bottom == Max(points[0].y, GreatestRow(points[1..]))
    ensures LeastRow(points) <= GreatestRow(points) && GreatestRow(points[1..]) <= GreatestRow(points)
  {
    BoxRows(points, |points|);
    assert points[1..|points|] == points[1..];
    RowsBetween(points);
    RowsBetween(points[1..]);
    var p :| p in points[1..] && GreatestRow(points[1..]) == PolyY(p);
    assert p in points;
  }

  predicate Visits(b: Box, row: int) {
    b.top <= row < b.bottom
  }

  /** The column of the first corner exceeds every row, and another corner is at most one row
      from the top. */
  predicate FirstIsBelow(points: seq<Point>)
    requires points != []
  {
    |points| > 1 && GreatestRow(points) < points[0].y && LeastRow(points[1..]) <= LeastRow(points) + 1
  }

  /** Every row a polygon without negative coordinates crosses is in the box if and only if there
      are none, or its first corner is like that. */
  lemma AllRowsExactly(points: seq<Point>)
    requires points != [] && forall p :: p in points ==> p.x >= 0 && p.y >= 0
    ensures (forall row: nat :: Crossed(points, row) ==> Visits(BoxOf(points), row)) <==>
              LeastRow(points) == GreatestRow(points) || FirstIsBelow(points)
  {
    TwoRowsDecide(points);
    NotNegative(points);
    if |points| > 1 {
      WholeBoxRows(points);
    }
  }

  /** The first and the last row that are crossed decide. */
  lemma TwoRowsDecide(points: seq<Point>)
    requires points != [] && forall p :: p in points ==> p.x >= 0 && p.y >= 0
    ensures LeastRow(points) <= GreatestRow(points)
    ensures (forall row: nat :: Crossed(points, row) ==> Visits(BoxOf(points), row)) <==>
              LeastRow(points) == GreatestRow(points)
              || (Visits(BoxOf(points), LeastRow(points) + 1) && Visits(BoxOf(points), GreatestRow(points)))
  {
    RowsBetween(points);
    NotNegative(points);
    CrossedBetween(points, LeastRow(points) + 1);
    CrossedBetween(points, GreatestRow(points));
    forall row: nat | Crossed(points, row) ensures LeastRow(points) < row <= GreatestRow(points) {
      CrossedBetween(points, row);
    }
  }

  lemma NotNegative(points: seq<Point>)
    requires points != [] && forall p :: p in points ==> p.x >= 0 && p.y >= 0
    ensures LeastRow(points) >= 0
  {
    RowsBetween(points);
    var p :| p in points && LeastRow(points) == PolyY(p);
  }

  lemma UnsignedIs(c: int)
    requires -0x8000 <= c < 0x8000
    ensures Unsigned(c) == c % 0x1_0000
  {
  }

  /** These are the least and the greatest of the first X and the other Y, and the other way round. */
  lemma {:induction false} BoxMeans(points: seq<Point>, n: nat, i: nat)
    requires i < n <= |points|
    ensures BoxOfFirst(points, n).left <= (if i == 0 then points[0].x else points[i].y) % 0x1_0000 <= BoxOfFirst(points, n).right
    ensures BoxOfFirst(points, n).top <= (if i == 0 then points[0].y else points[i].x) % 0x1_0000 <= BoxOfFirst(points, n).bottom
  {
    UnsignedIs(points[i].x);
    UnsignedIs(points[i].y);
    if i < n - 1 {
      BoxMeans(points, n - 1, i);
    }
  }

  lemma {:induction false} BoxIsTight(points: seq<Point>, n: nat) returns (l: nat, r: nat, t: nat, b: nat)
    requires 1 <= n <= |points|
    ensures l < n && r < n && t < n && b < n
    ensures BoxOfFirst(points, n).left == (if l == 0 then points[0].x else points[l].y) % 0x1_0000
    ensures BoxOfFirst(points, n).right == (if r == 0 then points[0].x else points[r].y) % 0x1_0000
    ensures BoxOfFirst(points, n).top == (if t == 0 then points[0].y else points[t].x) % 0x1_0000
    ensures BoxOfFirst(points, n).bottom == (if b == 0 then points[0].y else points[b].x) % 0x1_0000
  {
    var m := n - 1;
    UnsignedIs(points[m].x);
    UnsignedIs(points[m].y);
    if n == 1 {
      l, r, t, b := 0, 0, 0, 0;
    } else {
      l, r, t, b := BoxIsTight(points, m);
      var box := BoxOfFirst(points, m);
      var x, y := Unsigned(points[m].y), Unsigned(points[m].x);
      l, r := if x < box.left then m else l, if box.right < x then m else r;
      t, b := if y < box.top then m else t, if box.bottom < y then m else b;
    }
  }

  method FindBox(points: seq<Point>) returns (left: nat, right: nat, top: nat, bottom: nat)
    requires points != []
    ensures Box(left, right, top, bottom) == BoxOf(points)
  {
    left, right := Unsigned(points[0].x), Unsigned(points[0].x);
    top, bottom := Unsigned(points[0].y), Unsigned(points[0].y);
    for i := 1 to |points|
      invariant Box(left, right, top, bottom) == BoxOfFirst(points, i)
    {
      var pixelX := Unsigned(PolyX(points[i]));
      if pixelX < left {
        left := pixelX;
      }
      if pixelX > right {
        right := pixelX;
      }
      var pixelY := Unsigned(PolyY(points[i]));
      if pixelY < top {
        top := pixelY;
      }
      if pixelY > bottom {
        bottom := pixelY;
      }
    }
  }

  /** A triangle: in row 10 the columns 10 to 30 are painted. */
  method FillTriangle(lcd: Lcd)
    modifies lcd`pixels, lcd`textColor
    ensures forall y :: 0 <= y <= 319 && Pixel(10, y) !in old(lcd.pixels) ==> (Pixel(10, y) in lcd.pixels <==> 10 <= y <= 30)
    ensures lcd.textColor == old(lcd.backColor)
  {
    ghost var points := [Point(5, 0), Point(0, 30), Point(20, 30)];
    TriangleNodes(points);
    TriangleBox(points);
    ghost var s := Stored(points, 10, |points|);
    ghost var painted := lcd.FillPolyLine([Point(5, 0), Point(0, 30), Point(20, 30)]);
    forall y | 0 <= y <= 319 ensures Pixel(10, y) in painted <==> 10 <= y <= 30 {
      TwoNodes(s, y);
      var p := Pixel(10, y);
      assert p in painted <==> InRow(s, 5, 30, p.y);
    }
  }

  lemma TriangleBox(points: seq<Point>)
    requires points == [Point(5, 0), Point(0, 30), Point(20, 30)]
    ensures BoxOf(points) == Box(5, 30, 0, 20)
  {
    OneMoreInBox(points, |points| - 2);
    OneMoreInBox(points, |points| - 1);
  }

  lemma OneMoreInBox(points: seq<Point>, n: nat)
    requires 1 <= n < |points| && points[n].x >= 0 && points[n].y >= 0 && points[0].x >= 0 && points[0].y >= 0
    ensures n == 1 ==> BoxOfFirst(points, n) == Box(points[0].x, points[0].x, points[0].y, points[0].y)
    ensures var b := BoxOfFirst(points, n);
            BoxOfFirst(points, n + 1)
            == Box(Min(b.left, points[n].y), Max(b.right, points[n].y), Min(b.top, points[n].x), Max(b.bottom, points[n].x))
  {
  }

  lemma TwoNodes(s: seq<int>, y: int)
    requires s == [10, 30]
    ensures CountUpTo(s, y) == (if 10 <= y then 1 else 0) + (if 30 <= y then 1 else 0)
    ensures InRow(s, 5, 30, y) <==> 10 <= y <= 30
  {
    CountSnoc(s[..1], 30, y);
    CountSnoc([], 10, y);
    assert s == s[..1] + [30] && s[..1] == [] + [10];
    CountSnoc(s[..1], 30, y - 1);
    CountSnoc([], 10, y - 1);
  }
}
