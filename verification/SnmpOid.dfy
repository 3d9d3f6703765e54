/** Comparison and search of object identifiers in snmp_SNMP.c. */
module SnmpOid {
  import opened Arith
  import opened Words
  import opened Octets
  import opened Wrappers

  function Sign(x: int): (s: int)
    ensures (s == 1 <==> x > 0) && (s == -1 <==> x < 0) && (s == 0 <==> x == 0)
  {
    if x > 0 then 1 else if x < 0 then -1 else 0
  }

  /** What snmpVCompare concludes from two octets that differ and the numbers that start there. */
  function Decide(v1: int, v2: int, r1: int, r2: int): int {
    if v1 < 0x80 && v2 < 0x80 then v1 - v2 else if r1 > r2 then 1 else -1
  }

  function Differ(x: seq<Octet>, y: seq<Octet>): int
    requires x != [] && y != []
  {
    Decide(x[0], y[0], Value(First(x)) % WORD32, Value(First(y)) % WORD32)
  }

  /** The position of the first difference, or the shorter length. */
  function Common(x: seq<Octet>, y: seq<Octet>): (n: nat)
    ensures n <= |x| && n <= |y|
    ensures x[..n] == y[..n]
    ensures n < |x| && n < |y| ==> x[n] != y[n]
  {
    if x == [] || y == [] || x[0] != y[0] then 0 else 1 + Common(x[1..], y[1..])
  }

  lemma {:induction false} CommonAtLeast(x: seq<Octet>, y: seq<Octet>, k: nat)
    requires k <= |x| && k <= |y| && x[..k] == y[..k]
    ensures Common(x, y) >= k
  {
    if k > 0 {
      assert x[0] == x[..k][0] && y[0] == y[..k][0];
      assert x[1..][..k - 1] == x[..k][1..] && y[1..][..k - 1] == y[..k][1..];
      CommonAtLeast(x[1..], y[1..], k - 1);
    }
  }

  lemma CommonAt(x: seq<Octet>, y: seq<Octet>, i: nat)
    requires i < Common(x, y)
    ensures x[i] == y[i]
  {
    var n := Common(x, y);
    assert x[..n][i] == y[..n][i];
  }

  lemma OneMoreAlike(x: seq<Octet>, y: seq<Octet>, i: nat)
    requires i < |x| && i < |y| && x[..i] == y[..i] && x[i] == y[i]
    ensures x[..i + 1] == y[..i + 1]
  {
    assert x[..i + 1] == x[..i] + [x[i]] && y[..i + 1] == y[..i] + [y[i]];
  }

  lemma FirstDifference(x: seq<Octet>, y: seq<Octet>, k: nat)
    requires k < |x| && k < |y| && x[..k] == y[..k] && x[k] != y[k]
    ensures Common(x, y) == k
  {
    CommonAtLeast(x, y, k);
    if k < Common(x, y) {
      CommonAt(x, y, k);
    }
  }

  /** The number snmpVCompare packs its verdict c, the k octets left to compare and the
      lengths into. */
  function Packed(c: int, k: int, l1: int, l2: int): int {
    c * 0x1_0000 * (if k != 0 then k else 1) + l1 - l2
  }

  lemma PackedSign(c: int, k: int, l1: int, l2: int)
    requires -0x7f <= c <= 0x7f && 0 <= k <= 255 && 0 <= l1 <= 255 && 0 <= l2 <= 255
    ensures -0x8000_0000 <= Packed(c, k, l1, l2) < 0x8000_0000
    ensures Sign(Packed(c, k, l1, l2)) == if c != 0 then Sign(c) else Sign(l1 - l2)
    ensures Packed(c, k, l1, l2) >= 255 <==> c > 0 || (c == 0 && l1 == 255 && l2 == 0)
  {
    var w := 0x1_0000 * (if k != 0 then k else 1);
    if c > 0 {
      Monotone(w, 1, c);
      Monotone(w, c, 0x7f);
    } else if c < 0 {
      Monotone(w, -0x7f, c);
      Monotone(w, c, -1);
    }
    assert Packed(c, k, l1, l2) == w * c + l1 - l2;
  }

  /** The verdict on the octets, before lengths are looked at. */
  function Verdict(x: seq<Octet>, y: seq<Octet>): int {
    var n := Common(x, y);
    if n < |x| && n < |y| then Differ(x[n..], y[n..]) else 0
  }

  /** The sign of the whole comparison. */
  function Order(x: seq<Octet>, y: seq<Octet>): int {
    if Verdict(x, y) != 0 then Sign(Verdict(x, y)) else Sign(|x| - |y|)
  }

  /** The octets left to compare when snmpVCompare stops: it does not count the ones it stops at
      if the numbers there have been read. */
  function Left(x: seq<Octet>, y: seq<Octet>): (k: nat) {
    var n, m := Common(x, y), Min(|x|, |y|);
    if n == m then 0 else if x[n] < 0x80 && y[n] < 0x80 then m - n - 1 else m - n
  }

  /** What snmpVCompare returns. */
  function Returned(x: seq<Octet>, y: seq<Octet>): int {
    Packed(Verdict(x, y), Left(x, y), |x|, |y|)
  }

  /** Two identifiers that are alike up to k. */
  lemma ReturnedMeans(x: seq<Octet>, y: seq<Octet>, k: nat)
    requires k <= |x| && k <= |y| && x[..k] == y[..k]
    ensures k == |x| || k == |y| ==> Returned(x, y) == |x| - |y|
    ensures k < |x| && k < |y| && x[k] != y[k] && x[k] < 0x80 && y[k] < 0x80 ==>
              Returned(x, y) == (x[k] - y[k]) * 0x1_0000 * Max(1, Min(|x|, |y|) - k - 1) + |x| - |y|
    ensures k < |x| && k < |y| && x[k] != y[k] && (x[k] >= 0x80 || y[k] >= 0x80) ==>
              var v := Value(x[k..][..Head(x[k..])]) % 0x1_0000_0000;
              var w := Value(y[k..][..Head(y[k..])]) % 0x1_0000_0000;
              Returned(x, y) == (if v > w then 0x1_0000 else -0x1_0000) * (Min(|x|, |y|) - k) + |x| - |y|
  {
    if k < |x| && k < |y| && x[k] != y[k] {
      StopsAt(x, y, k);
    } else {
      CommonAtLeast(x, y, k);
    }
  }

  lemma StopsAt(x: seq<Octet>, y: seq<Octet>, k: nat)
    requires k < |x| && k < |y| && x[..k] == y[..k] && x[k] != y[k]
    ensures var small := x[k] < 0x80 && y[k] < 0x80;
            && Verdict(x, y) == (if small then x[k] as int - y[k]
                                 else if Value(First(x[k..])) % WORD32 > Value(First(y[k..])) % WORD32 then 1 else -1)
            && Left(x, y) == Min(|x|, |y|) - k - if small then 1 else 0
  {
    FirstDifference(x, y, k);
  }

  /** Its sign is the order, and it is 255 or more just if the octets have decided. */
  lemma SignOfReturned(x: seq<Octet>, y: seq<Octet>)
    requires |x| <= 255 && |y| <= 255
    ensures Sign(Returned(x, y)) == Order(x, y) && -0x8000_0000 <= Returned(x, y) < 0x8000_0000
    ensures Returned(x, y) >= 255 <==> Verdict(x, y) > 0 || (|x| == 255 && y == [])
  {
    VerdictBound(x, y);
    PackedSign(Verdict(x, y), Left(x, y), |x|, |y|);
  }

  lemma VerdictBound(x: seq<Octet>, y: seq<Octet>)
    ensures -0x7f <= Verdict(x, y) <= 0x7f
  {
  }

  /** Seven more bits, in 32-bit arithmetic. */
  function Shift(r: int, d: int): int {
    (r * 128 + d) % WORD32
  }

  /** Reads the rest of a sub-identifier into 32 bits, as snmpVCompare does where two octets
      differ and as snmpDecodeID does. */
  method ReadSub(op: seq<Octet>, start: nat) returns (r: int, next: nat)
    requires start < |op| && Complete(op[start..])
    ensures r == Value(First(op[start..])) % WORD32 && next == start + Head(op[start..])
    ensures start < next <= |op| && r == Value(op[start..next]) % 0x1_0000_0000
    ensures op[next - 1] < 0x80 && forall i :: start <= i < next - 1 ==> op[i] >= 0x80
  {
    ghost var s := op[start..];
    next := start;
    r := 0;
    while op[next] >= 0x80
      invariant start <= next < start + Head(s)
      invariant r == Value(s[..next - start]) % WORD32
      decreases |op| - next
    {
      assert op[next] == s[next - start];
      ShiftIn(s, next - start);
      r := Shift(r, op[next] % 0x80);
      next := next + 1;
    }
    assert op[next] == s[next - start] && next - start + 1 == Head(s);
    ShiftIn(s, next - start);
    r := Shift(r, op[next] % 0x80);
    next := next + 1;
    assert op[start..next] == s[..Head(s)];
    forall i | start <= i < next - 1 ensures op[i] >= 0x80 {
      assert op[i] == s[i - start];
    }
  }

  /** Shifting in one more digit, reduced to 32 bits before and after. */
  lemma ShiftIn(s: seq<Octet>, i: nat)
    requires i < |s|
    ensures Shift(Value(s[..i]) % WORD32, s[i] % 0x80) == Value(s[..i + 1]) % WORD32
  {
    assert s[..i + 1][..i] == s[..i];
    Reduce(Value(s[..i]), s[i] % 0x80);
  }

  lemma Reduce(v: int, d: int)
    ensures Shift(v % WORD32, d) == (128 * v + d) % WORD32
  {
    MultipleMod(128 * (v / WORD32), WORD32, v % WORD32 * 128 + d);
  }

  /** The numbers at the first difference decide when either octet is not the last of one. */
  method CompareSubs(op1: seq<Octet>, op2: seq<Octet>, i: nat) returns (cmp: int)
    requires Terminated(op1) && Terminated(op2) && i < |op1| && i < |op2|
    requires op1[i] >= 0x80 || op2[i] >= 0x80
    ensures cmp == Differ(op1[i..], op2[i..]) && -1 <= cmp <= 1 && cmp != 0
  {
    HeadEnds(op1[i..]);
    HeadEnds(op2[i..]);
    var r1, _ := ReadSub(op1, i);
    var r2, _ := ReadSub(op2, i);
    cmp := if r1 > r2 then 1 else -1;
  }

  /** snmpVCompare.  The verdict is shifted left by 16 and multiplied by what is left to
      compare before the length difference is added; none of this overflows 32 bits, and the
      sign of the result is the order. */
  method VCompare(op1: seq<Octet>, op2: seq<Octet>) returns (cmp: int)
    requires Terminated(op1) && Terminated(op2) && |op1| <= 255 && |op2| <= 255
    ensures cmp == Returned(op1, op2) && Sign(cmp) == Order(op1, op2)
    ensures -0x8000_0000 <= cmp < 0x8000_0000 && (cmp == 0 <==> op1 == op2)
  {
    OrderZero(op1, op2);
    var len := Min(|op1|, |op2|);
    var i := 0;
    cmp := 0;
    ghost var differ := false;
    while i < len && cmp == 0
      invariant i <= len && (differ <==> cmp != 0)
      invariant !differ ==> op1[..i] == op2[..i]
      invariant differ ==> cmp == Verdict(op1, op2) && len - i == Left(op1, op2)
    {
      var v1, v2 := op1[i], op2[i];
      cmp := v1 as int - v2 as int;
      if cmp != 0 {
        differ := true;
        FirstDifference(op1, op2, i);
        if v1 >= 0x80 || v2 >= 0x80 {
          cmp := CompareSubs(op1, op2, i);
          break;
        }
      } else {
        OneMoreAlike(op1, op2, i);
      }
      i := i + 1;
    }
    if !differ {
      CommonAtLeast(op1, op2, i);
    }
    SignOfReturned(op1, op2);
    cmp := cmp * 0x1_0000;
    if len - i != 0 {
      cmp := cmp * (len - i);
    }
    cmp := cmp + |op1| - |op2|;
  }

  /** Lexicographic order on sub-identifiers. */
  function Lex(a: seq<nat>, b: seq<nat>): int {
    if a == [] || b == [] then Sign(|a| - |b|)
    else if a[0] != b[0] then Sign(a[0] as int - b[0] as int)
    else Lex(a[1..], b[1..])
  }

  /** Of two lists that are alike up to k, a prefix comes first, and otherwise the one with the
      lesser number at k. */
  lemma {:induction false} LexMeans(a: seq<nat>, b: seq<nat>, k: nat)
    requires k <= |a| && k <= |b| && a[..k] == b[..k]
    ensures k < |a| && k < |b| && a[k] < b[k] ==> Lex(a, b) == -1
    ensures k < |a| && k < |b| && a[k] > b[k] ==> Lex(a, b) == 1
    ensures k == |a| < |b| ==> Lex(a, b) == -1
    ensures k == |b| < |a| ==> Lex(a, b) == 1
    ensures k == |a| == |b| ==> Lex(a, b) == 0
  {
    if k > 0 {
      assert a[0] == a[..k][0] && b[0] == b[..k][0];
      assert a[1..][..k - 1] == a[..k][1..] && b[1..][..k - 1] == b[..k][1..];
      LexMeans(a[1..], b[1..], k - 1);
    }
  }

  /** No octet of the identifier is 0x80. */
  predicate Clean(s: seq<Octet>) {
    forall i :: 0 <= i < |s| ==> s[i] != 0x80
  }

  lemma LexByHeads(v: nat, w: nat, a: seq<nat>, b: seq<nat>)
    ensures Lex([v] + a, [w] + b) == if v != w then Sign(v as int - w as int) else Lex(a, b)
  {
    assert ([v] + a)[1..] == a && ([w] + b)[1..] == b;
  }

  /** Every sub-identifier fits in 32 bits. */
  ghost predicate Small(s: seq<Octet>) {
    AllBelow(s, WORD32)
  }

  lemma StripOne(x: seq<Octet>, y: seq<Octet>)
    requires x != [] && y != [] && x[0] == y[0]
    ensures Verdict(x, y) == Verdict(x[1..], y[1..])
  {
    var n := Common(x[1..], y[1..]);
    assert x[1..][n..] == x[1 + n..] && y[1..][n..] == y[1 + n..];
  }

  /** A common prefix does not matter. */
  lemma {:induction false} CommonStrips(c: seq<Octet>, x: seq<Octet>, y: seq<Octet>)
    ensures Verdict(c + x, c + y) == Verdict(x, y) && Order(c + x, c + y) == Order(x, y)
  {
    if c == [] {
      assert c + x == x && c + y == y;
    } else {
      StripOne(c + x, c + y);
      assert (c + x)[1..] == c[1..] + x && (c + y)[1..] == c[1..] + y;
      CommonStrips(c[1..], x, y);
    }
  }

  /** A complete sub-identifier without an octet 0x80. */
  predicate CleanChunk(c: seq<Octet>) {
    c != [] && c[|c| - 1] < 0x80 && forall i :: 0 <= i < |c| - 1 ==> c[i] > 0x80
  }

  /** Of two such sub-identifiers of the same length, the first digit that differs decides. */
  lemma LeadingDigit(c: seq<Octet>, d: seq<Octet>)
    requires c != [] && |c| == |d| && c[0] % 0x80 > d[0] % 0x80
    ensures Value(c) > Value(d)
  {
    var p, j, k := Pow128(|c| - 1), c[0] % 0x80, d[0] % 0x80;
    ValueFromFront(c);
    ValueFromFront(d);
    ValueBound(d[1..]);
    DigitWins(j, k, p, Value(c[1..]), Value(d[1..]));
  }

  lemma DigitWins(j: int, k: int, p: int, v: int, w: int)
    requires j > k && 0 <= v && 0 <= w < p
    ensures j * p + v > k * p + w
  {
    Monotone(p, k + 1, j);
    assert p * (k + 1) == p * k + p;
  }

  lemma FitsWord32(v: int)
    requires 0 <= v < WORD32
    ensures v % WORD32 == v
  {
  }

  lemma DifferIs(c: seq<Octet>, d: seq<Octet>, x: seq<Octet>, y: seq<Octet>)
    requires Chunk(c) && Chunk(d) && c[0] != d[0]
    ensures Common(c + x, d + y) == 0 && First(c + x) == c && First(d + y) == d
    ensures Verdict(c + x, d + y) == Decide(c[0], d[0], Value(c) % WORD32, Value(d) % WORD32)
  {
    HeadOfPrefix(c, x);
    HeadOfPrefix(d, y);
    FirstDifference(c + x, d + y, 0);
    assert (c + x)[0..] == c + x && (d + y)[0..] == d + y;
  }

  /** Of two rests of sub-identifiers that begin alike and part here, the one that is longer, or
      as long with a greater octet, belongs to the greater number. */
  predicate Ahead(a: seq<Octet>, b: seq<Octet>)
    requires a != [] && b != []
  {
    |a| > |b| || (|a| == |b| && a[0] > b[0])
  }

  lemma SameLength(a: seq<Octet>, b: seq<Octet>)
    requires Chunk(a) && Chunk(b) && |a| == |b| && a[0] != b[0]
    ensures Sign(Value(a) - Value(b)) == if a[0] > b[0] then 1 else -1
  {
    if a[0] > b[0] {
      LeadingDigit(a, b);
    } else {
      LeadingDigit(b, a);
    }
  }

  lemma SuffixChunk(c: seq<Octet>, i: nat)
    requires Chunk(c) && i < |c|
    ensures Chunk(c[i..]) && c[i..][0] == c[i]
  {
  }

  lemma SharedPrefix(c: seq<Octet>, d: seq<Octet>, i: nat)
    requires |c| == |d| && i <= |c| && c[..i] == d[..i]
    ensures Value(c) - Value(d) == Value(c[i..]) - Value(d[i..])
  {
    SplitValue(c, i);
    SplitValue(d, i);
  }

  /** The rests decide which sub-identifier is greater. */
  lemma RestsDecide(c: seq<Octet>, d: seq<Octet>, i: nat)
    requires Chunk(c) && Chunk(d) && c[0] != 0x80 && d[0] != 0x80
    requires i < |c| && i < |d| && c[..i] == d[..i] && c[i] != d[i]
    ensures Sign(Value(c) - Value(d)) == if Ahead(c[i..], d[i..]) then 1 else -1
  {
    if |c| > |d| {
      MoreDigits(c, d);
    } else if |c| < |d| {
      MoreDigits(d, c);
    } else {
      SuffixChunk(c, i);
      SuffixChunk(d, i);
      SameLength(c[i..], d[i..]);
      SharedPrefix(c, d, i);
    }
  }

  lemma SameToTheEnd(c: seq<Octet>, d: seq<Octet>)
    requires Chunk(c) && Chunk(d) && (Common(c, d) == |c| || Common(c, d) == |d|)
    ensures c == d
  {
    var n := Common(c, d);
    CommonAt(c, d, n - 1);
    assert |c| == |d| == n;
    assert c == c[..n] && d == d[..n];
  }

  /** Different sub-identifiers part before either of them ends. */
  lemma ChunksPart(c: seq<Octet>, d: seq<Octet>)
    requires Chunk(c) && Chunk(d) && c != d
    ensures Common(c, d) < |c| && Common(c, d) < |d|
  {
    if Common(c, d) == |c| || Common(c, d) == |d| {
      SameToTheEnd(c, d);
    }
  }

  /** Where the octets first differ, snmpVCompare takes the wrong one of the numbers it reads for
      the greater. */
  predicate Misread(x: seq<Octet>, y: seq<Octet>) {
    var n := Common(x, y);
    n < |x| && n < |y| && (x[n] >= 0x80 || y[n] >= 0x80) && ReadWrong(First(x[n..]), First(y[n..]))
  }

  predicate ReadWrong(a: seq<Octet>, b: seq<Octet>)
    requires a != [] && b != []
  {
    !(Value(a) % WORD32 > Value(b) % WORD32 <==> Ahead(a, b))
  }

  /** A common prefix does not matter to that either. */
  lemma MisreadStrips(c: seq<Octet>, x: seq<Octet>, y: seq<Octet>)
    ensures Misread(c + x, c + y) <==> Misread(x, y)
  {
    CommonShifts(c, x, y);
    var n := Common(x, y);
    assert (c + x)[|c| + n..] == x[n..] && (c + y)[|c| + n..] == y[n..];
  }

  lemma {:induction false} CommonShifts(c: seq<Octet>, x: seq<Octet>, y: seq<Octet>)
    ensures Common(c + x, c + y) == |c| + Common(x, y)
  {
    if c == [] {
      assert c + x == x && c + y == y;
    } else {
      assert (c + x)[1..] == c[1..] + x && (c + y)[1..] == c[1..] + y;
      CommonShifts(c[1..], x, y);
    }
  }

  /** At once different sub-identifiers: the verdict is right exactly if they are not misread. */
  lemma AtOnce(a: seq<Octet>, b: seq<Octet>, x: seq<Octet>, y: seq<Octet>)
    requires Chunk(a) && Chunk(b) && a[0] != b[0]
    ensures Verdict(a + x, b + y) != 0
    ensures Sign(Verdict(a + x, b + y)) == (if Ahead(a, b) then 1 else -1) <==> !Misread(a + x, b + y)
  {
    DifferIs(a, b, x, y);
    assert (a + x)[0..] == a + x && (b + y)[0..] == b + y;
  }

  lemma DifferentFirst(c: seq<Octet>, d: seq<Octet>, x: seq<Octet>, y: seq<Octet>)
    requires Chunk(c) && Chunk(d) && c[0] != 0x80 && d[0] != 0x80 && c != d
    ensures Value(c) != Value(d)
    ensures Order(c + x, d + y) == Sign(Value(c) - Value(d)) <==> !Misread(c + x, d + y)
  {
    ChunksPart(c, d);
    var i := Common(c, d);
    RestsDecide(c, d, i);
    SuffixChunk(c, i);
    SuffixChunk(d, i);
    AtOnce(c[i..], d[i..], x, y);
    StripTo(c, d, i, x, y);
  }

  lemma StripTo(c: seq<Octet>, d: seq<Octet>, i: nat, x: seq<Octet>, y: seq<Octet>)
    requires i <= |c| && i <= |d| && c[..i] == d[..i]
    ensures Verdict(c + x, d + y) == Verdict(c[i..] + x, d[i..] + y)
    ensures Misread(c + x, d + y) <==> Misread(c[i..] + x, d[i..] + y)
  {
    var p, a, b := c[..i], c[i..] + x, d[i..] + y;
    CommonStrips(p, a, b);
    MisreadStrips(p, a, b);
    SplitAt(c, i, x);
    SplitAt(d, i, y);
  }

  lemma EmptyOrder(x: seq<Octet>, y: seq<Octet>)
    requires x == [] || y == []
    ensures Order(x, y) == Sign(|x| - |y|) == Lex(Decode(x), Decode(y))
  {
    assert Verdict(x, y) == 0;
  }

  /** The exact condition: snmpVCompare orders two identifiers as their sub-identifiers are
      ordered if and only if it does not misread them where they first differ. */
  lemma {:induction false} OrderedExactly(x: seq<Octet>, y: seq<Octet>)
    requires WellFormed(x) && WellFormed(y)
    ensures Order(x, y) == Lex(Decode(x), Decode(y)) <==> !Misread(x, y)
    decreases |x|
  {
    if x == [] || y == [] {
      EmptyOrder(x, y);
    } else {
      var c, d, xs, ys := First(x), First(y), Rest(x), Rest(y);
      LeadingChunk(x);
      LeadingChunk(y);
      LexByHeads(Value(c), Value(d), Decode(xs), Decode(ys));
      if c == d {
        CommonStrips(c, xs, ys);
        MisreadStrips(c, xs, ys);
        OrderedExactly(xs, ys);
      } else {
        DifferentFirst(c, d, xs, ys);
      }
    }
  }

  /** Clean identifiers below 2^32 are not misread. */
  lemma CleanIsRead(x: seq<Octet>, y: seq<Octet>)
    requires WellFormed(x) && WellFormed(y) && Small(x) && Small(y) && Clean(x) && Clean(y)
    ensures !Misread(x, y)
  {
    var n := Common(x, y);
    if n < |x| && n < |y| {
      var a, b := First(x[n..]), First(y[n..]);
      CleanRestAt(x, n);
      CleanRestAt(y, n);
      ReadRight(a, b);
    }
  }

  lemma ReadRight(a: seq<Octet>, b: seq<Octet>)
    requires CleanChunk(a) && CleanChunk(b) && a[0] != b[0] && Value(a) < WORD32 && Value(b) < WORD32
    ensures !ReadWrong(a, b)
  {
    FitsWord32(Value(a));
    FitsWord32(Value(b));
    if |a| > |b| {
      MoreDigits(a, b);
    } else if |a| < |b| {
      MoreDigits(b, a);
    } else {
      SameLength(a, b);
    }
  }

  lemma RestIsNotAbove(c: seq<Octet>, n: nat)
    requires n <= |c|
    ensures Value(c[n..]) <= Value(c)
  {
    SplitValue(c, n);
    NonNegative(Value(c[..n]), Pow128(|c| - n));
  }

  lemma RestOfFirst(c: seq<Octet>, r: seq<Octet>, n: nat)
    requires CleanChunk(c) && n < |c|
    ensures First((c + r)[n..]) == c[n..] && CleanChunk(c[n..])
  {
    HeadOfPrefix(c[n..], r);
    assert (c + r)[n..] == c[n..] + r;
  }

  /** What snmpVCompare reads in the middle of a clean identifier is clean and not above the
      sub-identifier it is the rest of. */
  lemma {:induction false} CleanRestAt(x: seq<Octet>, n: nat)
    requires WellFormed(x) && Small(x) && Clean(x) && n < |x|
    ensures CleanChunk(First(x[n..])) && First(x[n..])[0] == x[n] && Value(First(x[n..])) < WORD32
    decreases |x|
  {
    var c, r := First(x), Rest(x);
    TakeApart(x);
    if n < |c| {
      RestOfFirst(c, r, n);
      RestIsNotAbove(c, n);
    } else {
      CleanRestAt(r, n - |c|);
      assert x[n..] == r[n - |c|..];
    }
  }

  /** A clean identifier taken apart at its first sub-identifier. */
  lemma TakeApart(x: seq<Octet>)
    requires WellFormed(x) && Clean(x) && x != []
    ensures x == First(x) + Rest(x) && CleanChunk(First(x)) && Clean(Rest(x))
  {
    var n := Head(x);
    forall i | 0 <= i < n - 1 ensures First(x)[i] > 0x80 {
      assert x[i] != 0x80 && x[i] >= 0x80;
    }
  }

  /** snmpVCompare orders clean identifiers as their sub-identifiers are ordered. */
  lemma OrderIsLexicographic(x: seq<Octet>, y: seq<Octet>)
    requires WellFormed(x) && WellFormed(y) && Small(x) && Small(y) && Clean(x) && Clean(y)
    ensures Order(x, y) == Lex(Decode(x), Decode(y))
  {
    CleanIsRead(x, y);
    OrderedExactly(x, y);
  }

  /** snmpVCompare on well-formed identifiers: the sign of the result is the order of their
      sub-identifiers, except where they are misread. */
  method CompareWellFormed(op1: seq<Octet>, op2: seq<Octet>) returns (cmp: int)
    requires WellFormed(op1) && WellFormed(op2) && |op1| <= 255 && |op2| <= 255
    ensures Sign(cmp) == Lex(Decode(op1), Decode(op2)) <==> !Misread(op1, op2)
    ensures Small(op1) && Small(op2) && Clean(op1) && Clean(op2) ==> !Misread(op1, op2)
  {
    WellFormedTerminated(op1);
    WellFormedTerminated(op2);
    OrderedExactly(op1, op2);
    if Small(op1) && Small(op2) && Clean(op1) && Clean(op2) {
      CleanIsRead(op1, op2);
    }
    cmp := VCompare(op1, op2);
  }

  /** It finds identifiers equal exactly when their octets are. */
  lemma OrderZero(x: seq<Octet>, y: seq<Octet>)
    ensures Order(x, y) == 0 <==> x == y
  {
    if x == y {
      CommonAtLeast(x, y, |x|);
    }
    if Order(x, y) == 0 {
      var n := Common(x, y);
      assert |x| == |y| == n;
      assert x == x[..n] && y == y[..n];
    }
  }

  lemma {:induction false} LexAntisymmetric(a: seq<nat>, b: seq<nat>)
    ensures Lex(a, b) == -Lex(b, a) && (Lex(a, b) == 0 <==> a == b)
  {
    if a != [] && b != [] && a[0] == b[0] {
      LexAntisymmetric(a[1..], b[1..]);
      assert a == [a[0]] + a[1..] && b == [b[0]] + b[1..];
    }
  }

  lemma {:induction false} LexTransitive(a: seq<nat>, b: seq<nat>, c: seq<nat>)
    requires Lex(a, b) <= 0 && Lex(b, c) <= 0
    ensures Lex(a, c) <= 0
  {
    if a != [] && b != [] && c != [] && a[0] == b[0] == c[0] {
      LexTransitive(a[1..], b[1..], c[1..]);
    }
  }

  lemma ThreeDigits(c: seq<Octet>)
    requires |c| > 2 && c[0] > 0x80
    ensures Value(c) >= 16384
  {
    LeadingPower(c);
    PowMonotone(2, |c| - 1);
    assert Pow128(2) == 128 * Pow128(1);
  }

  /** Sub-identifiers below 16384 take at most two octets, none of them 0x80. */
  lemma {:induction false} BelowTwoDigitsIsClean(x: seq<Octet>)
    requires WellFormed(x) && AllBelow(x, 16384)
    ensures Clean(x)
    decreases |x|
  {
    if x != [] {
      var c, r := First(x), Rest(x);
      BelowTwoDigitsIsClean(r);
      if |c| > 2 {
        ThreeDigits(c);
      }
      assert x == c + r;
    }
  }

  /** m digits, all of them 127. */
  function AllOnes(m: nat): (t: seq<Octet>)
    requires m >= 1
    ensures |t| == m && t[m - 1] == 0x7F && forall i :: 0 <= i < m - 1 ==> t[i] == 0xFF
    ensures CleanChunk(t)
  {
    seq(m - 1, _ => 0xFF) + [0x7F]
  }

  lemma {:induction false} AllOnesValue(m: nat)
    requires m >= 1
    ensures Value(AllOnes(m)) == Pow128(m) - 1
  {
    var t := AllOnes(m);
    if m == 1 {
      assert t[..0] == [];
      assert Value(t) == 128 * Value(t[..0]) + 0x7F;
    } else {
      var u := AllOnes(m - 1);
      assert t == [0xFF] + u && t[1..] == u;
      ValueFromFront(t);
      AllOnesValue(m - 1);
    }
  }

  /** A sub-identifier with an octet 0x80 at i, and the number snmpVCompare reads there. */
  lemma PaddingValue(c: seq<Octet>, i: nat)
    requires |c| > i + 1 && c[i] == 0x80
    ensures Value(c[i..]) < Pow128(|c| - 1 - i)
  {
    ValueFromFront(c[i..]);
    assert c[i..][1..] == c[i + 1..];
    ValueBound(c[i + 1..]);
  }

  /** Replacing the octet 0x80 and all that follows by one digit fewer makes the value smaller,
      although what stands from there on becomes larger. */
  lemma ReplacedValue(c: seq<Octet>, i: nat)
    requires 1 <= i < |c| - 1 && c[i] == 0x80 && c[0] > 0x80
    ensures var t := AllOnes(|c| - 1 - i);
            Value(c[i..]) <= Value(t) <= Value(c[..i] + t) < Value(c)
  {
    var m := |c| - 1 - i;
    var t := AllOnes(m);
    PaddingValue(c, i);
    AllOnesValue(m);
    LeadingIsPositive(c, i);
    SplitValue(c, i);
    ValueConcat(c[..i], t);
    assert |t| == m && |c| - i == m + 1;
    Shorter(Value(c[..i]), Pow128(m), Value(c[i..]));
  }

  lemma LeadingIsPositive(c: seq<Octet>, i: nat)
    requires 1 <= i <= |c| && c[0] > 0x80
    ensures Value(c[..i]) >= 1
  {
    ValueFromFront(c[..i]);
    ScaledUp(c[..i][0] % 0x80, Pow128(i - 1));
  }

  lemma Shorter(q: int, p: int, v: int)
    requires q >= 1 && p >= 1 && v >= 0
    ensures 0 <= q * p && q * p + p - 1 < q * (128 * p) + v
  {
    ScaledUp(q, p);
    assert q * (128 * p) == 128 * (q * p);
  }

  /** The first octet 0x80 of a sub-identifier. */
  lemma FirstPadding(c: seq<Octet>) returns (i: nat)
    requires Padded(c)
    ensures i < |c| && c[i] == 0x80 && forall k :: 0 <= k < i ==> c[k] != 0x80
  {
    i := 0;
    while c[i] != 0x80
      invariant i < |c| && forall k :: 0 <= k < i ==> c[k] != 0x80
      decreases |c| - i
    {
      i := i + 1;
    }
  }

  lemma DigitMisleads(d: seq<Octet>, t: seq<Octet>, r: seq<Octet>)
    requires Chunk(d) && Chunk(t) && d[0] == 0x80 && t[0] != 0x80 && Value(d) <= Value(t) < WORD32
    ensures Verdict(d + r, t) == -1
  {
    FitsWord32(Value(d));
    FitsWord32(Value(t));
    DifferIs(d, t, r, []);
    assert t + [] == t;
  }

  /** At the octet 0x80 the comparison takes the smaller number for the greater. */
  lemma PaddingMisleads(c: seq<Octet>, i: nat, r: seq<Octet>)
    requires Chunk(c) && 1 <= i < |c| - 1 && c[i] == 0x80 && c[0] > 0x80 && Value(c) < WORD32
    ensures Order(c + r, c[..i] + AllOnes(|c| - 1 - i)) == -1
  {
    var t := AllOnes(|c| - 1 - i);
    var d := c[i..];
    PaddingIsRead(c, i);
    DigitMisleads(d, t, r);
    var p := c[..i];
    CommonStrips(p, d + r, t);
    SplitAt(c, i, r);
  }

  lemma PaddingIsRead(c: seq<Octet>, i: nat)
    requires Chunk(c) && 1 <= i < |c| - 1 && c[i] == 0x80 && c[0] > 0x80 && Value(c) < WORD32
    ensures var t, d := AllOnes(|c| - 1 - i), c[i..];
            Chunk(d) && Chunk(t) && d[0] == 0x80 && t[0] != 0x80 && Value(d) <= Value(t) < WORD32
  {
    ReplacedValue(c, i);
    SuffixChunk(c, i);
  }

  lemma SplitAt(c: seq<Octet>, i: nat, r: seq<Octet>)
    requires i <= |c|
    ensures c + r == c[..i] + (c[i..] + r)
  {
  }

  /** The clean identifier that replaces a sub-identifier c with an octet 0x80 at i. */
  lemma ReplacementIsClean(c: seq<Octet>, i: nat) returns (y: seq<Octet>)
    requires Chunk(c) && 1 <= i < |c| - 1 && c[0] > 0x80 && c[i] == 0x80 && Value(c) < WORD32
    requires forall k :: 0 <= k < i ==> c[k] != 0x80
    ensures y == c[..i] + AllOnes(|c| - 1 - i) && WellFormed(y) && Small(y) && Clean(y) && |y| < |c|
    ensures Decode(y) == [Value(y)] && Value(y) < Value(c)
  {
    y := c[..i] + AllOnes(|c| - 1 - i);
    ReplacedValue(c, i);
    assert Chunk(y) && y[0] == c[0] && Clean(y);
    OneNumber(y);
  }

  /** An identifier of one sub-identifier. */
  lemma OneNumber(y: seq<Octet>)
    requires Chunk(y) && y[0] != 0x80
    ensures WellFormed(y) && Decode(y) == [Value(y)] && (Value(y) < WORD32 ==> Small(y))
  {
    assert y + [] == y;
    HeadOfPrefix(y, []);
    DecodeCons(y, []);
  }

  /** An identifier with an octet 0x80 is put before some clean identifier it ought to follow. */
  lemma {:induction false} Misordered(x: seq<Octet>) returns (y: seq<Octet>)
    requires WellFormed(x) && Small(x) && !Clean(x)
    ensures WellFormed(y) && Small(y) && Clean(y) && |y| < |x|
    ensures Order(x, y) == -1 && Lex(Decode(x), Decode(y)) == 1
    decreases |x|
  {
    var c, r := First(x), Rest(x);
    LeadingChunk(x);
    if Padded(c) {
      y := MisorderedHere(c, r);
    } else {
      CleanRest(c, r);
      var z := Misordered(r);
      y := c + z;
      CommonStrips(c, r, z);
      LexByHeads(Value(c), Value(c), Decode(r), Decode(z));
      PrefixKeeps(c, z);
    }
  }

  lemma LeadingChunk(x: seq<Octet>)
    requires WellFormed(x) && x != []
    ensures x == First(x) + Rest(x) && Chunk(First(x)) && First(x)[0] != 0x80 && |First(x)| + |Rest(x)| == |x|
  {
    assert First(x)[Head(x) - 1] == x[Head(x) - 1];
  }

  /** Some octet is 0x80. */
  predicate Padded(c: seq<Octet>) {
    exists k :: 0 <= k < |c| && c[k] == 0x80
  }

  lemma CleanRest(c: seq<Octet>, r: seq<Octet>)
    requires !Padded(c)
    ensures Clean(c) && (Clean(r) ==> Clean(c + r))
  {
  }

  lemma MisorderedHere(c: seq<Octet>, r: seq<Octet>) returns (y: seq<Octet>)
    requires Chunk(c) && c[0] != 0x80 && Value(c) < WORD32 && Padded(c)
    ensures WellFormed(y) && Small(y) && Clean(y) && |y| < |c| && Order(c + r, y) == -1
    ensures Lex([Value(c)] + Decode(r), Decode(y)) == 1
  {
    var i := FirstPadding(c);
    y := ReplacementIsClean(c, i);
    PaddingMisleads(c, i, r);
    assert [Value(y)] + [] == [Value(y)];
    LexByHeads(Value(c), Value(y), Decode(r), []);
  }

  lemma PrefixKeeps(c: seq<Octet>, y: seq<Octet>)
    requires Chunk(c) && c[0] != 0x80 && Clean(c) && Value(c) < WORD32 && WellFormed(y) && Small(y) && Clean(y)
    ensures WellFormed(c + y) && Small(c + y) && Clean(c + y) && Decode(c + y) == [Value(c)] + Decode(y)
  {
    DecodeCons(c, y);
    HeadOfPrefix(c, y);
  }

  /** The exact condition: snmpVCompare agrees with the order of sub-identifiers on x and
      every clean identifier if and only if x itself has no octet 0x80. */
  lemma OrderedExactlyIfClean(x: seq<Octet>)
    requires WellFormed(x) && Small(x)
    ensures Clean(x) <==>
              forall y: seq<Octet> :: WellFormed(y) && Small(y) && Clean(y) ==> Order(x, y) == Lex(Decode(x), Decode(y))
  {
    if Clean(x) {
      forall y: seq<Octet> | WellFormed(y) && Small(y) && Clean(y) ensures Order(x, y) == Lex(Decode(x), Decode(y)) {
        OrderIsLexicographic(x, y);
      }
    } else {
      var y := Misordered(x);
    }
  }

  /** What the search makes of one entry. */
  method CompareEntry(target: seq<Octet>, entry: seq<Octet>) returns (r: int)
    requires Terminated(target) && Terminated(entry) && |target| <= 255 && |entry| <= 255
    ensures r == Returned(target, entry) && (r == 0 <==> target == entry)
  {
    r := VCompare(target, entry);
  }

  /** The search result of snmpFindOID: an index, or no table entry. */
  method FindOID(table: Option<seq<seq<Octet>>>, target: seq<Octet>) returns (found: Option<nat>, r: int)
    requires Terminated(target) && |target| <= 255
    requires table.Some? ==> forall e :: e in table.value ==> Terminated(e) && |e| <= 255
    ensures table == None ==> found == None && r == 1
    ensures table.Some? && table.value != [] ==>
              && (r == 0 <==> target in table.value) && (found.Some? <==> r == 0)
              && (found.Some? ==> found.value < |table.value| && table.value[found.value] == target
                                  && target !in table.value[..found.value])
    ensures table == Some([]) ==> found == Some(0) && r == 0
    ensures table.Some? && r != 0 ==> r == Returned(target, table.value[|table.value| - 1])
  {
    if table == None {
      return None, 1;
    }
    var low;
    low, r := Search(table.value, target);
    found := if r != 0 then None else Some(low);
  }

  /** The loop of snmpFindOID. */
  method Search(table: seq<seq<Octet>>, target: seq<Octet>) returns (low: nat, r: int)
    requires Terminated(target) && |target| <= 255
    requires forall e :: e in table ==> Terminated(e) && |e| <= 255
    ensures low <= |table| && forall k :: 0 <= k < low ==> table[k] != target
    ensures if low < |table| then r == 0 && table[low] == target
            else if low > 0 then r != 0 && r == Returned(target, table[low - 1]) else r == 0
  {
    low, r := 0, 0;
    while low < |table|
      invariant low <= |table| && forall k :: 0 <= k < low ==> table[k] != target
      invariant if low > 0 then r != 0 && r == Returned(target, table[low - 1]) else r == 0
    {
      var entry := table[low];
      r := CompareEntry(target, entry);
      if r == 0 {
        return;
      }
      low := low + 1;
    }
  }
}
