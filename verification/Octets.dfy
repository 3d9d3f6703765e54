/** Octets, and the base-128 values that sub-identifiers are written in. */
module Octets {
  import opened Arith
  import opened Words

  function Pow128(n: nat): (p: nat)
    ensures p >= 1
  {
    if n == 0 then 1 else 128 * Pow128(n - 1)
  }

  /** The number whose base-128 digits are the low seven bits of the octets. */
  function Value(c: seq<Octet>): nat {
    if c == [] then 0 else 128 * Value(c[..|c| - 1]) + c[|c| - 1] % 0x80
  }

  lemma ValueSnoc(c: seq<Octet>, d: Octet)
    ensures Value([]) == 0 && Value(c + [d]) == 128 * Value(c) + d % 0x80
  {
    assert (c + [d])[..|c|] == c;
  }

  lemma {:induction false} ValueBound(c: seq<Octet>)
    ensures Value(c) < Pow128(|c|)
  {
    if c != [] {
      ValueBound(c[..|c| - 1]);
    }
  }

  /** The same number seen from its leading digit. */
  lemma {:induction false} ValueFromFront(c: seq<Octet>)
    requires c != []
    ensures Value(c) == c[0] % 0x80 * Pow128(|c| - 1) + Value(c[1..])
  {
    if |c| > 1 {
      var n := |c| - 1;
      ValueFromFront(c[..n]);
      assert c[..n][1..] == c[1..][..n - 1];
      Scale(c[0] % 0x80, Pow128(n - 1), Value(c[1..][..n - 1]));
    }
  }

  lemma {:induction false} PowMonotone(m: nat, n: nat)
    requires m <= n
    ensures Pow128(m) <= Pow128(n)
  {
    if m < n {
      PowMonotone(m, n - 1);
    }
  }

  /** Octets whose leading digit is not 0 use it. */
  lemma LeadingPower(c: seq<Octet>)
    requires c != [] && c[0] % 0x80 != 0
    ensures Value(c) >= Pow128(|c| - 1)
  {
    ValueFromFront(c);
    ScaledUp(c[0] % 0x80, Pow128(|c| - 1));
  }

  /** Then more octets mean a greater value. */
  lemma MoreDigits(c: seq<Octet>, d: seq<Octet>)
    requires |c| > |d| && c[0] % 0x80 != 0
    ensures Value(c) > Value(d)
  {
    LeadingPower(c);
    ValueBound(d);
    PowMonotone(|d|, |c| - 1);
  }

  lemma Scale(d: int, p: int, v: int)
    ensures 128 * (d * p + v) == d * (128 * p) + 128 * v
  {
  }

  /** The octets of the first sub-identifier of s, up to the first without its high bit. */
  function Head(s: seq<Octet>): (n: nat)
    ensures n <= |s| && (s != [] ==> n >= 1)
    ensures forall i :: 0 <= i < n - 1 ==> s[i] >= 0x80
  {
    if s == [] then 0
    else if s[0] < 0x80 then 1
    else 1 + Head(s[1..])
  }

  lemma {:induction false} HeadStops(s: seq<Octet>)
    ensures Head(s) < |s| ==> Head(s) >= 1 && s[Head(s) - 1] < 0x80
  {
    if s != [] && s[0] >= 0x80 {
      HeadStops(s[1..]);
    }
  }

  function First(s: seq<Octet>): seq<Octet> {
    s[..Head(s)]
  }

  function Rest(s: seq<Octet>): seq<Octet> {
    s[Head(s)..]
  }

  /** The last octet ends a sub-identifier. */
  predicate Terminated(s: seq<Octet>) {
    s == [] || s[|s| - 1] < 0x80
  }

  /** A sub-identifier ends somewhere in s. */
  predicate Complete(s: seq<Octet>) {
    s != [] && s[Head(s) - 1] < 0x80
  }

  lemma {:induction false} HeadEnds(s: seq<Octet>)
    requires Terminated(s) && s != []
    ensures Complete(s) && Terminated(Rest(s))
  {
    if s[0] >= 0x80 {
      HeadEnds(s[1..]);
    }
  }

  /** A complete sub-identifier: only its last octet lacks the high bit. */
  predicate Chunk(c: seq<Octet>) {
    c != [] && c[|c| - 1] < 0x80 && forall i :: 0 <= i < |c| - 1 ==> c[i] >= 0x80
  }

  /** What precedes and follows a complete sub-identifier does not matter to it. */
  lemma {:induction false} HeadOfPrefix(c: seq<Octet>, s: seq<Octet>)
    requires Chunk(c)
    ensures Head(c + s) == |c| && First(c + s) == c && Rest(c + s) == s
  {
    if |c| > 1 {
      HeadOfPrefix(c[1..], s);
      assert (c + s)[1..] == c[1..] + s;
    }
  }

  /** Octets that encode sub-identifiers as section 8.19 of ITU-T X.690 prescribes: each one
      ends, and none starts with the padding octet 0x80. */
  ghost predicate WellFormed(s: seq<Octet>)
    decreases |s|
  {
    s == [] || (s[Head(s) - 1] < 0x80 && s[0] != 0x80 && WellFormed(Rest(s)))
  }

  lemma {:induction false} WellFormedTerminated(s: seq<Octet>)
    requires WellFormed(s)
    ensures Terminated(s)
    decreases |s|
  {
    if s != [] {
      WellFormedTerminated(Rest(s));
    }
  }

  function Decode(s: seq<Octet>): seq<nat>
    decreases |s|
  {
    if s == [] then [] else [Value(First(s))] + Decode(Rest(s))
  }

  lemma {:induction false} ValueConcat(a: seq<Octet>, b: seq<Octet>)
    ensures Value(a + b) == Value(a) * Pow128(|b|) + Value(b)
  {
    if b == [] {
      assert a + b == a;
    } else {
      var n := |b| - 1;
      ValueConcat(a, b[..n]);
      assert (a + b)[..|a + b| - 1] == a + b[..n];
      Scale(Value(a), Pow128(n), Value(b[..n]));
    }
  }

  lemma SplitValue(c: seq<Octet>, i: nat)
    requires i <= |c|
    ensures Value(c) == Value(c[..i]) * Pow128(|c| - i) + Value(c[i..])
  {
    var a, b := c[..i], c[i..];
    assert a + b == c && |b| == |c| - i;
    ValueConcat(a, b);
  }

  lemma DecodeCons(c: seq<Octet>, s: seq<Octet>)
    requires Chunk(c)
    ensures Decode(c + s) == [Value(c)] + Decode(s)
    ensures c[0] != 0x80 && WellFormed(s) ==> WellFormed(c + s)
  {
    HeadOfPrefix(c, s);
  }

  /** Every sub-identifier is below the bound. */
  ghost predicate AllBelow(s: seq<Octet>, bound: nat)
    decreases |s|
  {
    s == [] || (Value(First(s)) < bound && AllBelow(Rest(s), bound))
  }

  lemma {:induction false} AllBelowMeans(s: seq<Octet>, bound: nat)
    ensures AllBelow(s, bound) <==> forall v :: v in Decode(s) ==> v < bound
    decreases |s|
  {
    if s != [] {
      AllBelowMeans(Rest(s), bound);
      assert Value(First(s)) in Decode(s);
      assert forall v :: v in Decode(Rest(s)) ==> v in Decode(s);
    }
  }

  /** The digits of a number, all of them marked as unfinished. */
  function Digits(v: nat): (c: seq<Octet>)
    ensures forall i :: 0 <= i < |c| ==> c[i] >= 0x80
    ensures v > 0 ==> c != [] && c[0] > 0x80
  {
    if v == 0 then [] else Digits(v / 128) + [v % 128 + 0x80]
  }

  lemma {:induction false} DigitsMean(v: nat)
    ensures Value(Digits(v)) == v
  {
    if v > 0 {
      DigitsMean(v / 128);
      DigitBack(v);
      ValueSnoc(Digits(v / 128), v % 128 + 0x80);
    }
  }

  lemma DigitBack(v: nat)
    ensures (v % 128 + 0x80) % 0x80 == v % 128 == v % 128 % 0x80
  {
    DivModUnique(v % 128 + 0x80, 0x80, 1, v % 128);
  }

  /** Every number is the value of a sub-identifier without padding ... */
  lemma NumberHasChunk(v: nat) returns (c: seq<Octet>)
    ensures Chunk(c) && c[0] != 0x80 && Value(c) == v
  {
    c := Digits(v / 128) + [v % 128];
    DigitsMean(v / 128);
    DigitBack(v);
    ValueSnoc(Digits(v / 128), v % 128);
  }

  /** ... and every list of numbers is an identifier. */
  lemma {:induction false} ListHasIdentifier(ids: seq<nat>) returns (s: seq<Octet>)
    ensures WellFormed(s) && Decode(s) == ids
  {
    if ids == [] {
      s := [];
    } else {
      var c := NumberHasChunk(ids[0]);
      var r := ListHasIdentifier(ids[1..]);
      DecodeCons(c, r);
      s := c + r;
      assert ids == [ids[0]] + ids[1..];
    }
  }

  /** A number below 128 takes one octet ... */
  lemma OneDigit(e: Octet, s: seq<Octet>)
    requires e < 0x80
    ensures Decode([e] + s) == [e] + Decode(s) && (WellFormed(s) ==> WellFormed([e] + s))
  {
    ValueSnoc([], e);
    assert [] + [e] == [e];
    DecodeCons([e], s);
  }

  /** ... and from there on two, of which the first must not be 0x80. */
  lemma TwoDigits(d: Octet, e: Octet, s: seq<Octet>)
    requires d >= 0x80 && e < 0x80
    ensures Decode([d, e] + s) == [0x80 * (d - 0x80) + e] + Decode(s)
    ensures WellFormed(s) ==> (WellFormed([d, e] + s) <==> d != 0x80)
  {
    ValueSnoc([], d);
    ValueSnoc([d], e);
    assert [] + [d] == [d] && [d] + [e] == [d, e];
    DivModUnique(d, 0x80, 1, d - 0x80);
    DecodeCons([d, e], s);
    assert ([d, e] + s)[0] == d;
  }
}
