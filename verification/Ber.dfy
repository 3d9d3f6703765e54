/** Basic encoding rules in snmp_SNMP.c: lengths, integers and sub-identifiers, written backwards
    into a buffer and read forwards. */
module Ber {
  import opened Arith
  import opened Words
  import opened Octets
  import opened SnmpOid

  const INTEGER := 0x02

  // ----- Tag and length -----

  /** The length octets of section 8.1.3 of ITU-T X.690, in the shortest form; a negative number
      becomes one octet as well. */
  function LengthOctets(len: int): (s: seq<Octet>)
    requires -0x8000 <= len <= 0x7FFF
    ensures 1 <= |s| <= 3
  {
    if len <= 0x7F then [len % 0x100]
    else if len <= 0xFF then [0x81, len]
    else [0x82, len / 0x100, len % 0x100]
  }

  function Header(tag: Octet, len: int): (s: seq<Octet>)
    requires -0x8000 <= len <= 0x7FFF
    ensures 2 <= |s| <= 4
  {
    [tag] + LengthOctets(len)
  }

  function Pair(high: int, low: int): int {
    0x100 * high + low
  }

  /** How many octets a header occupies, as far as it is read. */
  function HeaderSize(s: seq<Octet>, tag: nat): (n: nat) {
    if |s| < 2 || s[0] != tag || s[1] < 0x80 then 2
    else if s[1] == 0x81 then 3
    else if s[1] == 0x82 then 4
    else 2
  }

  /** The length a header states; -1 stands for another tag, or for a length of no or of more
      than two octets. */
  function HeaderLength(s: seq<Octet>, tag: nat): int
    requires |s| >= HeaderSize(s, tag)
  {
    if s[0] != tag then -1
    else if s[1] < 0x80 then s[1]
    else if s[1] == 0x81 then s[2]
    else if s[1] == 0x82 then Signed16(Pair(s[2], s[3]))
    else -1
  }

  predicate Accepted(s: seq<Octet>, tag: nat) {
    |s| >= 2 && s[0] == tag && (s[1] < 0x80 || s[1] == 0x81 || s[1] == 0x82)
  }

  /** snmpReadLength.  The position moves only past a header that was accepted. */
  method ReadLength(buf: seq<Octet>, pos: nat, tag: nat) returns (len: int, next: nat)
    requires pos <= |buf| && |buf[pos..]| >= HeaderSize(buf[pos..], tag)
    ensures len == HeaderLength(buf[pos..], tag)
    ensures next == if Accepted(buf[pos..], tag) then pos + HeaderSize(buf[pos..], tag) else pos
    ensures if buf[pos] != tag || buf[pos + 1] == 0x80 || buf[pos + 1] > 0x82 then len == -1 && next == pos
            else if buf[pos + 1] < 0x80 then len == buf[pos + 1] && next == pos + 2
            else if buf[pos + 1] == 0x81 then len == buf[pos + 2] && next == pos + 3
            else len == 0x100 * buf[pos + 2] as int + buf[pos + 3] - (if buf[pos + 2] < 0x80 then 0 else 0x1_0000) && next == pos + 4
  {
    ghost var s := buf[pos..];
    assert forall i :: 0 <= i < |s| ==> s[i] == buf[pos + i];
    next := pos;
    var p := pos;
    if buf[p] != tag {
      return -1, pos;
    }
    len := buf[p + 1];
    p := p + 2;
    if len >= 0x80 {
      var count := len - 0x80;
      if count == 0 || count > 2 {
        return -1, pos;
      }
      len := 0;
      while count > 0
        invariant 0 <= count <= 2 && p + count == pos + HeaderSize(s, tag)
        invariant p == pos + 2 ==> len == 0 && count == s[1] - 0x80
        invariant p == pos + 3 ==> len == s[2] && count == s[1] - 0x81
        invariant p == pos + 4 ==> len == Signed16(Pair(s[2], s[3])) && count == 0
        invariant pos + 2 <= p <= pos + 4
      {
        len := Signed16(Pair(len, buf[p]));
        p := p + 1;
        count := count - 1;
      }
    }
    next := p;
  }

  /** snmpRWriteLength. */
  method RWriteLength(buf: array<Octet>, pos: nat, tag: Octet, len: int) returns (p: nat)
    requires -0x8000 <= len <= 0x7FFF && |Header(tag, len)| <= pos <= buf.Length
    modifies buf
    ensures p == pos - |Header(tag, len)| && buf[p..pos] == Header(tag, len)
    ensures buf[p] == tag && p == pos - (if len <= 0x7F then 2 else if len <= 0xFF then 3 else 4)
    ensures len <= 0x7F ==> buf[p + 1] == if len < 0 then (len + 0x8000) % 0x100 else len
    ensures 0x7F < len <= 0xFF ==> buf[p + 1] == 0x81 && buf[p + 2] == len
    ensures len > 0xFF ==> buf[p + 1] == 0x82 && 0x100 * buf[p + 2] as int + buf[p + 3] == len
    ensures forall i :: 0 <= i < p || pos <= i < buf.Length ==> buf[i] == old(buf[i])
  {
    p := pos;
    var rest := len;
    if rest > 0x7F {
      var size := if rest > 0xFF then 2 else 1;
      if size == 2 {
        p := p - 1;
        buf[p] := rest % 0x100;
        rest := rest / 0x100;
      }
      p := p - 1;
      buf[p] := rest % 0x100;
      p := p - 1;
      buf[p] := size + 0x80;
    } else {
      p := p - 1;
      buf[p] := rest % 0x100;
    }
    p := p - 1;
    buf[p] := tag;
  }

  /** This length is read, and so many octets are passed over. */
  predicate ReadsAs(s: seq<Octet>, tag: Octet, len: int, size: nat) {
    Accepted(s, tag) && size == HeaderSize(s, tag) <= |s| && HeaderLength(s, tag) == len
  }

  /** A length that was written is read back, and exactly its header passed over, if and only if it
      is not negative. */
  lemma LengthRoundTrip(tag: Octet, len: int, rest: seq<Octet>)
    requires -0x8000 <= len <= 0x7FFF
    ensures ReadsAs(Header(tag, len) + rest, tag, len, |Header(tag, len)|) <==> len >= 0
  {
    var h := Header(tag, len);
    var s := h + rest;
    assert s[0] == h[0] && s[1] == h[1];
    assert |h| > 2 ==> s[2] == h[2];
    assert |h| > 3 ==> s[3] == h[3];
  }

  /** No accepted header states a length in fewer octets. */
  lemma HeaderIsShortest(s: seq<Octet>, tag: Octet)
    requires |s| >= HeaderSize(s, tag) && Accepted(s, tag) && HeaderLength(s, tag) >= 0
    ensures |Header(tag, HeaderLength(s, tag))| <= HeaderSize(s, tag)
  {
    if s[1] == 0x82 {
      assert HeaderSize(s, tag) == 4;
    }
  }

  // ----- Integers -----

  function Pow256(n: nat): (p: nat)
    ensures p >= 1
  {
    if n == 0 then 1 else 0x100 * Pow256(n - 1)
  }

  /** Octets as a number, most significant first. */
  function Big(s: seq<Octet>): (v: nat) {
    if s == [] then 0 else 0x100 * Big(s[..|s| - 1]) + s[|s| - 1]
  }

  /** Octets as a two's complement number. */
  function Twos(s: seq<Octet>): int {
    if s != [] && s[0] >= 0x80 then Big(s) - Pow256(|s|) else Big(s)
  }

  predicate OneOctet(m: int) {
    -0x80 <= m < 0x80
  }

  /** The contents octets of an integer, as section 8.3 of ITU-T X.690 has them. */
  function Encoded(m: int): (s: seq<Octet>)
    ensures s != []
    decreases Abs(m)
  {
    if OneOctet(m) then [m % 0x100] else Encoded(m / 0x100) + [m % 0x100]
  }

  /** Adding an octet at the end of a two's complement number. */
  lemma TwosSnoc(s: seq<Octet>, b: Octet)
    requires s != []
    ensures Twos(s + [b]) == 0x100 * Twos(s) + b
  {
    assert (s + [b])[..|s|] == s;
  }

  lemma OneOctetMeans(m: int)
    requires OneOctet(m)
    ensures Twos([m % 0x100]) == m
  {
    var s := [m % 0x100];
    assert s[..0] == [] && Big([]) == 0;
    assert Big(s) == 0x100 * Big(s[..0]) + s[0];
    assert Pow256(1) == 0x100 * Pow256(0);
    DivModUnique(m, 0x100, if m < 0 then -1 else 0, if m < 0 then m + 0x100 else m);
  }

  lemma {:induction false} EncodedMeans(m: int)
    ensures Twos(Encoded(m)) == m
    decreases Abs(m)
  {
    if OneOctet(m) {
      OneOctetMeans(m);
    } else {
      EncodedMeans(m / 0x100);
      TwosSnoc(Encoded(m / 0x100), m % 0x100);
    }
  }

  lemma TwosSplit(s: seq<Octet>)
    requires |s| > 1
    ensures Twos(s) / 0x100 == Twos(s[..|s| - 1]) && Twos(s) % 0x100 == s[|s| - 1]
  {
    var t := s[..|s| - 1];
    assert s == t + [s[|s| - 1]];
    TwosSnoc(t, s[|s| - 1]);
    DivModUnique(Twos(s), 0x100, Twos(t), s[|s| - 1]);
  }

  /** Any other octets with the same meaning are longer: the encoding is the shortest one, and
      the only one of its length. */
  lemma {:induction false} EncodedIsShortest(s: seq<Octet>)
    requires s != []
    ensures |Encoded(Twos(s))| <= |s|
    ensures |Encoded(Twos(s))| == |s| ==> Encoded(Twos(s)) == s
  {
    if |s| == 1 {
      assert s[..0] == [] && Big(s) == s[0];
      assert Twos(s) == Signed8(s[0]);
    } else {
      var t := s[..|s| - 1];
      TwosSplit(s);
      EncodedIsShortest(t);
      assert s == t + [s[|s| - 1]];
    }
  }

  function Signed8(b: int): (m: int) {
    if b >= 0x80 then b - 0x100 else b
  }

  /** The number a caller of snmpRWriteInt means by len octets val. */
  function Meant(val: int, tag: nat, len: nat): int
    requires len >= 1
  {
    if tag == INTEGER && val >= 0x80 * Pow256(len - 1) then val - Pow256(len) else val
  }

  /** Bit 7 of the low octet. */
  predicate High(x: int) {
    x % 0x100 >= 0x80
  }

  lemma HighOfOctet(val: int, p: int)
    requires 0 <= val < 0x100 * p && p >= 1
    ensures High(val / p) <==> val >= 0x80 * p
  {
    var q := val / p;
    assert val == p * q + val % p;
    if q >= 0x80 {
      Monotone(p, 0x80, q);
    } else {
      Monotone(p, q, 0x7F);
    }
    if q >= 0x100 {
      Monotone(p, 0x100, q);
    }
    assert q >= 0 by {
      if q < 0 {
        Monotone(p, q, -1);
      }
    }
  }

  lemma QuotientAtLeast(m: int, p: int, k: int)
    requires p >= 1
    ensures m / p >= k <==> m >= p * k
  {
    var q := m / p;
    assert m == p * q + m % p;
    if q >= k {
      Monotone(p, k, q);
    } else {
      Monotone(p, q, k - 1);
      assert p * (k - 1) == p * k - p;
    }
  }

  /** Adding multiples of a higher power does not change octet i. */
  lemma OctetOf(m: int, t: int, i: nat, n: nat)
    requires i < n
    ensures (m + Pow256(n) * t) / Pow256(i) % 0x100 == m / Pow256(i) % 0x100
  {
    var p, k := Pow256(i), Pow256(n - 1 - i);
    PowSplit(i, n);
    Rearrange(p, k, t);
    QuotientShifts(m, p, 0x100 * (k * t));
    MultipleMod(k * t, 0x100, m / p);
  }

  lemma Rearrange(p: int, k: int, t: int)
    ensures p * (0x100 * k) * t == p * (0x100 * (k * t))
  {
  }

  lemma QuotientShifts(m: int, p: int, k: int)
    requires p >= 1
    ensures (m + p * k) / p == k + m / p
  {
    assert p * (k + m / p) == p * k + p * (m / p);
    DivModUnique(m + p * k, p, k + m / p, m % p);
  }

  lemma {:induction false} PowSplit(i: nat, n: nat)
    requires i < n
    ensures Pow256(n) == Pow256(i) * (0x100 * Pow256(n - 1 - i))
  {
    if i > 0 {
      PowSplit(i - 1, n - 1);
      Associate(0x100, Pow256(i - 1), 0x100 * Pow256(n - 1 - i));
    } else {
      assert Pow256(0) == 1;
    }
  }

  /** Numbers of at most n octets. */
  predicate Fits(m: int, n: nat)
    requires n >= 1
  {
    -0x80 * Pow256(n - 1) <= m < 0x80 * Pow256(n - 1)
  }

  lemma {:induction false} FitsMeans(m: int, n: nat)
    requires n >= 1
    ensures Fits(m, n) <==> |Encoded(m)| <= n
    decreases n
  {
    if n == 1 {
      assert Pow256(0) == 1;
    } else if !OneOctet(m) {
      FitsMeans(m / 0x100, n - 1);
    } else {
      assert Pow256(n - 1) == 0x100 * Pow256(n - 2);
    }
  }

  /** The test that drops a leading octet 0xFF is the test whether one octet fewer suffices. */
  lemma DropTest(m: int, i: nat)
    requires i >= 1 && -0x80 * Pow256(i) <= m < 0
    ensures m / Pow256(i) % 0x100 == 0xFF && High(m / Pow256(i - 1)) <==> -0x80 * Pow256(i - 1) <= m
  {
    var p := Pow256(i - 1);
    assert Pow256(i) == 0x100 * p;
    QuotientAtLeast(m, 0x100 * p, -0x80);
    QuotientAtLeast(m, 0x100 * p, 0);
    QuotientAtLeast(m, 0x100 * p, -1);
    QuotientAtLeast(m, p, -0x100);
    QuotientAtLeast(m, p, -0x80);
    QuotientAtLeast(m, p, 0);
  }

  /** The octets the loop of snmpRWriteInt writes. */
  function Contents(val: nat, count: int, pad: bool): (s: seq<Octet>)
    ensures s != []
    decreases val
  {
    if (val / 0x100 != 0 && count - 1 > 0) || (pad && High(val))
    then Contents(val / 0x100, count - 1, pad) + [val % 0x100]
    else [val % 0x100]
  }

  /** What is left to write: val holds the number m, plus t times the len-th power when m is
      negative, and count octets may still be written. */
  predicate Pending(val: int, m: int, t: nat, len: nat, count: int, pad: bool) {
    if pad then val == m && 0 <= m < Pow256(len) && count == len
    else m < 0 && t >= 1 && val == m + Pow256(len) * t && 1 <= count <= len && count == |Encoded(m)|
  }

  /** One octet later: the source goes on exactly if the number takes more than one octet. */
  lemma Onward(val: int, m: int, t: nat, len: nat, count: int, pad: bool)
    requires Pending(val, m, t, len, count, pad)
    ensures val >= 0 && val % 0x100 == m % 0x100
    ensures (val / 0x100 != 0 && count - 1 > 0) || (pad && High(val)) <==> !OneOctet(m)
    ensures !OneOctet(m) ==> len >= 1 && Pending(val / 0x100, m / 0x100, t, len - 1, count - 1, pad)
  {
    if pad {
      if len > 0 {
        QuotientAtLeast(m, 0x100, Pow256(len - 1));
      }
    } else {
      OnwardBelowZero(val, m, t, len, count);
    }
  }

  lemma OnwardBelowZero(val: int, m: int, t: nat, len: nat, count: int)
    requires Pending(val, m, t, len, count, false)
    ensures val >= 0 && val % 0x100 == m % 0x100
    ensures val / 0x100 != 0 && count - 1 > 0 <==> !OneOctet(m)
    ensures !OneOctet(m) ==> len >= 1 && Pending(val / 0x100, m / 0x100, t, len - 1, count - 1, false)
  {
    var p := Pow256(len - 1);
    FitsMeans(m, count);
    FitsMeans(m, len);
    assert Pow256(len) == 0x100 * p;
    ScaledUp(t, p);
    assert 0x100 * p * t == 0x100 * (p * t) && t * p == p * t;
    MultipleMod(p * t, 0x100, m);
    DivModUnique(val, 0x100, m / 0x100 + p * t, m % 0x100);
    if count > 1 {
      FitsMeans(m / 0x100, count - 1);
      FitsMeans(m / 0x100, len - 1);
    }
  }

  /** It writes the contents octets of that number. */
  lemma {:induction false} ContentsAreEncoded(val: nat, m: int, t: nat, len: nat, count: int, pad: bool)
    requires Pending(val, m, t, len, count, pad)
    ensures Contents(val, count, pad) == Encoded(m)
    decreases val
  {
    Onward(val, m, t, len, count, pad);
    if !OneOctet(m) {
      ContentsAreEncoded(val / 0x100, m / 0x100, t, len - 1, count - 1, pad);
    }
  }

  /** Whatever it writes are the low octets of val ... */
  lemma {:induction false} ContentsAreLow(val: nat, count: int, pad: bool)
    ensures Big(Contents(val, count, pad)) == val % Pow256(|Contents(val, count, pad)|)
    decreases val
  {
    var c := Contents(val, count, pad);
    if |c| == 1 {
      assert c[..0] == [] && Pow256(1) == 0x100 * Pow256(0);
    } else {
      var d := c[..|c| - 1];
      ContentsAreLow(val / 0x100, count - 1, pad);
      LowDigits(val, Pow256(|d|));
    }
  }

  lemma LowDigits(val: nat, p: nat)
    requires p >= 1
    ensures val % (0x100 * p) == 0x100 * (val / 0x100 % p) + val % 0x100
  {
    var q, d := val / 0x100, 0x100 * p;
    assert q == p * (q / p) + q % p;
    Associate(0x100, p, q / p);
    DivModUnique(val, d, q / p, 0x100 * (q % p) + val % 0x100);
  }

  /** ... at most one more than val has ... */
  lemma {:induction false} ContentsAreFew(val: nat, count: int, pad: bool, n: nat)
    requires val < Pow256(n)
    ensures |Contents(val, count, pad)| <= n + 1
    decreases n
  {
    if n > 0 {
      QuotientAtLeast(val, 0x100, Pow256(n - 1));
      ContentsAreFew(val / 0x100, count - 1, pad, n - 1);
    }
  }

  /** ... and, when they must not look negative, as many as it takes from count on until one is
      below 0x80. */
  lemma {:induction false} ContentsArePadded(val: nat, count: int)
    ensures var c := Contents(val, count, true);
            && c[0] < 0x80 && (count >= 1 && val >= Pow256(count) ==> |c| >= count)
            && forall i :: 1 <= i < |c| && i <= |c| - count ==> c[i] >= 0x80
    decreases val
  {
    var c := Contents(val, count, true);
    if |c| > 1 {
      var d := Contents(val / 0x100, count - 1, true);
      assert c == d + [val % 0x100];
      ContentsArePadded(val / 0x100, count - 1);
      if count > 1 {
        QuotientAtLeast(val, 0x100, Pow256(count - 1));
      }
    } else if count > 1 {
      MoreThanOne(val, count);
    }
  }

  lemma MoreThanOne(val: nat, count: int)
    requires count > 1 && val / 0x100 == 0
    ensures val < Pow256(count)
  {
    PowMonotone256(1, count);
    assert Pow256(1) == 0x100 * Pow256(0);
  }

  lemma {:induction false} PowMonotone256(m: nat, n: nat)
    requires m <= n
    ensures Pow256(m) <= Pow256(n)
  {
    if m < n {
      PowMonotone256(m, n - 1);
    }
  }

  /** Bit 7 of the leading one of len octets. */
  predicate Negative(val: nat, tag: nat, len: nat)
    requires len >= 1
  {
    tag == INTEGER && High(val / Pow256(len - 1))
  }

  /** The same seen from the low octets of val alone. */
  lemma NegativeMeans(val: nat, tag: nat, len: nat)
    requires len >= 1
    ensures var low := val % Pow256(len);
            0 <= low < Pow256(len) && (Negative(val, tag, len) <==> tag == INTEGER && low >= 0x80 * Pow256(len - 1))
  {
    var p := Pow256(len);
    var low := val % p;
    assert val == low + p * (val / p);
    OctetOf(low, val / p, len - 1, len);
    HighOfOctet(low, Pow256(len - 1));
  }

  /** The number of octets of a negative number, found by dropping leading octets 0xFF. */
  method Shortened(val: nat, len: nat) returns (n: nat)
    requires 1 <= len <= 4 && val % Pow256(len) >= 0x80 * Pow256(len - 1)
    ensures n == |Encoded(val % Pow256(len) - Pow256(len))| <= len
  {
    ghost var t := val / Pow256(len) + 1;
    ghost var m := val % Pow256(len) - Pow256(len);
    Wrapped(val, Pow256(len));
    n := len;
    var i := len - 1;
    FitsMeans(m, len);
    while i > 0
      invariant 0 <= i < len && n == i + 1 && Fits(m, n)
    {
      OctetOf(m, t, i, len);
      OctetOf(m, t, i - 1, len);
      DropTest(m, i);
      if val / Pow256(i) % 0x100 == 0xFF && High(val / Pow256(i - 1)) {
        n := n - 1;
      } else {
        FitsMeans(m, i);
        break;
      }
      i := i - 1;
    }
    FitsMeans(m, n);
  }

  lemma Wrapped(val: nat, p: nat)
    requires p >= 1
    ensures val == (val % p - p) + p * (val / p + 1)
  {
  }

  /** More octets of val than were asked for: as many as it takes from len on until the leading
      one is below 0x80. */
  predicate Overlong(c: seq<Octet>, val: nat, len: nat) {
    && |c| >= len >= 1 && Big(c) == val % Pow256(|c|)
    && c[0] < 0x80 && forall i :: 1 <= i <= |c| - len ==> c[i] >= 0x80
  }

  /** snmpRWriteInt.  Of a value of more than len octets the low ones are written when they look
      negative, and otherwise as many as it takes for them not to. */
  method RWriteInt(buf: array<Octet>, pos: nat, val: nat, tag: Octet, len: nat) returns (p: nat, ghost c: seq<Octet>)
    requires 1 <= len <= 4 && val < WORD32 && 7 <= pos <= buf.Length
    modifies buf
    ensures |c| <= 5 && p == pos - |Header(tag, |c|)| - |c| && buf[p..pos] == Header(tag, |c|) + c
    ensures if val < Pow256(len) || Negative(val, tag, len) then c == Encoded(Meant(val % Pow256(len), tag, len))
            else |c| >= len && Big(c) == val % Pow256(|c|) && c[0] < 0x80 && forall i :: 1 <= i <= |c| - len ==> c[i] >= 0x80
    ensures forall i :: 0 <= i < p || pos <= i < buf.Length ==> buf[i] == old(buf[i])
  {
    var pad, count := Lead(val, tag, len);
    ContentsMean(val, tag, len, count, pad);
    c := Contents(val, count, pad);
    p := WriteContents(buf, pos, val, count, pad);
    p := PutHeader(buf, p, pos, tag, c);
  }

  /** A header in front of what is written already. */
  method PutHeader(buf: array<Octet>, q: nat, pos: nat, tag: Octet, ghost c: seq<Octet>) returns (p: nat)
    requires q <= pos <= buf.Length && buf[q..pos] == c && |c| <= 0x7FFF && |Header(tag, |c|)| <= q
    modifies buf
    ensures p == q - |Header(tag, |c|)| && buf[p..pos] == Header(tag, |c|) + c
    ensures forall i :: 0 <= i < p || q <= i < buf.Length ==> buf[i] == old(buf[i])
  {
    assert |buf[q..pos]| == |c|;
    p := RWriteLength(buf, q, tag, pos - q);
    assert forall i :: q <= i < pos ==> buf[i] == old(buf[i]);
    assert buf[q..pos] == old(buf[q..pos]) == c;
    assert buf[p..pos] == buf[p..q] + buf[q..pos];
  }

  /** The start of snmpRWriteInt: whether the octets may look negative, and how many there are. */
  method Lead(val: nat, tag: Octet, len: nat) returns (pad: bool, count: nat)
    requires 1 <= len <= 4
    ensures pad == !Negative(val, tag, len)
    ensures count == if pad then len else |Encoded(val % Pow256(len) - Pow256(len))|
  {
    pad, count := true, len;
    NegativeMeans(val, tag, len);
    if tag == INTEGER && High(val / Pow256(len - 1)) {
      count := Shortened(val, len);
      pad := false;
    }
  }

  /** What those octets mean. */
  lemma ContentsMean(val: nat, tag: nat, len: nat, count: int, pad: bool)
    requires 1 <= len <= 4 && val < WORD32 && pad == !Negative(val, tag, len)
    requires count == if pad then len else |Encoded(val % Pow256(len) - Pow256(len))|
    ensures var c := Contents(val, count, pad);
            && |c| <= 5
            && if val < Pow256(len) || !pad then c == Encoded(Meant(val % Pow256(len), tag, len)) else Overlong(c, val, len)
  {
    Powers();
    ContentsAreFew(val, count, pad, 4);
    NegativeMeans(val, tag, len);
    if !pad {
      ContentsBelowZero(val, len, count);
    } else if val < Pow256(len) {
      RemainderIsLess(val, Pow256(len));
      ContentsAreEncoded(val, val, 0, len, count, pad);
    } else {
      ContentsAreOverlong(val, len);
    }
  }

  lemma ContentsAreOverlong(val: nat, len: nat)
    requires 1 <= len && val >= Pow256(len)
    ensures Overlong(Contents(val, len, true), val, len)
  {
    ContentsAreLow(val, len, true);
    ContentsArePadded(val, len);
  }

  lemma ContentsBelowZero(val: nat, len: nat, count: int)
    requires 1 <= len && val % Pow256(len) >= 0x80 * Pow256(len - 1)
    requires count == |Encoded(val % Pow256(len) - Pow256(len))|
    ensures Contents(val, count, false) == Encoded(val % Pow256(len) - Pow256(len))
  {
    var p := Pow256(len);
    var m := val % p - p;
    Wrapped(val, p);
    FitsMeans(m, len);
    ContentsAreEncoded(val, m, val / p + 1, len, count, false);
  }

  /** The loop of snmpRWriteInt. */
  method WriteContents(buf: array<Octet>, pos: nat, val: nat, count: int, pad: bool) returns (p: nat)
    requires |Contents(val, count, pad)| <= pos <= buf.Length
    modifies buf
    ensures p == pos - |Contents(val, count, pad)| && buf[p..pos] == Contents(val, count, pad)
    ensures forall i :: 0 <= i < p || pos <= i < buf.Length ==> buf[i] == old(buf[i])
  {
    p := pos;
    ghost var all := Contents(val, count, pad);
    var rest: nat, left, again := val, count, true;
    while again
      invariant p <= pos && |all| == pos - p + if again then |Contents(rest, left, pad)| else 0
      invariant all == (if again then Contents(rest, left, pad) else []) + buf[p..pos]
      invariant forall i :: 0 <= i < p || pos <= i < buf.Length ==> buf[i] == old(buf[i])
      decreases again, |all| - (pos - p)
    {
      ghost var was, ahead := buf[p..pos], Contents(rest, left, pad);
      p := p - 1;
      buf[p] := rest % 0x100;
      assert buf[p..pos] == [ahead[|ahead| - 1]] + was;
      again := (rest / 0x100 != 0 && left - 1 > 0) || (pad && High(buf[p]));
      rest, left := rest / 0x100, left - 1;
      assert ahead == (if again then Contents(rest, left, pad) else []) + [ahead[|ahead| - 1]];
    }
  }

  /** Each contents octet, from the last one on. */
  lemma {:induction false} EncodedOctet(m: int, i: nat)
    requires i < |Encoded(m)|
    ensures Encoded(m)[|Encoded(m)| - 1 - i] == m / Pow256(i) % 0x100
    decreases i
  {
    if i == 0 {
      assert Pow256(0) == 1;
    } else {
      EncodedOctet(m / 0x100, i - 1);
      QuotientTwice(m, Pow256(i - 1));
    }
  }

  lemma QuotientTwice(m: int, p: int)
    requires p >= 1
    ensures m / 0x100 / p == m / (0x100 * p)
  {
    var q := m / 0x100;
    Associate(0x100, p, q / p);
    assert m == 0x100 * (p * (q / p) + q % p) + m % 0x100;
    DivModUnique(m, 0x100 * p, q / p, 0x100 * (q % p) + m % 0x100);
  }

  lemma Powers()
    ensures Pow256(0) == 1 && Pow256(1) == 0x100 && Pow256(2) == 0x1_0000 && Pow256(3) == 0x100_0000 && Pow256(4) == 0x1_0000_0000
  {
    assert Pow256(1) == 0x100 * Pow256(0) && Pow256(2) == 0x100 * Pow256(1);
    assert Pow256(3) == 0x100 * Pow256(2) && Pow256(4) == 0x100 * Pow256(3);
  }

  lemma EncodedSizes(m: int)
    ensures |Encoded(m)| == 1 <==> -0x80 <= m < 0x80
    ensures |Encoded(m)| <= 2 <==> -0x8000 <= m < 0x8000
    ensures |Encoded(m)| <= 3 <==> -0x80_0000 <= m < 0x80_0000
    ensures |Encoded(m)| <= 4 <==> -0x8000_0000 <= m < 0x8000_0000
  {
    Powers();
    FitsMeans(m, 1);
    FitsMeans(m, 2);
    FitsMeans(m, 3);
    FitsMeans(m, 4);
  }

  /** The value of val as an INTEGER, whose tag is 2, and as any other type. */
  lemma MeantIs(val: nat, tag: Octet)
    ensures val < 0x1_0000_0000 ==> Meant(val, tag, 4) == if tag == 0x02 && val >= 0x8000_0000 then val - 0x1_0000_0000 else val
    ensures val < 0x100_0000 ==> Meant(val, tag, 3) == if tag == 0x02 && val >= 0x80_0000 then val - 0x100_0000 else val
    ensures val < 0x1_0000 ==> Meant(val, tag, 2) == if tag == 0x02 && val >= 0x8000 then val - 0x1_0000 else val
    ensures val < 0x100 ==> Meant(val, tag, 1) == if tag == 0x02 && val >= 0x80 then val - 0x100 else val
  {
    Powers();
  }

  /** The values -128 to -1 as an INTEGER of 4 octets: a tag of 2, a length of 1 and one octet. */
  method WriteSmallNegative(buf: array<Octet>, pos: nat, val: nat) returns (p: nat)
    requires 0xFFFF_FF80 <= val < 0x1_0000_0000 && 7 <= pos <= buf.Length
    modifies buf
    ensures p == pos - 3 && buf[p] == 0x02 && buf[p + 1] == 0x01 && buf[p + 2] == val - 0xFFFF_FF00
  {
    Powers();
    MeantIs(val, 0x02);
    var m := val - 0x1_0000_0000;
    assert val % Pow256(4) == val;
    assert Encoded(m) == [m % 0x100];
    DivModUnique(m, 0x100, -1, m + 0x100);
    ghost var c;
    p, c := RWriteInt(buf, pos, val, 0x02, 4);
    assert buf[p..pos] == [0x02, 0x01] + [m % 0x100];
    assert buf[p..pos][0] == 0x02 && buf[p..pos][1] == 0x01 && buf[p..pos][2] == m % 0x100;
  }

  /** The value snmpReadInt stores for contents octets c. */
  function Stored(c: seq<Octet>, tag: nat): int {
    (if tag == INTEGER then Twos(c) else Big(c)) % WORD32
  }

  lemma {:induction false} BigBound(s: seq<Octet>)
    ensures Big(s) < Pow256(|s|)
  {
    if s != [] {
      BigBound(s[..|s| - 1]);
    }
  }

  lemma BigSnoc(c: seq<Octet>, b: Octet)
    ensures Big([]) == 0 && Big(c + [b]) == 0x100 * Big(c) + b
  {
    assert (c + [b])[..|c|] == c;
  }

  /** What is stored, octet by octet: the first one of an INTEGER, whose tag is 2, has a sign. */
  lemma StoredIs(c: seq<Octet>, b: Octet, tag: nat)
    ensures Stored([], tag) == 0 && Stored([b], tag) == if tag == 0x02 && b >= 0x80 then 0xFFFF_FF00 + b else b
    ensures Stored(c + [b], tag) == if c == [] then Stored([b], tag) else (0x100 * Stored(c, tag) + b) % 0x1_0000_0000
  {
    StoredOne(b, tag);
    if c == [] {
      assert c + [b] == [b];
    } else {
      BigSnoc(c, b);
      TwosSnoc(c, b);
      var v := if tag == INTEGER then Twos(c) else Big(c);
      MultipleMod(0x100 * (v / WORD32), WORD32, 0x100 * (v % WORD32) + b);
    }
  }

  lemma StoredOne(b: Octet, tag: nat)
    ensures Stored([], tag) == 0 && Stored([b], tag) == if tag == 0x02 && b >= 0x80 then 0xFFFF_FF00 + b else b
  {
    Powers();
    BigSnoc([], b);
    assert [] + [b] == [b];
    if b >= 0x80 {
      DivModUnique(b - 0x100, WORD32, -1, 0xFFFF_FF00 + b);
    }
  }

  /** Extending the sign in 32 bits; a shift by 32 or more bits contributes nothing. */
  function Extend(v: int, n: nat): int {
    if n < 4 then v + (WORD32 - Pow256(n)) else v
  }

  lemma SignExtends(c: seq<Octet>)
    requires c != [] && c[0] >= 0x80
    ensures Extend(Big(c) % WORD32, |c|) == Twos(c) % WORD32
  {
    var n := |c|;
    BigBound(c);
    assert Pow256(4) == WORD32 == 0x100 * Pow256(3) && Pow256(3) == 0x1_00_00_00;
    if n < 4 {
      PowSplit(n, 4);
      ScaledUp(0x100 * Pow256(3 - n), Pow256(n));
      DivModUnique(Twos(c), WORD32, -1, Twos(c) + WORD32);
    } else {
      PowFour(n);
      var k: int := Pow256(n - 4);
      MultipleMod(-k, WORD32, Big(c));
    }
  }

  lemma {:induction false} PowFour(n: nat)
    requires n >= 4
    ensures Pow256(n) == WORD32 * Pow256(n - 4)
  {
    if n > 4 {
      PowFour(n - 1);
    } else {
      assert Pow256(4) == 0x100 * Pow256(3) && Pow256(3) == 0x100_0000;
    }
  }

  lemma ShiftOctet(s: seq<Octet>, i: nat)
    requires i < |s|
    ensures (0x100 * (Big(s[..i]) % WORD32) + s[i]) % WORD32 == Big(s[..i + 1]) % WORD32
  {
    assert s[..i + 1][..i] == s[..i];
    var v := Big(s[..i]);
    MultipleMod(0x100 * (v / WORD32), WORD32, 0x100 * (v % WORD32) + s[i]);
  }

  /** snmpReadInt. */
  method ReadInt(buf: seq<Octet>, olen: Octet, pos: nat, tag: nat) returns (len: int, value: int, next: nat)
    requires pos <= |buf| && |buf[pos..]| >= HeaderSize(buf[pos..], tag)
    requires HeaderLength(buf[pos..], tag) <= olen + 1 ==>
               pos + HeaderSize(buf[pos..], tag) + HeaderLength(buf[pos..], tag) <= |buf|
    ensures len == HeaderLength(buf[pos..], tag)
    ensures 0 <= len <= olen + 1 ==>
              var start := pos + HeaderSize(buf[pos..], tag);
              next == start + len && value == Stored(buf[start..next], tag)
    ensures len < 0 || len > olen + 1 ==>
              value == 0 && next == if Accepted(buf[pos..], tag) then pos + HeaderSize(buf[pos..], tag) else pos
  {
    value := 0;
    len, next := ReadLength(buf, pos, tag);
    if 0 <= len <= olen + 1 {
      ghost var c := buf[next..next + len];
      var sign := len > 0 && buf[next] >= 0x80;
      var i := 0;
      while i < len
        invariant 0 <= i <= len && value == Big(c[..i]) % WORD32
      {
        ShiftOctet(c, i);
        value := (0x100 * value + buf[next + i]) % WORD32;
        i := i + 1;
      }
      assert c[..len] == c;
      if tag == INTEGER && sign {
        SignExtends(c);
        value := Extend(value, len);
      }
      next := next + len;
    }
  }

  /** Whatever 32-bit value snmpRWriteInt is given, as an Integer or as an unsigned type,
      snmpReadInt stores the same value again. */
  lemma IntRoundTrip(val: int, tag: Octet, rest: seq<Octet>)
    requires 0 <= val < WORD32
    ensures var c := Encoded(Meant(val, tag, 4));
            && |c| <= 5
            && (var s := Header(tag, |c|) + c + rest;
                && ReadsAs(s, tag, |c|, |Header(tag, |c|)|)
                && s[|Header(tag, |c|)|..][..|c|] == c
                && Stored(c, tag) == val)
  {
    assert Pow256(4) == 0x100 * Pow256(3) && Pow256(3) == 0x100_0000;
    var m := Meant(val, tag, 4);
    var c := Encoded(m);
    NegativeMeans(val, tag, 4);
    FitsMeans(m, 5);
    var h := Header(tag, |c|);
    LengthRoundTrip(tag, |c|, c + rest);
    assert h + c + rest == h + (c + rest);
    EncodedMeans(m);
    if m >= 0 {
      NonNegativeLead(c);
    }
    MultipleMod(if m < 0 then -1 else 0, WORD32, val);
  }

  lemma NonNegativeLead(c: seq<Octet>)
    requires c != [] && Twos(c) >= 0
    ensures Twos(c) == Big(c)
  {
    BigBound(c);
  }

  // ----- Sub-identifiers -----

  lemma Prepend(d: Octet, s: seq<Octet>)
    ensures Value([d] + s) == d % 0x80 * Pow128(|s|) + Value(s)
  {
    ValueFromFront([d] + s);
    assert ([d] + s)[1..] == s;
  }

  /** The digits written so far, and the number still to be written, make up val. */
  lemma DigitMoves(s: seq<Octet>, d: Octet, rest: nat)
    requires d == rest % 0x80 + 0x80
    ensures Value([d] + s) + rest / 0x80 * Pow128(|s| + 1) == Value(s) + rest * Pow128(|s|)
  {
    Prepend(d, s);
    Regroup(rest, d, Pow128(|s|));
    assert Pow128(|s| + 1) == 128 * Pow128(|s|);
  }

  lemma Regroup(rest: nat, d: int, p: int)
    requires d == rest % 0x80 + 0x80
    ensures d % 0x80 * p + rest / 0x80 * (128 * p) == rest * p
  {
    var q, r := rest / 0x80, rest % 0x80;
    DivModUnique(d, 0x80, 1, r);
    Distribute(q, r, p);
  }

  lemma Distribute(q: int, r: int, p: int)
    ensures r * p + q * (128 * p) == (0x80 * q + r) * p
  {
  }

  /** Marking the last octet as the end of a sub-identifier. */
  lemma EndMark(s: seq<Octet>)
    requires s != [] && forall i :: 0 <= i < |s| ==> s[i] >= 0x80
    ensures Chunk(s[|s| - 1 := s[|s| - 1] % 0x80]) && Value(s[|s| - 1 := s[|s| - 1] % 0x80]) == Value(s)
  {
    var n := |s| - 1;
    assert s[n := s[n] % 0x80][..n] == s[..n];
  }

  lemma Remaining(val: nat, v: nat, rest: nat, p: nat)
    requires p >= 1 && v < p && val == v + rest * p
    ensures v == val % p && (val < p <==> rest == 0)
  {
    DivModUnique(val, p, rest, v);
    if rest > 0 {
      ScaledUp(rest, p);
    }
  }

  /** The loop of snmpEncodeID; what it has written is still marked as unfinished. */
  method WriteDigits(buf: array<Octet>, pos: nat, olen: nat, val: nat) returns (p: nat, ghost rest: nat)
    requires olen <= pos <= buf.Length
    modifies buf
    ensures pos - olen <= p <= pos && (rest == 0 || p == pos - olen) && (olen >= 1 ==> p < pos)
    ensures val == Value(buf[p..pos]) + rest * Pow128(pos - p)
    ensures forall i :: p <= i < pos ==> buf[i] >= 0x80
    ensures rest == 0 && p < pos ==> buf[p] > 0x80 || p + 1 == pos
    ensures forall i :: 0 <= i < p || pos <= i < buf.Length ==> buf[i] == old(buf[i])
  {
    p := pos;
    var left: nat, more: nat, again := olen, val, true;
    while left > 0 && again
      invariant p == pos - (olen - left) && left <= olen
      invariant val == Value(buf[p..pos]) + more * Pow128(pos - p)
      invariant forall i :: p <= i < pos ==> buf[i] >= 0x80
      invariant again ==> p == pos || more != 0
      invariant !again ==> p < pos && more == 0 && (buf[p] > 0x80 || p + 1 == pos)
      invariant forall i :: 0 <= i < p || pos <= i < buf.Length ==> buf[i] == old(buf[i])
      decreases left
    {
      ghost var s := buf[p..pos];
      left := left - 1;
      p := p - 1;
      buf[p] := more % 0x80 + 0x80;
      assert buf[p..pos] == [buf[p]] + s;
      DigitMoves(s, buf[p], more);
      more := more / 0x80;
      again := more != 0;
    }
    rest := more;
  }

  /** snmpEncodeID.  What is written is a complete sub-identifier with the value of val in olen
      digits; without a leading octet 0x80 whenever val fits.  Without room for a digit the octet
      before the position loses its mark. */
  method EncodeID(buf: array<Octet>, pos: nat, olen: nat, val: nat) returns (p: nat)
    requires 1 <= pos && olen <= pos <= buf.Length
    modifies buf
    ensures olen >= 1 ==> pos - olen <= p < pos && Chunk(buf[p..pos]) && Value(buf[p..pos]) == val % Pow128(olen)
    ensures olen >= 1 ==> buf[pos - 1] < 0x80 && forall i :: p <= i < pos - 1 ==> buf[i] >= 0x80
    ensures olen >= 1 ==> if val < Pow128(olen) then buf[p] != 0x80 else p == pos - olen
    ensures olen == 0 ==> p == pos && buf[pos - 1] == old(buf[pos - 1]) % 0x80
    ensures forall i :: 0 <= i < Min(p, pos - 1) || pos <= i < buf.Length ==> buf[i] == old(buf[i])
  {
    ghost var rest;
    p, rest := WriteDigits(buf, pos, olen, val);
    ghost var c := buf[p..pos];
    if olen >= 1 {
      EndMark(c);
      DigitsAre(c, rest, val, olen);
    }
    buf[pos - 1] := buf[pos - 1] % 0x80;
    assert olen >= 1 ==> buf[p..pos] == c[|c| - 1 := c[|c| - 1] % 0x80];
  }

  lemma DigitsAre(c: seq<Octet>, rest: nat, val: nat, olen: nat)
    requires val == Value(c) + rest * Pow128(|c|) && |c| <= olen && (rest == 0 || |c| == olen)
    ensures Value(c) == val % Pow128(olen) && (val < Pow128(olen) <==> rest == 0)
  {
    ValueBound(c);
    if rest != 0 {
      Remaining(val, Value(c), rest, Pow128(olen));
    } else {
      Shorten(val, |c|, olen);
    }
  }

  lemma Shorten(val: nat, m: nat, n: nat)
    requires val < Pow128(m) && m <= n
    ensures val % Pow128(n) == val < Pow128(n)
  {
    PowMonotone(m, n);
    DivModUnique(val, Pow128(n), 0, val);
  }

  /** There is only one complete sub-identifier of a value without a leading octet 0x80. */
  lemma IdUnique(c: seq<Octet>, d: seq<Octet>)
    requires Chunk(c) && Chunk(d) && c[0] != 0x80 && d[0] != 0x80 && Value(c) == Value(d)
    ensures c == d
  {
    if |c| > |d| {
      MoreDigits(c, d);
    } else if |d| > |c| {
      MoreDigits(d, c);
    } else {
      SameDigits(c, d);
      SameMarks(c, d);
    }
  }

  /** Hence no two well-formed identifiers have the same sub-identifiers. */
  lemma {:induction false} IdentifierIsUnique(x: seq<Octet>, y: seq<Octet>)
    requires WellFormed(x) && WellFormed(y) && Decode(x) == Decode(y)
    ensures x == y
    decreases |x|
  {
    if x != [] && y != [] {
      LeadingChunk(x);
      LeadingChunk(y);
      assert Decode(x)[0] == Decode(y)[0] && Decode(x)[1..] == Decode(Rest(x)) && Decode(y)[1..] == Decode(Rest(y));
      IdUnique(First(x), First(y));
      IdentifierIsUnique(Rest(x), Rest(y));
    }
  }

  lemma SameMarks(c: seq<Octet>, d: seq<Octet>)
    requires Chunk(c) && Chunk(d) && |c| == |d|
    requires forall i :: 0 <= i < |c| ==> c[i] % 0x80 == d[i] % 0x80
    ensures c == d
  {
    forall i | 0 <= i < |c| ensures c[i] == d[i] {
      SameOctet(c[i], d[i]);
    }
  }

  lemma SameOctet(a: Octet, b: Octet)
    requires a % 0x80 == b % 0x80 && (a < 0x80 <==> b < 0x80)
    ensures a == b
  {
  }

  lemma {:induction false} SameDigits(c: seq<Octet>, d: seq<Octet>)
    requires |c| == |d| && Value(c) == Value(d)
    ensures forall i :: 0 <= i < |c| ==> c[i] % 0x80 == d[i] % 0x80
  {
    if c != [] {
      var n := |c| - 1;
      SameDigits(c[..n], d[..n]);
      assert forall i :: 0 <= i < n ==> c[i] == c[..n][i] && d[i] == d[..n][i];
    }
  }

  /** A sub-identifier that was written is read back, whatever follows, exactly if it had room. */
  lemma IdRoundTrip(c: seq<Octet>, val: nat, olen: nat, rest: seq<Octet>)
    requires Chunk(c) && Value(c) == val % Pow128(olen) && val < WORD32
    ensures Complete(c + rest) && Head(c + rest) == |c|
    ensures Value(First(c + rest)) % WORD32 == val <==> val < Pow128(olen)
  {
    HeadOfPrefix(c, rest);
    RemainderIsLess(val, Pow128(olen));
    FitsWord32(Value(c));
  }

  /** The room the caller leaves, one octet more than the value has, is always enough. */
  lemma CallerLeavesRoom(val: nat, len: nat)
    requires len <= 4 && val < Pow256(len)
    ensures val < Pow128(len + 1)
  {
    assert Pow256(1) == 0x100 && Pow256(2) == 0x1_0000;
    assert Pow256(3) == 0x100 * Pow256(2) && Pow256(4) == 0x100 * Pow256(3);
    assert Pow128(1) == 128 && Pow128(2) == 16384;
    assert Pow128(3) == 128 * Pow128(2) && Pow128(4) == 128 * Pow128(3) && Pow128(5) == 128 * Pow128(4);
  }
}
