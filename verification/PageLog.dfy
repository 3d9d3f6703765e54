/** One sector as a log: slot 0 is the page header, every later slot holds a data halfword
    and then a virtual-address halfword.  Used slots form a prefix, so the newest copy of a
    variable is the used slot with its address that stands last. */
module PageLog {
  import opened Flash
  import opened Wrappers

  const PAGE_SLOTS: nat := 0x8000    // PAGE_SIZE / 4
  const NB_OF_VAR: nat := 0x8000 - 1
  const START_VIR_ADD: nat := 1

  predicate InRange(v: int) {
    START_VIR_ADD <= v < START_VIR_ADD + NB_OF_VAR
  }

  function Data(p: Page, i: nat): Half
    requires i < PAGE_SLOTS
  {
    p[2 * i]
  }

  function Addr(p: Page, i: nat): Half
    requires i < PAGE_SLOTS
  {
    p[2 * i + 1]
  }

  predicate BlankSlot(p: Page, i: nat)
    requires i < PAGE_SLOTS
  {
    Data(p, i) == ERASED && Addr(p, i) == ERASED
  }

  /** The page after slot i has been given its data halfword, and its address halfword as well. */
  function PutData(p: Page, i: nat, d: Half): (r: Page)
    requires i < PAGE_SLOTS
    ensures Data(r, i) == d && Addr(r, i) == Addr(p, i)
    ensures forall k: nat :: k < PAGE_SLOTS && k != i ==> Data(r, k) == Data(p, k)
    ensures forall k: nat :: k < PAGE_SLOTS && k != i ==> Addr(r, k) == Addr(p, k)
  {
    p[2 * i := d]
  }

  function Put(p: Page, i: nat, d: Half, v: Half): (r: Page)
    requires i < PAGE_SLOTS
    ensures Data(r, i) == d && Addr(r, i) == v
    ensures forall k: nat :: k < PAGE_SLOTS && k != i ==> Data(r, k) == Data(p, k)
    ensures forall k: nat :: k < PAGE_SLOTS && k != i ==> Addr(r, k) == Addr(p, k)
  {
    PutData(p, i, d)[2 * i + 1 := v]
  }

  /** The slot after the last used one below n. */
  function TopUsed(p: Page, n: nat): (r: nat)
    requires n <= PAGE_SLOTS
    ensures r <= n
    ensures forall i: nat :: r <= i < n ==> BlankSlot(p, i)
    ensures r > 0 ==> !BlankSlot(p, r - 1)
  {
    if n == 0 || !BlankSlot(p, n - 1) then n else TopUsed(p, n - 1)
  }

  function Fill(p: Page): nat {
    TopUsed(p, PAGE_SLOTS)
  }

  /** Used slots form a prefix that includes the header. */
  ghost predicate IsLog(p: Page) {
    1 <= Fill(p) && forall i: nat :: i < Fill(p) ==> !BlankSlot(p, i)
  }

  /** Slot n is where an upward search for a blank slot stops. */
  ghost predicate FirstBlankAt(p: Page, n: nat) {
    && n <= PAGE_SLOTS
    && (forall i: nat :: i < n ==> !BlankSlot(p, i))
    && (n < PAGE_SLOTS ==> BlankSlot(p, n))
  }

  lemma FirstBlankIsFill(p: Page, n: nat)
    requires IsLog(p) && FirstBlankAt(p, n)
    ensures n == Fill(p)
  {
    assert n < PAGE_SLOTS ==> BlankSlot(p, n);
    assert Fill(p) < PAGE_SLOTS ==> BlankSlot(p, Fill(p));
  }

  /** Nothing is stored from the fill level on. */
  lemma BlankAbove(p: Page)
    ensures forall i: nat :: Fill(p) <= i < PAGE_SLOTS ==> Addr(p, i) == ERASED
    ensures forall i: nat :: Fill(p) <= i < PAGE_SLOTS ==> Data(p, i) == ERASED
  {
    forall i: nat | Fill(p) <= i < PAGE_SLOTS ensures Addr(p, i) == Data(p, i) == ERASED {
      assert BlankSlot(p, i);
    }
  }

  /** The search EE_ReadVariable makes: the last slot below n that carries address v. */
  function Lookup(p: Page, v: Half, n: nat): (r: Option<Half>)
    requires n <= PAGE_SLOTS
  {
    if n <= 1 then None
    else if Addr(p, n - 1) == v then Some(Data(p, n - 1))
    else Lookup(p, v, n - 1)
  }

  /** Lookup without recursion: which slot it stops at. */
  lemma {:induction false} LookupMeans(p: Page, v: Half, n: nat)
    requires n <= PAGE_SLOTS
    ensures Lookup(p, v, n).None? <==> forall i: nat :: 1 <= i < n ==> Addr(p, i) != v
    ensures Lookup(p, v, n).Some? ==>
              exists i: nat :: 1 <= i < n && Addr(p, i) == v && Data(p, i) == Lookup(p, v, n).value
                               && forall j: nat :: i < j < n ==> Addr(p, j) != v
  {
    if n > 1 {
      if Addr(p, n - 1) == v {
        var i := n - 1;
        assert Addr(p, i) == v && Data(p, i) == Lookup(p, v, n).value;
      } else {
        LookupMeans(p, v, n - 1);
      }
    }
  }

  lemma {:induction false} LookupFrame(p: Page, r: Page, v: Half, n: nat)
    requires n <= PAGE_SLOTS
    requires forall i: nat :: 1 <= i < n ==> Addr(p, i) == Addr(r, i) && Data(p, i) == Data(r, i)
    ensures Lookup(p, v, n) == Lookup(r, v, n)
  {
    if n > 1 {
      LookupFrame(p, r, v, n - 1);
    }
  }

  /** Slots that do not carry address v do not matter to a search for v. */
  lemma {:induction false} LookupSkips(p: Page, v: Half, m: nat, n: nat)
    requires 1 <= m <= n <= PAGE_SLOTS
    requires forall i: nat :: m <= i < n ==> Addr(p, i) != v
    ensures Lookup(p, v, n) == Lookup(p, v, m)
  {
    if m < n {
      LookupSkips(p, v, m, n - 1);
    }
  }

  function Latest(p: Page, v: Half): Option<Half> {
    Lookup(p, v, PAGE_SLOTS)
  }

  /** The variables a page holds, each with its newest data. */
  ghost function Contents(p: Page): map<Half, Half> {
    map v: Half | START_VIR_ADD <= v < START_VIR_ADD + NB_OF_VAR && Latest(p, v).Some? :: Latest(p, v).value
  }

  /** The variables of a page, read off its halfwords: virtual addresses stand at the odd ones from 3
      on ... */
  lemma KeysMean(p: Page, v: Half)
    ensures v in Contents(p) <==> 1 <= v <= 0x7FFF && exists a :: 3 <= a < 0x1_0000 && a % 2 == 1 && p[a] == v
  {
    LookupMeans(p, v, PAGE_SLOTS);
    if a :| 3 <= a < 0x1_0000 && a % 2 == 1 && p[a] == v {
      assert Addr(p, a / 2) == v;
    }
    if Latest(p, v).Some? {
      var i: nat :| 1 <= i < PAGE_SLOTS && Addr(p, i) == v;
      var a := 2 * i + 1;
      assert p[a] == v;
    }
  }

  /** ... each behind its data, and the last one counts. */
  lemma LastCounts(p: Page, v: Half)
    requires v in Contents(p)
    ensures exists a, d :: 3 <= a < 0x1_0000 && a % 2 == 1 && d == a - 1 && p[a] == v && p[d] == Contents(p)[v]
                           && forall b :: a < b < 0x1_0000 && b % 2 == 1 ==> p[b] != v
  {
    LookupMeans(p, v, PAGE_SLOTS);
    var i: nat :| 1 <= i < PAGE_SLOTS && Addr(p, i) == v && Latest(p, v) == Some(Data(p, i))
                  && forall k: nat :: i < k < PAGE_SLOTS ==> Addr(p, k) != v;
    assert Contents(p)[v] == Data(p, i);
    NoneLater(p, v, i, 2 * i + 1, 2 * i);
  }

  lemma NoneLater(p: Page, v: Half, i: nat, a: nat, d: nat)
    requires i < PAGE_SLOTS && a == 2 * i + 1 && d == 2 * i && forall k: nat :: i < k < PAGE_SLOTS ==> Addr(p, k) != v
    ensures p[a] == Addr(p, i) && p[d] == Data(p, i) && forall b :: a < b < 0x1_0000 && b % 2 == 1 ==> p[b] != v
  {
    forall b | a < b < 0x1_0000 && b % 2 == 1 ensures p[b] != v {
      assert Addr(p, b / 2) != v;
    }
  }

  /** A log page is full if no slot of it is blank. */
  lemma FullMeans(p: Page)
    requires IsLog(p)
    ensures Fill(p) == PAGE_SLOTS <==>
              forall d, a :: 0 <= d < 0x1_0000 && d % 2 == 0 && a == d + 1 ==> p[d] != 0xFFFF || p[a] != 0xFFFF
  {
    if Fill(p) == PAGE_SLOTS {
      forall d, a | 0 <= d < 0x1_0000 && d % 2 == 0 && a == d + 1 ensures p[d] != 0xFFFF || p[a] != 0xFFFF {
        assert !BlankSlot(p, d / 2);
      }
    } else {
      var d, a := 2 * Fill(p), 2 * Fill(p) + 1;
      assert BlankSlot(p, Fill(p));
      assert p[d] == 0xFFFF && p[a] == 0xFFFF;
    }
  }

  /** Writing the first blank slot makes v the newest and leaves every other variable alone. */
  lemma PutLatest(p: Page, d: Half, v: Half, u: Half)
    requires IsLog(p) && Fill(p) < PAGE_SLOTS && v != ERASED && u != ERASED
    ensures Latest(Put(p, Fill(p), d, v), u) == if u == v then Some(d) else Latest(p, u)
  {
    BlankAbove(p);
    var n := Fill(p);
    var r := Put(p, n, d, v);
    LookupSkips(r, u, n + 1, PAGE_SLOTS);
    LookupFrame(p, r, u, n);
    LookupSkips(p, u, n, PAGE_SLOTS);
  }

  /** A slot whose address halfword is still blank holds no variable. */
  lemma PutDataLatest(p: Page, d: Half, u: Half)
    requires IsLog(p) && Fill(p) < PAGE_SLOTS && u != ERASED
    ensures Latest(PutData(p, Fill(p), d), u) == Latest(p, u)
  {
    BlankAbove(p);
    var n := Fill(p);
    var r := PutData(p, n, d);
    LookupSkips(r, u, n, PAGE_SLOTS);
    LookupFrame(p, r, u, n);
    LookupSkips(p, u, n, PAGE_SLOTS);
  }

  lemma FillIs(p: Page, n: nat)
    requires 1 <= n <= PAGE_SLOTS
    requires forall i: nat :: i < n ==> !BlankSlot(p, i)
    requires forall i: nat :: n <= i < PAGE_SLOTS ==> BlankSlot(p, i)
    ensures IsLog(p) && Fill(p) == n
  {
    assert 0 < Fill(p) ==> !BlankSlot(p, Fill(p) - 1);
    assert Fill(p) < PAGE_SLOTS ==> BlankSlot(p, Fill(p));
  }

  /** Both halves of a slot write keep the log shape.  Half a write wastes the slot,
      unless the data is 0xFFFF, which leaves the slot blank. */
  lemma PutFill(p: Page, d: Half, v: Half)
    requires IsLog(p) && Fill(p) < PAGE_SLOTS && v != ERASED
    ensures IsLog(Put(p, Fill(p), d, v)) && Fill(Put(p, Fill(p), d, v)) == Fill(p) + 1
    ensures IsLog(PutData(p, Fill(p), d))
    ensures Fill(PutData(p, Fill(p), d)) == if d == ERASED then Fill(p) else Fill(p) + 1
  {
    var n := Fill(p);
    var r, s := Put(p, n, d, v), PutData(p, n, d);
    assert forall i: nat :: n < i < PAGE_SLOTS ==> BlankSlot(r, i) && BlankSlot(s, i) by {
      forall i: nat | n < i < PAGE_SLOTS ensures BlankSlot(r, i) && BlankSlot(s, i) {
        assert BlankSlot(p, i);
      }
    }
    forall i: nat | i < n ensures !BlankSlot(r, i) && !BlankSlot(s, i) {
      assert !BlankSlot(p, i);
    }
    assert BlankSlot(p, n);
    FillIs(r, n + 1);
    FillIs(s, if d == ERASED then n else n + 1);
  }

  /** How many of the variables 1..k, `skip` aside, the page holds. */
  function Count(p: Page, skip: int, k: nat): (c: nat)
    requires k <= NB_OF_VAR
    ensures c <= if 1 <= skip <= k then k - 1 else k
  {
    if k == 0 then 0
    else Count(p, skip, k - 1) + (if k != skip && Latest(p, k).Some? then 1 else 0)
  }

  /** The data of the variable number n among those that Count counts. */
  function Nth(p: Page, skip: int, n: nat, k: nat): Option<Half>
    requires k <= NB_OF_VAR
  {
    if k == 0 then None
    else if k != skip && Latest(p, k).Some? && Count(p, skip, k - 1) == n then Latest(p, k)
    else Nth(p, skip, n, k - 1)
  }

  lemma {:induction false} NthIs(p: Page, skip: int, u: nat, k: nat)
    requires 1 <= u <= k <= NB_OF_VAR && u != skip && Latest(p, u).Some?
    ensures Nth(p, skip, Count(p, skip, u - 1), k) == Latest(p, u)
  {
    if u < k {
      CountMonotone(p, skip, u, k - 1);
      NthIs(p, skip, u, k - 1);
    }
  }

  lemma {:induction false} CountMonotone(p: Page, skip: int, j: nat, k: nat)
    requires j <= k <= NB_OF_VAR
    ensures Count(p, skip, j) <= Count(p, skip, k)
  {
    if j < k {
      CountMonotone(p, skip, j, k - 1);
    }
  }

  lemma {:induction false} CountSkipsOne(p: Page, skip: int, other: int, k: nat)
    requires k <= NB_OF_VAR && !InRange(other)
    ensures Count(p, skip, k) <= Count(p, other, k) <= Count(p, skip, k) + if 1 <= skip <= k then 1 else 0
  {
    if k > 0 {
      CountSkipsOne(p, skip, other, k - 1);
    }
  }

  ghost function LiveUpTo(p: Page, skip: int, k: nat): set<Half>
    requires k <= NB_OF_VAR
  {
    set v: Half | 1 <= v <= k && v != skip && Latest(p, v).Some?
  }

  lemma {:induction false} CountIsCardinality(p: Page, skip: int, k: nat)
    requires k <= NB_OF_VAR
    ensures Count(p, skip, k) == |LiveUpTo(p, skip, k)|
  {
    if k > 0 {
      CountIsCardinality(p, skip, k - 1);
      var rest := LiveUpTo(p, skip, k - 1);
      if k != skip && Latest(p, k).Some? {
        assert LiveUpTo(p, skip, k) == rest + {k};
      } else {
        assert LiveUpTo(p, skip, k) == rest;
      }
    }
  }

  /** Count over all variables is the number of variables held, `skip` aside. */
  lemma CountIsSize(p: Page, skip: int)
    ensures Count(p, skip, NB_OF_VAR) == |Contents(p).Keys - {skip}|
  {
    CountIsCardinality(p, skip, NB_OF_VAR);
    assert LiveUpTo(p, skip, NB_OF_VAR) == Contents(p).Keys - {skip};
  }

  /** Counting all variables, and all but one that is there. */
  lemma SizeIsCount(p: Page, v: Half)
    ensures Count(p, ERASED, NB_OF_VAR) == |Contents(p).Keys|
    ensures v in Contents(p).Keys ==> Count(p, ERASED, NB_OF_VAR) == Count(p, v, NB_OF_VAR) + 1
  {
    CountIsSize(p, ERASED);
    CountIsSize(p, v);
    assert Contents(p).Keys - {ERASED} == Contents(p).Keys;
    assert v in Contents(p).Keys ==> Contents(p).Keys == (Contents(p).Keys - {v}) + {v};
  }

  lemma SizeAfterWrite(p: Page, v: Half, d: Half)
    ensures |Contents(p)[v := d]| == Count(p, v, NB_OF_VAR) + 1
    ensures |Contents(p).Keys + {v}| == Count(p, v, NB_OF_VAR) + 1
  {
    CountIsSize(p, v);
    assert Contents(p)[v := d].Keys == Contents(p).Keys + {v} == (Contents(p).Keys - {v}) + {v};
  }
}
