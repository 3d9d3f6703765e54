/** The flash memory under the EEPROM emulation: two 128 KB sectors of halfwords.
    Programming a halfword can only clear bits, erasing a sector sets every bit of it.
    Each program or erase is one atomic step, and power may fail between any two of them:
    `Supply` says how many steps are still going to happen.  A step that does not happen
    reports a flash error and changes nothing. */
module Flash {
  import opened Arith
  import opened Words

  type Half = x: int | 0 <= x < 0x1_0000

  // Sizes are counted in halfwords; PAGE_SIZE in eeprom.h is this many halfwords of two octets.
  const PAGE_HALVES: nat := 0x1_0000

  type Page = p: seq<Half> | |p| == PAGE_HALVES witness seq(PAGE_HALVES, _ => 0xFFFF)
  type Pages = ps: seq<Page> | |ps| == 2 witness [BlankPage(), BlankPage()]

  const ERASED: Half := 0xFFFF
  const RECEIVE_DATA: Half := 0xEEEE
  const VALID_PAGE: Half := 0x0000

  datatype Status = Complete | FlashError | PageFull | NoValidPage

  function BlankPage(): (p: Page)
    ensures forall k :: 0 <= k < PAGE_HALVES ==> p[k] == ERASED
  {
    seq(PAGE_HALVES, _ => ERASED)
  }

  /** The flash steps that will still be carried out before power is lost, if it is lost. */
  datatype Supply = Steady | FailsAfter(steps: nat) {

    /** Are the next n steps carried out? */
    predicate Can(n: nat) {
      Steady? || n <= steps
    }

    /** How many of n requested steps are carried out. */
    function Taken(n: nat): (k: nat)
      ensures k <= n && Can(k) && (k == n <==> Can(n))
    {
      if Can(n) then n else steps
    }

    function Less(n: nat): Supply
      requires Can(n)
    {
      if Steady? then Steady else FailsAfter(steps - n)
    }
  }

  /** Bitwise "and" of two naturals. */
  function BitAnd(a: nat, b: nat): (r: nat)
    ensures r <= a && r <= b
  {
    if a == 0 || b == 0 then 0
    else 2 * BitAnd(a / 2, b / 2) + (if a % 2 == 1 && b % 2 == 1 then 1 else 0)
  }

  function AllOnes(bits: nat): nat {
    if bits == 0 then 0 else 2 * AllOnes(bits - 1) + 1
  }

  lemma {:induction false} BitAndAllOnes(bits: nat, d: nat)
    requires d <= AllOnes(bits)
    ensures BitAnd(AllOnes(bits), d) == d
  {
    if bits != 0 && d != 0 {
      BitAndAllOnes(bits - 1, d / 2);
    }
  }

  /** A blank halfword takes any value exactly; any halfword can be cleared to VALID_PAGE. */
  lemma ProgramsExactly(d: Half)
    ensures BitAnd(ERASED, d) == d && BitAnd(d, VALID_PAGE) == VALID_PAGE
  {
    assert AllOnes(4) == 0xF && AllOnes(8) == 0xFF;
    assert AllOnes(12) == 0xFFF && AllOnes(16) == 0xFFFF;
    BitAndAllOnes(16, d);
  }

  /** Bit k of a number. */
  function Bit(n: nat, k: nat): bool {
    if k == 0 then n % 2 == 1 else Bit(n / 2, k - 1)
  }

  lemma {:induction false} BitMeans(n: nat, k: nat)
    ensures Bit(n, k) <==> n / Pow2(k) % 2 == 1
    decreases k
  {
    if k > 0 {
      BitMeans(n / 2, k - 1);
      HalfFirst(n, Pow2(k - 1));
    }
  }

  lemma HalfFirst(n: nat, p: nat)
    requires p >= 1
    ensures n / 2 / p == n / (2 * p)
  {
    var q := n / 2;
    Associate(2, p, q / p);
    assert n == 2 * (p * (q / p) + q % p) + n % 2;
    DivModUnique(n, 2 * p, q / p, 2 * (q % p) + n % 2);
  }

  lemma {:induction false} ZeroHasNoBits(k: nat)
    ensures !Bit(0, k)
  {
    if k > 0 {
      ZeroHasNoBits(k - 1);
    }
  }

  lemma {:induction false} BitAndBits(a: nat, b: nat, k: nat)
    ensures Bit(BitAnd(a, b), k) <==> Bit(a, k) && Bit(b, k)
    decreases k
  {
    if a == 0 || b == 0 {
      ZeroHasNoBits(k);
    } else if k > 0 {
      BitAndBits(a / 2, b / 2, k - 1);
      assert BitAnd(a, b) / 2 == BitAnd(a / 2, b / 2);
    }
  }

  function Cell(pages: Pages, a: int): Half
    requires 0 <= a < 2 * PAGE_HALVES
  {
    pages[a / PAGE_HALVES][a % PAGE_HALVES]
  }

  /** What the flash holds after `data` is programmed at halfword address `a`. */
  function Programmed(pages: Pages, a: int, data: Half): Pages
    requires 0 <= a < 2 * PAGE_HALVES
  {
    var s, o := a / PAGE_HALVES, a % PAGE_HALVES;
    pages[s := pages[s][o := BitAnd(pages[s][o], data)]]
  }

  /** A program only clears bits: afterwards a bit anywhere in the flash is set exactly if it was
      set before and, in the halfword that is programmed, is set in the data as well. */
  lemma OnlyClears(pages: Pages, a: int, data: Half, at: int, k: nat)
    requires 0 <= a < 2 * PAGE_HALVES && 0 <= at < 2 * PAGE_HALVES
    ensures Bit(Cell(Programmed(pages, a, data), at), k) <==> Bit(Cell(pages, at), k) && (at == a ==> Bit(data, k))
  {
    BitAndBits(Cell(pages, a), data, k);
  }

  class Device {
    var pages: Pages
    var supply: Supply

    method ProgramHalfWord(a: int, data: Half) returns (status: Status)
      requires 0 <= a < 2 * PAGE_HALVES
      modifies this
      ensures status == if old(supply).Can(1) then Complete else FlashError
      ensures pages == if old(supply).Can(1) then Programmed(old(pages), a, data) else old(pages)
      ensures supply == old(supply).Less(old(supply).Taken(1))
    {
      if supply.Can(1) {
        pages := Programmed(pages, a, data);
        supply := supply.Less(1);
        return Complete;
      }
      return FlashError;
    }

    method EraseSector(s: nat) returns (status: Status)
      requires s < 2
      modifies this
      ensures status == if old(supply).Can(1) then Complete else FlashError
      ensures pages == if old(supply).Can(1) then old(pages)[s := BlankPage()] else old(pages)
      ensures supply == old(supply).Less(old(supply).Taken(1))
    {
      if supply.Can(1) {
        pages := pages[s := BlankPage()];
        supply := supply.Less(1);
        return Complete;
      }
      return FlashError;
    }
  }
}
