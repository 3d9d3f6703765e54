/** The size and alignment arithmetic of lib_mem.c, on 32-bit addresses and sizes. */
module MemSizes {
  import opened Arith
  import opened Words

  const PTR_SIZE: nat := 4            // sizeof(void *)

  /** Octets to skip so that x becomes a multiple of align. */
  function Gap(x: nat, align: nat): (g: nat)
    requires align > 0
    ensures g < align
  {
    if x % align != 0 then align - x % align else 0
  }

  lemma GapAligns(x: nat, align: nat)
    requires align > 0
    ensures (x + Gap(x, align)) % align == 0
  {
    var q := x / align;
    assert x == q * align + x % align;
    if x % align != 0 {
      assert x + Gap(x, align) == align * (q + 1) + 0;
      DivModUnique(x + Gap(x, align), align, q + 1, 0);
    }
  }

  /** From an aligned address, only what is added matters. */
  lemma GapAfterAligned(a: nat, size: nat, align: nat)
    requires align > 0 && a % align == 0
    ensures Gap(a + size, align) == Gap(size, align)
  {
    var k := a / align;
    assert a == align * k;
    MultipleMod(k, align, size);
  }

  /** Distance between two blocks of a pool. */
  function Stride(size: nat, align: nat): nat
    requires align > 0
  {
    size + Gap(size, align)
  }

  lemma StrideAtLeast(size: nat, align: nat)
    requires size >= 1 && align >= 1
    ensures Stride(size, align) % align == 0 && align <= Stride(size, align) && size <= Stride(size, align) < size + align
  {
    GapAligns(size, align);
    var s := Stride(size, align);
    assert s == align * (s / align);
    Distance(align, s / align);
  }

  /** The size Mem_PoolSegCalcTotSize is documented to compute, without a word size. */
  function TotSize(addr: nat, n: nat, size: nat, align: nat): nat
    requires n >= 1 && align > 0
  {
    Gap(addr, align) + Stride(size, align) * (n - 1) + size
  }

  /** Octets that n successive calls of Mem_PoolSegAlloc take from a segment whose next free
      address is addr. */
  function Consumed(addr: nat, n: nat, size: nat, align: nat): nat
    requires align > 0
    decreases n
  {
    if n == 0 then 0
    else
      var taken := Gap(addr, align) + size;
      taken + Consumed(addr + taken, n - 1, size, align)
  }

  lemma {:induction false} ConsumedFromAligned(a: nat, n: nat, size: nat, align: nat)
    requires align > 0 && a % align == 0
    ensures Consumed(a + size, n, size, align) == Stride(size, align) * n
    decreases n
  {
    if n > 0 {
      var s := Stride(size, align);
      GapAfterAligned(a, size, align);
      GapAligns(a + size, align);
      ConsumedFromAligned(a + s, n - 1, size, align);
      assert a + size + (Gap(a + size, align) + size) == a + s + size;
      assert s * n == s * (n - 1) + s;
    }
  }

  /** The closed form is exact: it is what the successive allocations consume. */
  lemma TotSizeIsConsumed(addr: nat, n: nat, size: nat, align: nat)
    requires n >= 1 && align > 0
    ensures TotSize(addr, n, size, align) == Consumed(addr, n, size, align)
  {
    GapAligns(addr, align);
    ConsumedFromAligned(addr + Gap(addr, align), n - 1, size, align);
    assert addr + (Gap(addr, align) + size) == addr + Gap(addr, align) + size;
  }

  /** Mem_PoolSegCalcTotSize.  The arithmetic is unsigned, so one reduction modulo 2^32
      stands for all of them: the result is what the allocations consume exactly when that
      fits in 32 bits. */
  method PoolSegCalcTotSize(addr: nat, n: nat, size: nat, align: nat) returns (r: Word)
    requires n >= 1 && align > 0
    ensures r == Consumed(addr, n, size, align) <==> Consumed(addr, n, size, align) < WORD32
    ensures r == Consumed(addr, n, size, align) % WORD32
  {
    TotSizeIsConsumed(addr, n, size, align);
    var memAlignOffset := Gap(addr, align);
    var blkAlignOffset := Gap(size, align);
    r := (memAlignOffset + (size + blkAlignOffset) * (n - 1) + size) % WORD32;
  }

  /** Address of block i of a pool that starts at addr. */
  function BlockAt(addr: nat, i: nat, size: nat, align: nat): nat
    requires align > 0
  {
    addr + Gap(addr, align) + i * Stride(size, align)
  }

  /** Every block is aligned. */
  lemma {:induction false} BlockAligned(addr: nat, i: nat, size: nat, align: nat)
    requires align > 0
    ensures BlockAt(addr, i, size, align) % align == 0
  {
    if i == 0 {
      GapAligns(addr, align);
    } else {
      BlockAligned(addr, i - 1, size, align);
      BlockSteps(addr, i - 1, size, align);
      GapAligns(BlockAt(addr, i - 1, size, align) + size, align);
      GapAfterAligned(BlockAt(addr, i - 1, size, align), size, align);
    }
  }

  lemma BlockSteps(addr: nat, i: nat, size: nat, align: nat)
    requires align > 0
    ensures BlockAt(addr, i + 1, size, align) == BlockAt(addr, i, size, align) + Stride(size, align)
  {
    var s := Stride(size, align);
    assert (i + 1) * s == i * s + s;
  }

  /** An allocation made just past block i finds block i + 1. */
  lemma NextBlock(addr: nat, i: nat, size: nat, align: nat)
    requires align > 0
    ensures BlockAt(addr, i, size, align) + size + Gap(BlockAt(addr, i, size, align) + size, align) == BlockAt(addr, i + 1, size, align)
  {
    BlockAligned(addr, i, size, align);
    BlockSteps(addr, i, size, align);
    GapAfterAligned(BlockAt(addr, i, size, align), size, align);
  }

  /** The first block begins at the first multiple of align from addr on, and the next one at the
      first after block i. */
  lemma BlocksMean(addr: nat, i: nat, size: nat, align: nat)
    requires align > 0
    ensures var b := BlockAt(addr, 0, size, align); b % align == 0 && 0 <= b - addr < align
    ensures var a, b := BlockAt(addr, i, size, align), BlockAt(addr, i + 1, size, align);
            b % align == 0 && 0 <= b - (a + size) < align
  {
    BlockAligned(addr, 0, size, align);
    BlockAligned(addr, i + 1, size, align);
    NextBlock(addr, i, size, align);
  }

  /** Block i of n ends within the closed-form size. */
  lemma BlockWithin(addr: nat, i: nat, n: nat, size: nat, align: nat)
    requires align > 0 && i < n
    ensures BlockAt(addr, i, size, align) + size <= addr + TotSize(addr, n, size, align)
    ensures i == n - 1 ==> BlockAt(addr, i, size, align) + size == addr + TotSize(addr, n, size, align)
  {
    Monotone(Stride(size, align), i, n - 1);
    assert Stride(size, align) * i == i * Stride(size, align);
  }

  /** The closed-form size of the stack of n block pointers. */
  function PointersSize(addr: nat, n: nat): nat {
    Gap(addr, PTR_SIZE) + PTR_SIZE * n
  }

  lemma {:induction false} PointersFromAligned(a: nat, n: nat)
    requires a % PTR_SIZE == 0
    ensures Consumed(a, n, PTR_SIZE, PTR_SIZE) == PTR_SIZE * n
    decreases n
  {
    if n > 0 {
      PointersFromAligned(a + PTR_SIZE, n - 1);
    }
  }

  lemma ConsumedPointers(addr: nat, n: nat)
    requires n >= 1
    ensures Consumed(addr, n, PTR_SIZE, PTR_SIZE) == PointersSize(addr, n)
  {
    PointersFromAligned(addr + Gap(addr, PTR_SIZE) + PTR_SIZE, n - 1);
    assert addr + (Gap(addr, PTR_SIZE) + PTR_SIZE) == addr + Gap(addr, PTR_SIZE) + PTR_SIZE;
  }

  /** A block and the gap before it fit in 32 bits, wherever it lies. */
  predicate OneFits(size: nat, align: nat) {
    size + align <= WORD32
  }

  /** Allocations one by one: what the next takes ... */
  lemma {:induction false} ConsumedOneMore(addr: nat, n: nat, size: nat, align: nat)
    requires align > 0
    ensures var next := addr + Consumed(addr, n, size, align);
            Consumed(addr, n + 1, size, align) == Consumed(addr, n, size, align) + Gap(next, align) + size
    decreases n
  {
    if n > 0 {
      var taken := Gap(addr, align) + size;
      assert Consumed(addr, n + 1, size, align) == taken + Consumed(addr + taken, n, size, align);
      assert Consumed(addr, n, size, align) == taken + Consumed(addr + taken, n - 1, size, align);
      ConsumedOneMore(addr + taken, n - 1, size, align);
    }
  }

  lemma {:induction false} ConsumedMonotone(addr: nat, m: nat, n: nat, size: nat, align: nat)
    requires align > 0 && m <= n
    ensures Consumed(addr, m, size, align) <= Consumed(addr, n, size, align)
  {
    if m < n {
      ConsumedMonotone(addr, m, n - 1, size, align);
      ConsumedOneMore(addr, n - 1, size, align);
    }
  }

  /** ... and where it puts its block. */
  lemma BlockIsNext(addr: nat, n: nat, size: nat, align: nat)
    requires align > 0
    ensures var next := addr + Consumed(addr, n, size, align);
            BlockAt(addr, n, size, align) == next + Gap(next, align)
  {
    if n > 0 {
      TotSizeIsConsumed(addr, n, size, align);
      BlockWithin(addr, n - 1, n, size, align);
      NextBlock(addr, n - 1, size, align);
    }
  }

  /** Without an alignment there are no gaps. */
  lemma {:induction false} NoGaps(addr: nat, n: nat, size: nat)
    ensures Consumed(addr, n, size, 1) == n * size
    decreases n
  {
    if n > 0 {
      DivModUnique(addr, 1, addr, 0);
      NoGaps(addr + size, n - 1, size);
      assert n * size == (n - 1) * size + size;
    }
  }
}
