/** Fixed-block memory pools of lib_mem.c: the free stack, block addresses, get and free. */
module MemPool {
  import opened Arith
  import opened Words
  import opened MemSizes
  import opened Wrappers

  datatype PoolType = TypeNone | TypeHeap | TypePool

  datatype LibErr =
    | ErrNone | NullPtr | InvalidMemSize | InvalidSegSize | InvalidSegOverlap
    | InvalidBlkNbr | InvalidBlkSize | InvalidBlkIx | InvalidBlkAddr | InvalidBlkAddrInPool
    | InvalidPool | HeapEmpty | HeapNotFound | SegEmpty | PoolEmpty | PoolFull

  const MEM_POOL_IX_MAX: nat := 65534

  /** A piece of a segment that has been handed out. */
  datatype Extent = Extent(addr: nat, size: nat, align: nat)

  ghost predicate Aligned(e: Extent) {
    e.align > 0 && e.addr % e.align == 0
  }

  /** The extents lie in [start, next), in ascending order, disjoint and aligned. */
  ghost predicate Packed(start: nat, exts: seq<Extent>, next: nat) {
    && start <= next
    && (forall i :: 0 <= i < |exts| ==> Aligned(exts[i]))
    && (forall i :: 0 <= i < |exts| ==> start <= exts[i].addr && exts[i].addr + exts[i].size <= next)
    && (forall i, j :: 0 <= i < j < |exts| ==> exts[i].addr + exts[i].size <= exts[j].addr)
  }

  /** Where a pool keeps its blocks. */
  datatype Geometry = Geometry(start: nat, n: nat, size: nat, align: nat) {

    /** The pool's memory and the distance between its blocks fit in 32 bits. */
    ghost predicate Sane() {
      && n >= 1 && size >= 1 && align >= 1 && start >= 1
      && Stride(size, align) < WORD32 && start + TotSize(start, n, size, align) <= WORD32
    }

    function Block(i: nat): nat
      requires align >= 1
    {
      BlockAt(start, i, size, align)
    }

    /** The blocks in ascending order. */
    function BlockSeq(): (s: seq<nat>)
      requires align >= 1
      ensures |s| == n && forall i :: 0 <= i < n ==> s[i] == BlockAt(start, i, size, align)
    {
      seq(n, (i: nat) => Block(i))
    }

    ghost predicate IsBlock(a: int)
      requires align >= 1
    {
      exists i: nat :: i < n && a == Block(i)
    }

    ghost function Blocks(): set<int>
      requires align >= 1
    {
      set i: nat | i < n :: Block(i)
    }

    /** Mem_PoolBlkIsValidAddr: `mem_diff` is an unsigned difference, so it wraps for an
        address in the gap before the first block. */
    predicate IsValidAddr(a: Word)
      requires n >= 1 && size >= 1 && align >= 1
    {
      if a < start || a > start + TotSize(start, n, size, align) - 1 then false
      else
        var first := start + Gap(start, align);
        var memDiff := (a - first) % WORD32;
        memDiff % Stride(size, align) == 0
    }

    lemma BlocksInside(i: nat)
      requires Sane() && i < n
      ensures start + Gap(start, align) <= Block(i) && Block(i) + size <= start + TotSize(start, n, size, align)
    {
      var s := Stride(size, align);
      NonNegative(i, s);
      Monotone(s, i, n - 1);
      assert i * s == s * i;
    }

    lemma NullIsNoBlock()
      requires Sane()
      ensures 0 !in Blocks()
    {
      forall i: nat | i < n ensures Block(i) != 0 {
        BlocksInside(i);
      }
    }

    lemma InGap(g: nat, s: nat)
      requires 0 < g < s && s <= WORD32
      ensures (WORD32 - g) % s == 0 <==> g == WORD32 % s
    {
      var q, r := WORD32 / s, WORD32 % s;
      assert WORD32 == s * q + r;
      if g <= r {
        DivModUnique(WORD32 - g, s, q, r - g);
      } else {
        assert WORD32 - g == s * (q - 1) + (s + r - g);
        DivModUnique(WORD32 - g, s, q - 1, s + r - g);
      }
    }

    lemma FromFirst(d: nat)
      requires Sane() && d <= Stride(size, align) * (n - 1) + size - 1
      ensures d % Stride(size, align) == 0 <==> exists i: nat :: i < n && d == i * Stride(size, align)
    {
      var s := Stride(size, align);
      var q := d / s;
      assert d == s * q + d % s;
      assert s * n == s * (n - 1) + s;
      if d % s == 0 {
        if q >= n {
          Monotone(s, n, q);
        }
        assert d == q * s;
      }
      forall i: nat | d == i * s ensures d % s == 0 {
        DivModUnique(d, s, i, 0);
      }
    }

    lemma ValidInGap(a: Word)
      requires Sane() && start <= a < start + Gap(start, align)
      ensures !IsBlock(a)
      ensures IsValidAddr(a) <==> start + Gap(start, align) - a == WORD32 % Stride(size, align)
    {
      var s, first := Stride(size, align), start + Gap(start, align);
      var g := first - a;
      NonNegative(s, n - 1);
      DivModUnique(a - first, WORD32, -1, WORD32 - g);
      StrideAtLeast(size, align);
      InGap(g, s);
      forall i: nat | i < n ensures a != Block(i) {
        BlocksInside(i);
      }
    }

    lemma ValidFromFirst(a: Word)
      requires Sane() && start + Gap(start, align) <= a
      ensures IsValidAddr(a) <==> IsBlock(a)
    {
      var s, first := Stride(size, align), start + Gap(start, align);
      if a <= start + TotSize(start, n, size, align) - 1 {
        DivModUnique(a - first, WORD32, 0, a - first);
        FromFirst(a - first);
        if IsBlock(a) {
          var i: nat :| i < n && a == Block(i);
          assert a - first == i * s;
        }
        if IsValidAddr(a) {
          var i: nat :| i < n && a - first == i * s;
          assert a == Block(i);
        }
      } else {
        forall i: nat | i < n ensures a != Block(i) {
          BlocksInside(i);
        }
      }
    }

    /** Which addresses the check accepts: the blocks, and one address in the leading gap if
        2^32 leaves a remainder modulo the stride that is no greater than the gap. */
    lemma ValidAddrExactly(a: Word)
      requires Sane()
      ensures IsValidAddr(a) <==>
                IsBlock(a) || (start <= a < start + Gap(start, align) && start + Gap(start, align) - a == WORD32 % Stride(size, align))
    {
      if start + Gap(start, align) <= a {
        ValidFromFirst(a);
      } else if start <= a {
        ValidInGap(a);
      } else {
        forall i: nat | i < n ensures a != Block(i) {
          BlocksInside(i);
        }
      }
    }

    /** The check is exact on every address just when the leading gap does not reach back to
        that one address. */
    ghost predicate ChecksExactly() {
      align >= 1 && n >= 1 && size >= 1 && (WORD32 % Stride(size, align) == 0 || Gap(start, align) < WORD32 % Stride(size, align))
    }

    lemma ChecksExactlyMeans()
      requires Sane()
      ensures ChecksExactly() <==> forall a: Word :: IsValidAddr(a) <==> IsBlock(a)
    {
      forall a: Word ensures ChecksExactly() ==> (IsValidAddr(a) <==> IsBlock(a)) {
        ValidAddrExactly(a);
      }
      if !ChecksExactly() {
        BlocksInside(0);
        var a: Word := start + Gap(start, align) - WORD32 % Stride(size, align);
        ValidInGap(a);
      }
    }

    /** A power of two divides 2^32, and then the check is exact. */
    lemma PowerOfTwoIsExact()
      requires Sane() && WORD32 % align == 0
      ensures ChecksExactly()
    {
      var r := WORD32 % Stride(size, align);
      StrideAtLeast(size, align);
      RemainderOfMultiples(align, WORD32, Stride(size, align));
      if 0 < r < align {
        DivModUnique(r, align, 0, r);
      }
    }
  }

  /** With another alignment it may not be: blocks of 3 octets aligned to 3 in a memory of a
      microcontroller, which starts one octet before a multiple of 3.  That octet passes. */
  lemma OddAlignmentSlips(g: Geometry, a: Word)
    requires g.start == 0x2000_0000 && g.n == 4 && g.size == 3 && g.align == 3 && a == g.start
    ensures g.Sane() && g.IsValidAddr(a) && !g.IsBlock(a)
  {
    var s, gap := Stride(g.size, g.align), Gap(g.start, g.align);
    assert s == 3 && gap == 1;
    assert s * (g.n - 1) == 9;
    assert WORD32 % s == 1;
    g.ValidInGap(a);
  }

  ghost function Elems(s: seq<nat>): set<int> {
    set x | x in s
  }

  ghost predicate Distinct(s: seq<nat>) {
    forall i, j :: 0 <= i < j < |s| ==> s[i] != s[j]
  }

  lemma {:induction false} DistinctSize(s: seq<nat>)
    requires Distinct(s)
    ensures |Elems(s)| == |s|
  {
    if s != [] {
      var n := |s| - 1;
      DistinctSize(s[..n]);
      assert Elems(s) == Elems(s[..n]) + {s[n]};
    }
  }

  lemma BlocksDiffer(g: Geometry, i: nat, j: nat)
    requires g.size >= 1 && g.align >= 1 && i < j
    ensures g.Block(i) + g.size <= g.Block(j)
  {
    var s := Stride(g.size, g.align);
    Monotone(s, i + 1, j);
    assert s * (i + 1) == i * s + s && s * j == j * s;
  }

  /** A pool of n blocks has n different block addresses. */
  lemma {:induction false} BlocksSize(g: Geometry)
    requires g.size >= 1 && g.align >= 1
    ensures |g.Blocks()| == g.n
    decreases g.n
  {
    if g.n > 0 {
      var h := g.(n := g.n - 1);
      BlocksSize(h);
      assert g.Blocks() == h.Blocks() + {g.Block(g.n - 1)} by {
        forall i: nat | i < g.n ensures g.Block(i) in h.Blocks() + {g.Block(g.n - 1)} {
          if i < h.n {
            assert h.Block(i) in h.Blocks();
          }
        }
        forall i: nat | i < h.n ensures h.Block(i) in g.Blocks() {
          assert g.Block(i) in g.Blocks();
        }
      }
      forall i: nat | i < h.n ensures h.Block(i) != g.Block(g.n - 1) {
        BlocksDiffer(g, i, g.n - 1);
      }
    }
  }

  /** A free stack: different block addresses of the pool. */
  ghost predicate StackOk(g: Geometry, stack: seq<nat>)
    requires g.align >= 1
  {
    Distinct(stack) && forall i :: 0 <= i < |stack| ==> g.IsBlock(stack[i])
  }

  /** Free and outstanding blocks partition the n blocks, and the height of the stack counts
      the free ones. */
  lemma Conservation(g: Geometry, stack: seq<nat>)
    requires g.align >= 1 && g.size >= 1 && StackOk(g, stack)
    ensures Elems(stack) <= g.Blocks() && |stack| <= g.n
    ensures |Elems(stack)| == |stack| && |g.Blocks() - Elems(stack)| == g.n - |stack|
    ensures |stack| == 0 <==> g.Blocks() - Elems(stack) == g.Blocks()
    ensures |stack| == g.n <==> g.Blocks() - Elems(stack) == {}
  {
    BlocksSize(g);
    DistinctSize(stack);
    forall a | a in Elems(stack) ensures a in g.Blocks() {
      var i :| 0 <= i < |stack| && stack[i] == a;
      assert g.IsBlock(stack[i]);
    }
    SubsetSize(Elems(stack), g.Blocks());
    assert g.Blocks() == Elems(stack) + (g.Blocks() - Elems(stack));
    if |stack| > 0 {
      assert stack[0] in Elems(stack);
    }
  }

  /** Taking the top block off the stack. */
  lemma Popped(g: Geometry, stack: seq<nat>)
    requires g.align >= 1 && StackOk(g, stack) && stack != []
    ensures var top, rest := stack[|stack| - 1], stack[..|stack| - 1];
            && StackOk(g, rest) && top in g.Blocks() && top in Elems(stack)
            && g.Blocks() - Elems(rest) == (g.Blocks() - Elems(stack)) + {top}
  {
    var top, rest := stack[|stack| - 1], stack[..|stack| - 1];
    assert Elems(stack) == Elems(rest) + {top};
    assert g.IsBlock(top);
  }

  /** Putting an outstanding block back. */
  lemma Pushed(g: Geometry, stack: seq<nat>, a: nat)
    requires g.align >= 1 && StackOk(g, stack) && g.IsBlock(a) && a !in stack
    ensures StackOk(g, stack + [a])
    ensures g.Blocks() - Elems(stack + [a]) == (g.Blocks() - Elems(stack)) - {a}
  {
    assert Elems(stack + [a]) == Elems(stack) + {a};
  }

  /** What can be handed out. */
  lemma HandedOut(g: Geometry, stack: seq<nat>)
    requires g.align >= 1 && g.size >= 1 && StackOk(g, stack)
    ensures stack == [] <==> g.Blocks() - Elems(stack) == g.Blocks()
    ensures stack != [] ==>
              var top, rest := stack[|stack| - 1], stack[..|stack| - 1];
              && StackOk(g, rest) && top in g.Blocks() && top in Elems(stack)
              && g.Blocks() - Elems(rest) == (g.Blocks() - Elems(stack)) + {top}
  {
    Conservation(g, stack);
    if stack != [] {
      Popped(g, stack);
    }
  }

  /** Which addresses can be put back, and what is then outstanding. */
  lemma GivenBack(g: Geometry, stack: seq<nat>, a: Word)
    requires g.Sane() && g.ChecksExactly() && StackOk(g, stack)
    ensures |stack| < g.n <==> g.Blocks() - Elems(stack) != {}
    ensures |stack| < g.n && g.IsValidAddr(a) && a !in stack <==> a in g.Blocks() - Elems(stack)
    ensures g.IsValidAddr(a) <==> g.IsBlock(a)
    ensures g.IsBlock(a) && a !in stack ==>
              StackOk(g, stack + [a]) && g.Blocks() - Elems(stack + [a]) == (g.Blocks() - Elems(stack)) - {a}
  {
    Conservation(g, stack);
    g.ChecksExactlyMeans();
    assert g.IsBlock(a) <==> a in g.Blocks();
    if g.IsBlock(a) && a !in stack {
      assert a in g.Blocks() - Elems(stack);
      Pushed(g, stack, a);
    }
  }

  lemma FullStack(g: Geometry, stack: seq<nat>)
    requires g.align >= 1 && g.size >= 1 && |stack| == g.n
    requires forall i: nat :: i < g.n ==> stack[i] == g.Block(i)
    ensures StackOk(g, stack) && g.Blocks() - Elems(stack) == {}
  {
    forall i, j | 0 <= i < j < |stack| ensures stack[i] != stack[j] {
      BlocksDiffer(g, i, j);
    }
    Conservation(g, stack);
  }

  /** A MEM_POOL structure: a memory segment, a block pool, or both. */
  class Pool {
    var kind: PoolType
    var segPrev: Pool?
    var segNext: Pool?
    var poolPrev: Pool?
    var poolNext: Pool?
    var poolAddrStart: nat
    var poolAddrEnd: int
    var poolPtrs: array?<nat>
    var poolSize: nat
    var blkAlign: nat
    var blkSize: nat
    var blkNbr: nat
    var blkIx: nat
    var segAddr: nat
    var segAddrNextAvail: nat
    var segSizeTot: nat
    var segSizeRem: nat
    ghost var extents: seq<Extent>     // what has been allocated from the segment

    constructor ()
    {
    }

    ghost function Geo(): Geometry
      reads this
    {
      Geometry(poolAddrStart, blkNbr, blkSize, blkAlign)
    }

    /** What Mem_PoolCreate sets up for good. */
    ghost predicate Configured()
      reads this
    {
      var holds :=
        && kind == TypePool && Geo().Sane()
        && poolAddrEnd == poolAddrStart + TotSize(poolAddrStart, blkNbr, blkSize, blkAlign) - 1
        && poolPtrs != null && poolPtrs.Length == blkNbr <= MEM_POOL_IX_MAX;
      holds
    }

    /** A pool whatever is on its free stack. */
    ghost predicate Usable()
      reads this
    {
      Configured() && blkIx <= blkNbr
    }

    /** The free stack. */
    ghost function Stack(): seq<nat>
      requires Usable()
      reads this, poolPtrs
    {
      poolPtrs[..blkIx]
    }

    ghost predicate PoolOk()
      reads this, poolPtrs
    {
      Usable() && Geo().ChecksExactly() && StackOk(Geo(), Stack())
    }

    /** The addresses on the free stack. */
    ghost function Available(): set<int>
      requires PoolOk()
      reads this, poolPtrs
    {
      Elems(Stack())
    }

    /** The blocks that have been handed out and not returned. */
    ghost function Outstanding(): set<int>
      requires PoolOk()
      reads this, poolPtrs
    {
      Geo().Blocks() - Available()
    }

    lemma BlocksAre(a: int)
      requires Usable()
      ensures a in Geo().Blocks() <==> exists i: nat :: i < blkNbr && a == BlockAt(poolAddrStart, i, blkSize, blkAlign)
    {
      if i: nat :| i < blkNbr && a == BlockAt(poolAddrStart, i, blkSize, blkAlign) {
        assert Geo().Block(i) == a;
      }
    }

    /** They are the blocks that the stack does not hold. */
    lemma OutstandingMeans(a: int)
      requires PoolOk()
      ensures a in Outstanding() <==>
                && (exists i: nat :: i < blkNbr && a == BlockAt(poolAddrStart, i, blkSize, blkAlign))
                && forall j :: 0 <= j < blkIx ==> poolPtrs[j] != a
    {
      BlocksAre(a);
      assert a in Available() <==> exists j :: 0 <= j < |Stack()| && Stack()[j] == a;
      assert forall j :: 0 <= j < blkIx ==> Stack()[j] == poolPtrs[j];
    }

    /** What happens to the rest of the structure does not matter to the blocks. */
    twostate lemma BlocksStill()
      requires old(Usable()) && kind == old(kind) && Geo() == old(Geo()) && poolAddrEnd == old(poolAddrEnd)
      requires poolPtrs == old(poolPtrs) && blkIx == old(blkIx) && poolPtrs[..] == old(poolPtrs[..])
      ensures Usable() && Stack() == old(Stack())
      ensures old(PoolOk()) ==> PoolOk() && Outstanding() == old(Outstanding())
    {
      assert Stack() == poolPtrs[..][..blkIx];
      assert old(Stack()) == old(poolPtrs[..])[..old(blkIx)];
    }

    /** As Mem_PoolCreate leaves it: every block is on the free stack. */
    ghost predicate Full()
      reads this, poolPtrs
    {
      && Usable() && blkIx == blkNbr && poolPtrs[..] == Geo().BlockSeq()
      && (Geo().ChecksExactly() ==> PoolOk() && Outstanding() == {})
    }

    /** No blocks. */
    ghost predicate Empty()
      reads this
    {
      var empty :=
        && poolAddrStart == 0 && poolAddrEnd == 0 && poolPtrs == null && poolSize == 0
        && blkAlign == 0 && blkSize == 0 && blkNbr == 0 && blkIx == 0;
      empty
    }

    /** A structure that is in no table and owns nothing. */
    ghost predicate Blank()
      reads this
    {
      var blank :=
        && kind == TypeNone && segPrev == null && segNext == null && poolPrev == null && poolNext == null
        && segAddr == 0 && segAddrNextAvail == 0 && segSizeTot == 0 && segSizeRem == 0 && extents == [] && Empty();
      blank
    }

    /** Mem_PoolClr: the fields of the pool proper. */
    method ClearBlocks()
      modifies this`poolAddrStart, this`poolAddrEnd, this`poolPtrs, this`poolSize,
               this`blkAlign, this`blkSize, this`blkNbr, this`blkIx
      ensures Empty()
      ensures poolAddrStart == 0 && poolAddrEnd == 0 && poolPtrs == null && poolSize == 0
      ensures blkAlign == 0 && blkSize == 0 && blkNbr == 0 && blkIx == 0
    {
      poolAddrStart, poolAddrEnd, poolPtrs, poolSize := 0, 0, null, 0;
      blkAlign, blkSize, blkNbr, blkIx := 0, 0, 0, 0;
    }

    /** Mem_PoolClr. */
    method Clear()
      modifies this
      ensures Blank() && Empty() && extents == []
      ensures kind == TypeNone && segPrev == null && segNext == null && poolPrev == null && poolNext == null
      ensures segAddr == 0 && segAddrNextAvail == 0 && segSizeTot == 0 && segSizeRem == 0
    {
      kind, segPrev, segNext, poolPrev, poolNext := TypeNone, null, null, null, null;
      segAddr, segAddrNextAvail, segSizeTot, segSizeRem, extents := 0, 0, 0, 0, [];
      ClearBlocks();
    }

    /** The last part of Mem_PoolCreate, with the size it has computed: every block goes on the
        free stack. */
    method Configure(start: nat, sizeTot: nat, n: nat, size: nat, align: nat, ptrs: array<nat>)
      requires n <= MEM_POOL_IX_MAX && ptrs.Length == n
      modifies this`kind, this`poolAddrStart, this`poolAddrEnd, this`poolPtrs, this`poolSize,
               this`blkAlign, this`blkSize, this`blkNbr, this`blkIx
      ensures kind == TypePool && Geo() == Geometry(start, n, size, align) && poolPtrs == ptrs
      ensures poolAddrEnd == start + sizeTot - 1 && poolSize == sizeTot
      ensures (Geo().Sane() && sizeTot == TotSize(start, n, size, align)
               && forall i: nat :: i < n ==> ptrs[i] == BlockAt(start, i, size, align)) ==> Full()
    {
      kind := TypePool;
      poolAddrStart := start;
      poolAddrEnd := start + sizeTot - 1;
      poolPtrs := ptrs;
      poolSize := sizeTot;
      blkAlign := align;
      blkSize := size;
      blkNbr := n;
      blkIx := n % 0x1_0000;
      if Geo().Sane() && forall i: nat :: i < n ==> ptrs[i] == BlockAt(start, i, size, align) {
        FullStack(Geo(), ptrs[..n]);
        assert ptrs[..] == ptrs[..n] == Geo().BlockSeq();
      }
    }

    method IsValidAddr(a: Word) returns (ok: bool)
      requires Usable()
      ensures ok <==> Geo().IsValidAddr(a)
      ensures Geo().ChecksExactly() ==> (ok <==> Geo().IsBlock(a))
    {
      Geo().ChecksExactlyMeans();
      if a < poolAddrStart || a > poolAddrEnd {
        return false;
      }
      var alignOffset := poolAddrStart % blkAlign;
      var memAlignOffset := if alignOffset != 0 then blkAlign - alignOffset else 0;
      alignOffset := blkSize % blkAlign;
      var blkAlignOffset := if alignOffset != 0 then blkAlign - alignOffset else 0;
      var memDiff := (a - (poolAddrStart + memAlignOffset)) % WORD32;
      ok := memDiff % (blkSize + blkAlignOffset) == 0;
    }

    /** Mem_PoolBlkGet once the structure is known to be a pool.  With an exact check a block handed
        out was not outstanding and now is; none is handed out only when the request is too large or
        every block is outstanding. */
    method BlkGet(size: nat) returns (blk: Option<nat>, err: LibErr)
      requires Usable()
      modifies this`blkIx
      ensures Usable() && old(Stack()) == Stack() + if blk.Some? then [blk.value] else []
      ensures err == if size > blkSize then InvalidBlkSize else if old(Stack()) == [] then PoolEmpty else ErrNone
      ensures err == ErrNone <==> blk.Some?
      ensures old(PoolOk()) ==>
                && PoolOk() && (old(Stack()) == [] <==> old(Outstanding()) == Geo().Blocks())
                && (blk.Some? ==> blk.value in Geo().Blocks() && blk.value !in old(Outstanding()))
                && Outstanding() == old(Outstanding()) + if blk.Some? then {blk.value} else {}
    {
      ghost var stack := Stack();
      if PoolOk() {
        HandedOut(Geo(), stack);
      }
      if size > blkSize {
        return None, InvalidBlkSize;
      }
      if blkIx < 1 {
        return None, PoolEmpty;
      }
      if blkIx > blkNbr {
        return None, InvalidBlkIx;
      }
      blkIx := blkIx - 1;
      assert Stack() == stack[..|stack| - 1];
      return Some(poolPtrs[blkIx]), ErrNone;
    }

    /** Mem_PoolBlkFree once the structure is known to be a pool and the address is not null.
        Any address may be offered; with an exact check it is accepted exactly when it is an
        outstanding block. */
    method BlkFree(blk: Word) returns (err: LibErr)
      requires Usable()
      modifies this`blkIx, poolPtrs
      ensures Usable() && Stack() == old(Stack()) + if err == ErrNone then [blk] else []
      ensures err == if |old(Stack())| == Geo().n then PoolFull
                     else if !Geo().IsValidAddr(blk) then InvalidBlkAddr
                     else if blk in old(Stack()) then InvalidBlkAddrInPool else ErrNone
      ensures old(PoolOk()) ==>
                && PoolOk()
                && err == (if old(Outstanding()) == {} then PoolFull
                           else if !Geo().IsBlock(blk) then InvalidBlkAddr
                           else if blk in old(Available()) then InvalidBlkAddrInPool else ErrNone)
                && (err == ErrNone <==> blk in old(Outstanding()))
                && Outstanding() == old(Outstanding()) - if err == ErrNone then {blk} else {}
    {
      ghost var stack := Stack();
      if PoolOk() {
        GivenBack(Geo(), stack, blk);
      }
      if blkIx >= blkNbr {
        return PoolFull;
      }
      var ok := IsValidAddr(blk);
      if !ok {
        return InvalidBlkAddr;
      }
      for i := 0 to blkIx
        invariant blk !in poolPtrs[..i]
      {
        if blk == poolPtrs[i] {
          assert stack[i] == blk;
          return InvalidBlkAddrInPool;
        }
      }
      poolPtrs[blkIx] := blk;
      blkIx := blkIx + 1;
      assert Stack() == stack + [blk];
      return ErrNone;
    }
  }

  /** Such an address is taken back as if it were a block, and is the next one to be handed out. */
  method FreeSlips(pool: Pool) returns (err: LibErr)
    requires pool.Usable() && pool.Geo() == Geometry(0x2000_0000, 4, 3, 3)
    requires StackOk(pool.Geo(), pool.Stack()) && |pool.Stack()| < 4
    modifies pool`blkIx, pool.poolPtrs
    ensures err == ErrNone && pool.Usable() && pool.Stack() == old(pool.Stack()) + [0x2000_0000]
    ensures !pool.Geo().IsBlock(0x2000_0000)
  {
    OddAlignmentSlips(pool.Geo(), 0x2000_0000);
    err := pool.BlkFree(0x2000_0000);
  }

  function Single(p: Pool?): set<Pool> {
    if p == null then {} else {p}
  }

  /** Mem_PoolBlkGet. */
  method PoolBlkGet(pool: Pool?, size: nat) returns (blk: Option<nat>, err: LibErr)
    requires pool != null && pool.kind == TypePool ==> pool.Usable()
    modifies Single(pool)`blkIx
    ensures pool == null ==> blk == None && err == NullPtr
    ensures pool != null && pool.kind != TypePool ==> blk == None && err == InvalidPool && unchanged(pool)
    ensures pool != null && pool.kind == TypePool ==>
              && pool.Usable() && old(pool.Stack()) == pool.Stack() + (if blk.Some? then [blk.value] else [])
              && err == (if size > pool.blkSize then InvalidBlkSize else if old(pool.Stack()) == [] then PoolEmpty else ErrNone)
              && (err == ErrNone <==> blk.Some?)
    ensures blk.Some? ==>
              var top := pool != null && pool.blkIx == old(pool.blkIx) - 1 && pool.poolPtrs != null
                         && 0 <= pool.blkIx < pool.poolPtrs.Length && blk.value == pool.poolPtrs[pool.blkIx];
              top
    ensures pool != null && pool.kind == TypePool && old(pool.PoolOk()) ==>
              && pool.PoolOk() && (old(pool.Stack()) == [] <==> old(pool.Outstanding()) == pool.Geo().Blocks())
              && (blk.Some? ==> blk.value in pool.Geo().Blocks() && blk.value !in old(pool.Outstanding()))
              && pool.Outstanding() == old(pool.Outstanding()) + if blk.Some? then {blk.value} else {}
  {
    if pool == null {
      return None, NullPtr;
    }
    if pool.kind != TypePool {
      return None, InvalidPool;
    }
    blk, err := pool.BlkGet(size);
  }

  /** The blocks' array of a structure that has one. */
  function Arrays(p: Pool?): set<array<nat>>
    reads Single(p)
  {
    if p == null || p.poolPtrs == null then {} else {p.poolPtrs}
  }

  /** Mem_PoolBlkFree. */
  method PoolBlkFree(pool: Pool?, blk: Word) returns (err: LibErr)
    requires pool != null && pool.kind == TypePool ==> pool.Usable()
    modifies Single(pool)`blkIx, Arrays(pool)
    ensures pool == null || blk == 0 ==> err == NullPtr
    ensures pool != null && blk != 0 && pool.kind != TypePool ==> err == InvalidPool
    ensures pool != null && pool.kind == TypePool ==>
              && pool.Usable() && pool.Stack() == old(pool.Stack()) + (if err == ErrNone then [blk] else [])
              && err == (if blk == 0 then NullPtr else if |old(pool.Stack())| == pool.blkNbr then PoolFull
                         else if !pool.Geo().IsValidAddr(blk) then InvalidBlkAddr
                         else if blk in old(pool.Stack()) then InvalidBlkAddrInPool else ErrNone)
    ensures pool != null && pool.kind == TypePool && old(pool.PoolOk()) ==>
              && pool.PoolOk()
              && err == (if blk == 0 then NullPtr else if old(pool.Outstanding()) == {} then PoolFull
                         else if !pool.Geo().IsBlock(blk) then InvalidBlkAddr
                         else if blk in old(pool.Available()) then InvalidBlkAddrInPool else ErrNone)
              && (err == ErrNone <==> blk in old(pool.Outstanding()))
              && pool.Outstanding() == old(pool.Outstanding()) - if err == ErrNone then {blk} else {}
  {
    if pool == null {
      return NullPtr;
    }
    if blk == 0 {
      if pool.kind == TypePool {
        pool.Geo().NullIsNoBlock();
      }
      return NullPtr;
    }
    if pool.kind != TypePool {
      return InvalidPool;
    }
    err := pool.BlkFree(blk);
  }

  datatype PoolCall = CallGet(size: nat) | CallFree(blk: Word)

  /** What a call did: a block went out, came back, or nothing happened. */
  datatype PoolEvent = Got(blk: nat) | Returned(blk: nat) | Refused

  /** The blocks held by callers after a history. */
  ghost function Held(held: set<int>, log: seq<PoolEvent>): set<int> {
    if log == [] then held
    else
      var before := Held(held, log[..|log| - 1]);
      match log[|log| - 1]
      case Got(b) => before + {b}
      case Returned(b) => before - {b}
      case Refused => before
  }

  /** A block is held if it was got and not returned since. */
  lemma {:induction false} HeldMeans(held: set<int>, log: seq<PoolEvent>, a: nat)
    ensures a in Held(held, log) <==>
              || (a in held && forall j :: 0 <= j < |log| ==> log[j] != Returned(a))
              || exists i :: 0 <= i < |log| && log[i] == Got(a) && forall j :: i < j < |log| ==> log[j] != Returned(a)
  {
    if log != [] {
      var n := |log| - 1;
      HeldMeans(held, log[..n], a);
      HeldSoFar(held, log, a);
    }
  }

  lemma HeldSoFar(held: set<int>, log: seq<PoolEvent>, a: nat)
    requires log != []
    requires var s := log[..|log| - 1];
             a in Held(held, s) <==>
               || (a in held && forall j :: 0 <= j < |s| ==> s[j] != Returned(a))
               || exists i :: 0 <= i < |s| && s[i] == Got(a) && forall j :: i < j < |s| ==> s[j] != Returned(a)
    ensures a in Held(held, log) <==>
              || (a in held && forall j :: 0 <= j < |log| ==> log[j] != Returned(a))
              || exists i :: 0 <= i < |log| && log[i] == Got(a) && forall j :: i < j < |log| ==> log[j] != Returned(a)
  {
    var n := |log| - 1;
    var s := log[..n];
    assert forall j :: 0 <= j < n ==> s[j] == log[j];
    assert log[n] == Got(a) ==> a in Held(held, log);
    if a in Held(held, s) && log[n] != Returned(a) && !(a in held && forall j :: 0 <= j < |s| ==> s[j] != Returned(a)) {
      var i :| 0 <= i < n && s[i] == Got(a) && forall j :: i < j < n ==> s[j] != Returned(a);
      assert log[i] == Got(a) && forall j :: i < j < |log| ==> log[j] != Returned(a);
    }
    if a !in Held(held, log) && log[n] != Returned(a) {
      assert a !in Held(held, s);
    }
  }

  /** No block goes out while it is held, and none comes back unless it is held. */
  ghost predicate Honest(held: set<int>, log: seq<PoolEvent>) {
    forall i :: 0 <= i < |log| ==>
                  && (log[i].Got? ==> log[i].blk !in Held(held, log[..i]))
                  && (log[i].Returned? ==> log[i].blk in Held(held, log[..i]))
  }

  method ServeCall(pool: Pool, c: PoolCall) returns (e: PoolEvent)
    requires pool.PoolOk()
    modifies pool`blkIx, pool.poolPtrs
    ensures pool.PoolOk() && pool.Geo() == old(pool.Geo()) && pool.poolPtrs == old(pool.poolPtrs)
    ensures e.Got? ==> c.CallGet? && e.blk !in old(pool.Outstanding()) && pool.Outstanding() == old(pool.Outstanding()) + {e.blk}
    ensures e.Returned? ==>
              c.CallFree? && c.blk == e.blk && e.blk in old(pool.Outstanding()) && pool.Outstanding() == old(pool.Outstanding()) - {e.blk}
    ensures e == Refused ==> pool.Outstanding() == old(pool.Outstanding())
    ensures c.CallFree? ==> (e.Returned? <==> c.blk in old(pool.Outstanding()))
  {
    match c
    case CallGet(size) =>
      var blk, _ := PoolBlkGet(pool, size);
      e := if blk.Some? then Got(blk.value) else Refused;
    case CallFree(a) =>
      var err := PoolBlkFree(pool, a);
      e := if err == ErrNone then Returned(a) else Refused;
  }

  /** Any sequence of gets and frees with any arguments keeps the pool in order, and never
      hands a block to two holders. */
  method Serve(pool: Pool, calls: seq<PoolCall>) returns (log: seq<PoolEvent>)
    requires pool.PoolOk()
    modifies pool`blkIx, pool.poolPtrs
    ensures pool.PoolOk() && |log| == |calls| && pool.Geo() == old(pool.Geo())
    ensures pool.Outstanding() == Held(old(pool.Outstanding()), log) <= pool.Geo().Blocks()
    ensures Honest(old(pool.Outstanding()), log)
    ensures forall i :: 0 <= i < |calls| && calls[i].CallFree? ==>
              (log[i].Returned? <==> calls[i].blk in Held(old(pool.Outstanding()), log[..i]))
  {
    log := [];
    ghost var first := pool.Outstanding();
    for n := 0 to |calls|
      invariant pool.PoolOk() && pool.poolPtrs == old(pool.poolPtrs) && |log| == n
      invariant pool.Outstanding() == Held(first, log) && Honest(first, log)
      invariant forall i :: 0 <= i < n && calls[i].CallFree? ==>
                  (log[i].Returned? <==> calls[i].blk in Held(first, log[..i]))
    {
      var event := ServeCall(pool, calls[n]);
      assert forall i :: 0 <= i <= n ==> (log + [event])[..i] == log[..i];
      log := log + [event];
    }
  }
}
