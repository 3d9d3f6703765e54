/** Memory segments of lib_mem.c: the table of segments, allocation from a segment, and the
    creation of pools. */
module MemTable {
  import opened Arith
  import opened Words
  import opened MemSizes
  import opened MemPool
  import opened Wrappers

  /** A segment in order: its allocations are packed from its base up to the next free
      address, and used and remaining octets add up to its size. */
  ghost predicate SegOk(seg: Pool)
    reads seg
  {
    var holds :=
      && 1 <= seg.segAddr && 1 <= seg.segSizeTot && seg.segAddr + seg.segSizeTot <= WORD32
      && Packed(seg.segAddr, seg.extents, seg.segAddrNextAvail)
      && seg.segAddrNextAvail + seg.segSizeRem == seg.segAddr + seg.segSizeTot;
    holds
  }

  lemma PackedGrows(start: nat, exts: seq<Extent>, next: nat, e: Extent)
    requires Packed(start, exts, next) && next <= e.addr && Aligned(e)
    ensures Packed(start, exts + [e], e.addr + e.size)
  {
  }

  /** Mem_PoolSegAlloc.  A block is cut from the free part of the segment unless the size and the
      gap before it add up to 2^32 or more: then their sum wraps around, and the block begins
      before the free part or reaches beyond the segment. */
  method PoolSegAlloc(seg: Pool, size: nat, align: nat) returns (blk: Option<nat>)
    requires SegOk(seg) && 1 <= align < WORD32 && 1 <= size < WORD32
    modifies seg`segAddrNextAvail, seg`segSizeRem, seg`extents
    ensures SegOk(seg)
    ensures var next, gap := old(seg.segAddrNextAvail), Gap(old(seg.segAddrNextAvail) % WORD32, align);
            var sizeTot := (gap + size) % WORD32;
            if sizeTot > old(seg.segSizeRem) then
              && blk == None && seg.segAddrNextAvail == next
              && seg.segSizeRem == old(seg.segSizeRem) && seg.extents == old(seg.extents)
            else
              && blk == Some((next + gap) % WORD32) && seg.segAddrNextAvail == next + sizeTot
              && seg.segSizeRem == old(seg.segSizeRem) - sizeTot
              && if gap + size < WORD32
                 then next < WORD32 && blk.value == next + gap && seg.extents == old(seg.extents) + [Extent(next + gap, size, align)]
                 else seg.extents == old(seg.extents) && (blk.value < next || blk.value + size > seg.segAddr + seg.segSizeTot)
    ensures Gap(old(seg.segAddrNextAvail), align) + size < WORD32 ==>
              Plainly(seg, blk, old(seg.segAddrNextAvail), old(seg.segSizeRem), old(seg.extents), size, align)
  {
    NoGapPast(seg.segAddrNextAvail, align);
    var addr := seg.segAddrNextAvail;
    var sizeRem := seg.segSizeRem;
    var sizeTot, start := Cut(addr, size, align);
    if sizeTot > sizeRem {
      return None;
    }
    if Gap(addr % WORD32, align) + size < WORD32 {
      Extended(seg.segAddr, seg.extents, addr, size, align);
      seg.extents := seg.extents + [Extent(addr + Gap(addr, align), size, align)];
    }
    seg.segAddrNextAvail := addr + sizeTot;
    seg.segSizeRem := seg.segSizeRem - sizeTot;
    return Some(start);
  }

  /** Where nothing wraps around. */
  ghost predicate Plainly(seg: Pool, blk: Option<nat>, next: nat, rem: nat, exts: seq<Extent>, size: nat, align: nat)
    requires align > 0
    reads seg
  {
    var gap := Gap(next, align);
    var holds :=
      if gap + size > rem then
        blk == None && seg.segAddrNextAvail == next && seg.segSizeRem == rem && seg.extents == exts
      else
        && blk == Some(next + gap) && seg.segAddrNextAvail == next + gap + size && seg.segSizeRem == rem - (gap + size)
        && seg.extents == exts + [Extent(next + gap, size, align)];
    holds
  }

  lemma NoGapPast(next: nat, align: nat)
    requires next <= WORD32 && align > 0
    ensures next < WORD32 ==> next % WORD32 == next
    ensures next == WORD32 ==> next % WORD32 == 0 && Gap(next % WORD32, align) == 0
  {
  }

  /** The size with the gap before it, and the aligned address, in 32 bits.  The address just past
      the last one is 0. */
  method Cut(addr: nat, size: nat, align: nat) returns (sizeTot: nat, start: nat)
    requires 1 <= addr <= WORD32 && 1 <= align < WORD32 && 1 <= size < WORD32
    ensures var gap := Gap(addr % WORD32, align);
            && sizeTot == (gap + size) % WORD32 && start == (addr + gap) % WORD32
            && (gap + size < WORD32 ==> sizeTot == gap + size)
            && (gap + size < WORD32 && addr + sizeTot <= WORD32 ==> addr % WORD32 == addr && start == addr + gap)
            && (gap + size >= WORD32 ==> start < addr || start + size >= addr + WORD32)
  {
    var alignOffset := Gap(addr % WORD32, align);
    sizeTot := (alignOffset + size) % WORD32;
    start := (addr + alignOffset) % WORD32;
  }

  lemma Extended(base: nat, exts: seq<Extent>, addr: nat, size: nat, align: nat)
    requires Packed(base, exts, addr) && align >= 1
    ensures var e := Extent(addr + Gap(addr, align), size, align); Packed(base, exts + [e], e.addr + size)
  {
    GapAligns(addr, align);
    PackedGrows(base, exts, addr, Extent(addr + Gap(addr, align), size, align));
  }

  function BlockExtents(addr: nat, n: nat, size: nat, align: nat): seq<Extent>
    requires align > 0
  {
    seq(n, (i: nat) => Extent(BlockAt(addr, i, size, align), size, align))
  }

  lemma OneMoreExtent(addr: nat, n: nat, size: nat, align: nat)
    requires align > 0
    ensures BlockExtents(addr, n + 1, size, align)
            == BlockExtents(addr, n, size, align) + [Extent(BlockAt(addr, n, size, align), size, align)]
  {
  }

  /** A segment from which the first `done` blocks of a pool at a have been allocated, and no more
      fit if there should be n. */
  ghost predicate Allocated(seg: Pool, exts: seq<Extent>, a: nat, rem: nat, n: nat, done: nat, size: nat, align: nat)
    requires align > 0
    reads seg
  {
    var holds :=
      && (done == n <==> Consumed(a, n, size, align) <= rem)
      && done <= n && Consumed(a, done, size, align) <= rem && (done < n ==> rem < Consumed(a, done + 1, size, align))
      && seg.segAddrNextAvail == a + Consumed(a, done, size, align)
      && seg.segSizeRem == rem - Consumed(a, done, size, align)
      && seg.extents == exts + BlockExtents(a, done, size, align);
    holds
  }

  /** No allocation of the blocks wraps around. */
  predicate Tame(a: nat, rem: nat, n: nat, size: nat, align: nat)
    requires align > 0
  {
    OneFits(size, align) || Consumed(a, n, size, align) <= rem
  }

  lemma TameStep(a: nat, rem: nat, i: nat, n: nat, size: nat, align: nat)
    requires align > 0 && i < n && Tame(a, rem, n, size, align) && rem < WORD32
    ensures var next := a + Consumed(a, i, size, align); Gap(next, align) + size < WORD32
    ensures Consumed(a, i + 1, size, align) > rem ==> Consumed(a, n, size, align) > rem
  {
    ConsumedOneMore(a, i, size, align);
    ConsumedMonotone(a, i + 1, n, size, align);
  }

  /** The segment when one more block has been allocated, or was found not to fit. */
  lemma OneMoreBlock(seg: Pool, blk: Option<nat>, exts: seq<Extent>, a: nat, rem: nat, i: nat, n: nat, size: nat, align: nat)
    requires align > 0 && i < n && Consumed(a, i, size, align) <= rem < WORD32 && Tame(a, rem, n, size, align)
    requires Plainly(seg, blk, a + Consumed(a, i, size, align), rem - Consumed(a, i, size, align),
                     exts + BlockExtents(a, i, size, align), size, align)
    ensures if blk.Some? then blk.value == BlockAt(a, i, size, align) && Allocated(seg, exts, a, rem, i + 1, i + 1, size, align)
            else Allocated(seg, exts, a, rem, n, i, size, align)
  {
    ConsumedOneMore(a, i, size, align);
    BlockIsNext(a, i, size, align);
    OneMoreExtent(a, i, size, align);
    ConsumedMonotone(a, i + 1, n, size, align);
    assert exts + BlockExtents(a, i, size, align) + [Extent(BlockAt(a, i, size, align), size, align)]
        == exts + (BlockExtents(a, i, size, align) + [Extent(BlockAt(a, i, size, align), size, align)]);
  }

  /** One round of the allocation loop of Mem_PoolCreate: block i of a pool at a. */
  method AllocBlock(seg: Pool, ghost exts: seq<Extent>, ghost a: nat, ghost rem: nat, ghost i: nat, ghost n: nat, size: nat, align: nat)
    returns (blk: Option<nat>)
    requires SegOk(seg) && 1 <= size < WORD32 && 1 <= align < WORD32 && i < n && exts <= seg.extents
    requires Tame(a, rem, n, size, align) ==> Allocated(seg, exts, a, rem, i, i, size, align)
    requires rem < WORD32
    modifies seg`segAddrNextAvail, seg`segSizeRem, seg`extents
    ensures SegOk(seg) && exts <= seg.extents
    ensures Tame(a, rem, n, size, align) ==>
              if blk.Some? && blk.value != 0
              then blk.value == BlockAt(a, i, size, align) && Allocated(seg, exts, a, rem, i + 1, i + 1, size, align)
              else Allocated(seg, exts, a, rem, n, i, size, align)
  {
    ghost var tame := Tame(a, rem, n, size, align);
    if tame {
      TameStep(a, rem, i, n, size, align);
    }
    blk := PoolSegAlloc(seg, size, align);
    if tame {
      OneMoreBlock(seg, blk, exts, a, rem, i, n, size, align);
    }
  }

  /** The loop of Mem_PoolCreate that allocates the blocks: with room for what they consume, and
      only then, none of the n allocations fails. */
  method AllocBlocks(seg: Pool, n: nat, size: nat, align: nat) returns (ptrs: array<nat>, done: nat)
    requires SegOk(seg) && n >= 1 && 1 <= size < WORD32 && 1 <= align < WORD32
    modifies seg`segAddrNextAvail, seg`segSizeRem, seg`extents
    ensures SegOk(seg) && fresh(ptrs) && ptrs.Length == n && done <= n && old(seg.extents) <= seg.extents
    ensures size + align <= 0x1_0000_0000 || Consumed(old(seg.segAddrNextAvail), n, size, align) <= old(seg.segSizeRem) ==>
              && Allocated(seg, old(seg.extents), old(seg.segAddrNextAvail), old(seg.segSizeRem), n, done, size, align)
              && forall i: nat :: i < done ==> ptrs[i] == BlockAt(old(seg.segAddrNextAvail), i, size, align)
  {
    ghost var exts, a, rem := seg.extents, seg.segAddrNextAvail, seg.segSizeRem;
    ptrs := new nat[n];
    done := 0;
    assert exts + BlockExtents(a, 0, size, align) == exts;
    while done < n
      invariant SegOk(seg) && done <= n && exts <= seg.extents
      invariant Tame(a, rem, n, size, align) ==> Allocated(seg, exts, a, rem, done, done, size, align)
      invariant Tame(a, rem, n, size, align) ==> forall k: nat :: k < done ==> ptrs[k] == BlockAt(a, k, size, align)
    {
      var blk := AllocBlock(seg, exts, a, rem, done, n, size, align);
      if blk == None || blk.value == 0 {
        return;
      }
      ptrs[done] := blk.value;
      done := done + 1;
    }
  }

  /** Where the heap puts the free stack of a pool of n blocks. */
  function PointerStack(addr: nat, n: nat): Extent {
    Extent(addr + Gap(addr, PTR_SIZE), n * PTR_SIZE, PTR_SIZE)
  }

  /** The size computations of Mem_PoolCreate: exact for the pointers, modulo 2^32 for the blocks. */
  method CalcSizes(addr: nat, addrPtrs: nat, n: nat, size: nat, align: nat) returns (sizeTotPtrs: nat, sizeTotPool: nat)
    requires 1 <= n <= MEM_POOL_IX_MAX && align >= 1
    ensures sizeTotPtrs == PointersSize(addrPtrs, n) && sizeTotPool == Consumed(addr, n, size, align) % WORD32
  {
    ConsumedPointers(addrPtrs, n);
    sizeTotPtrs := PoolSegCalcTotSize(addrPtrs, n, PTR_SIZE, PTR_SIZE);
    sizeTotPool := PoolSegCalcTotSize(addr, n, size, align);
  }

  /** What Mem_PoolCreate takes for the octets it needs from the heap for pointers and blocks. */
  function HeapCheck(next: nat, n: nat, size: nat, align: nat): nat
    requires align > 0
  {
    var ptrs := PointersSize(next, n);
    (ptrs + Consumed((next + ptrs) % WORD32, n, size, align) % WORD32) % WORD32
  }

  method CalcFromHeap(addrPtrs: nat, n: nat, size: nat, align: nat) returns (addrPool: nat, sizeTotPool: nat, sizeTot: nat)
    requires 1 <= n <= MEM_POOL_IX_MAX && align >= 1
    ensures addrPool == (addrPtrs + PointersSize(addrPtrs, n)) % WORD32
    ensures sizeTotPool == Consumed(addrPool, n, size, align) % WORD32 && sizeTot == HeapCheck(addrPtrs, n, size, align)
  {
    var sizeTotPtrs;
    sizeTotPtrs, sizeTotPool := CalcSizes(addrPtrs, addrPtrs, n, size, align);
    addrPool := (addrPtrs + sizeTotPtrs) % WORD32;
    sizeTotPtrs, sizeTotPool := CalcSizes(addrPool, addrPtrs, n, size, align);
    sizeTot := (sizeTotPtrs + sizeTotPool) % WORD32;
  }

  /** The octets a segment lacks as the size checks of Mem_PoolCreate see it; they find enough if
      that is not positive.  next and rem are the free address and the remaining octets of the heap,
      ownNext and ownRem those of the segment of the blocks. */
  function Shortage(base: nat, next: nat, rem: nat, ownNext: nat, ownRem: nat, n: nat, size: nat, align: nat): int
    requires align > 0
  {
    if base == 0 then HeapCheck(next, n, size, align) - rem
    else if PointersSize(next, n) > rem then PointersSize(next, n) - rem
    else Consumed(ownNext % WORD32, n, size, align) % WORD32 - ownRem
  }

  function ShortOf(base: nat, next: nat, rem: nat, n: nat): LibErr {
    if base == 0 || PointersSize(next, n) > rem then HeapEmpty else SegEmpty
  }

  /** Mem_PoolCreate stops before it has allocated anything. */
  predicate Stops(base: nat, next: nat, rem: nat, ownNext: nat, ownRem: nat, n: nat, size: nat, align: nat)
    requires align > 0
  {
    Shortage(base, next, rem, ownNext, ownRem, n, size, align) > 0 || PointersSize(next, n) > rem
  }

  /** Pointers and blocks do fit. */
  predicate Fits(base: nat, next: nat, rem: nat, ownNext: nat, ownRem: nat, n: nat, size: nat, align: nat)
    requires align > 0
  {
    var ptrs := PointersSize(next, n);
    && ptrs <= rem
    && if base == 0 then ptrs + Consumed(next + ptrs, n, size, align) <= rem else Consumed(ownNext, n, size, align) <= ownRem
  }

  /** Then the checks find enough. */
  lemma FitsPasses(base: nat, next: nat, rem: nat, ownNext: nat, ownRem: nat, n: nat, size: nat, align: nat)
    requires align > 0 && n >= 1 && size >= 1 && Fits(base, next, rem, ownNext, ownRem, n, size, align)
    requires 1 <= next && next + rem <= WORD32 && 1 <= ownNext && ownNext + ownRem <= WORD32
    ensures Shortage(base, next, rem, ownNext, ownRem, n, size, align) <= 0
    ensures base == 0 ==> (next + PointersSize(next, n)) % WORD32 == next + PointersSize(next, n)
  {
    var ptrs := PointersSize(next, n);
    var start := if base == 0 then next + ptrs else ownNext;
    TakesSome(start, n, size, align);
    RemainderIsLess(start, WORD32);
    RemainderIsLess(Consumed(start, n, size, align), WORD32);
    RemainderIsLess(ptrs + Consumed(start, n, size, align), WORD32);
  }

  lemma TakesSome(a: nat, n: nat, size: nat, align: nat)
    requires align > 0 && n >= 1 && size >= 1
    ensures Consumed(a, n, size, align) >= 1
  {
    ConsumedMonotone(a, 1, n, size, align);
    ConsumedOneMore(a, 0, size, align);
  }

  /** What is asked for when an allocation has failed with so many blocks left. */
  function Missing(next: nat, rem: nat, left: nat, size: nat, align: nat): nat
    requires align > 0
  {
    var sizeTot := Consumed(next % WORD32, left, size, align) % WORD32;
    if sizeTot > rem then sizeTot - rem else sizeTot
  }

  /** Octets [base, base + size) meet the segment. */
  predicate Overlaps(base: nat, size: nat, seg: Pool)
    reads seg
  {
    base < seg.segAddr + seg.segSizeTot && seg.segAddr < base + size
  }

  predicate SameSegment(base: nat, size: nat, seg: Pool)
    reads seg
  {
    base == seg.segAddr && size == seg.segSizeTot
  }

  /** The blocks of the pool are the latest allocations of the segment. */
  ghost predicate OwnsBlocks(seg: Pool, pool: Pool)
    reads seg, pool
  {
    var g := pool.Geo();
    g.align > 0 && g.n <= |seg.extents| && seg.extents[|seg.extents| - g.n..] == BlockExtents(g.start, g.n, g.size, g.align)
  }

  /** The segment and the pool when the blocks have been allocated, or as many as there was room for. */
  ghost predicate Filled(seg: Pool, pool: Pool, exts: seq<Extent>, a: nat, rem: nat, n: nat, done: nat, size: nat, align: nat)
    requires align > 0
    reads seg, pool, pool.poolPtrs
  {
    && Allocated(seg, exts, a, rem, n, done, size, align)
    && (done == n ==>
          && pool.Geo() == Geometry(a, n, size, align) && OwnsBlocks(seg, pool)
          && (Stride(size, align) < WORD32 ==> pool.Full()))
  }

  /** The outcome of Mem_PoolCreate once the pointers have been allocated: exts are the allocations
      of the segment of the blocks, a its free address and rem its remaining octets then. */
  ghost predicate Ended(err: LibErr, octetsReqd: nat, seg: Pool, pool: Pool, exts: seq<Extent>, a: nat, rem: nat,
                        n: nat, done: nat, size: nat, align: nat)
    requires align > 0
    reads seg, pool, pool.poolPtrs
  {
    var holds :=
      && done <= n && exts <= seg.extents && err == (if done == n then ErrNone else SegEmpty)
      && octetsReqd == (if done == n then 0 else Missing(seg.segAddrNextAvail, seg.segSizeRem, n - done, size, align))
      && (Tame(a, rem, n, size, align) ==> Filled(seg, pool, exts, a, rem, n, done, size, align));
    holds
  }

  /** The outcome of Mem_PoolCreate, by the heap and the segment of the blocks as they were. */
  ghost predicate Outcome(err: LibErr, octetsReqd: nat, heap: Pool, owner: Pool, pool: Pool, base: nat,
                          next: nat, rem: nat, exts: seq<Extent>, ownNext: nat, ownRem: nat, ownExts: seq<Extent>,
                          n: nat, done: nat, size: nat, align: nat)
    requires align > 0
    reads heap, owner, pool, pool.poolPtrs
  {
    var ptrs, short := PointersSize(next, n), Shortage(base, next, rem, ownNext, ownRem, n, size, align);
    var holds :=
      if Stops(base, next, rem, ownNext, ownRem, n, size, align) then
        && err == ShortOf(base, next, rem, n)
        && octetsReqd == if short > 0 then short else HeapCheck(next, n, size, align)
      else if base == 0 then
        Ended(err, octetsReqd, heap, pool, exts + [PointerStack(next, n)], next + ptrs, rem - ptrs, n, done, size, align)
      else
        && heap.extents == exts + [PointerStack(next, n)]
        && Ended(err, octetsReqd, owner, pool, ownExts, ownNext, ownRem, n, done, size, align);
    holds
  }

  /** When no block wraps around, the pool is created if and only if pointers and blocks fit, and it
      then owns its blocks; when it is not, something is lost unless the checks stop it. */
  lemma OutcomeExactly(err: LibErr, octetsReqd: nat, heap: Pool, owner: Pool, pool: Pool, base: nat,
                       next: nat, rem: nat, exts: seq<Extent>, ownNext: nat, ownRem: nat, ownExts: seq<Extent>,
                       n: nat, done: nat, size: nat, align: nat)
    requires align >= 1 && n >= 1 && size >= 1 && size + align <= 0x1_0000_0000
    requires 1 <= next && next + rem <= WORD32 && 1 <= ownNext && ownNext + ownRem <= WORD32
    requires base == 0 ==> owner == heap
    requires Outcome(err, octetsReqd, heap, owner, pool, base, next, rem, exts, ownNext, ownRem, ownExts, n, done, size, align)
    ensures err == ErrNone <==> Fits(base, next, rem, ownNext, ownRem, n, size, align)
    ensures err == ErrNone ==>
              && OwnsBlocks(owner, pool) && pool.Full() && pool.Geo() == Geometry(pool.poolAddrStart, n, size, align)
              && |owner.extents| == n + (if base == 0 then |exts| + 1 else |ownExts|)
              && pool.kind == TypePool && pool.blkNbr == pool.blkIx == n && pool.blkSize == size && pool.blkAlign == align
              && pool.poolAddrStart == (if base == 0 then next + PointersSize(next, n) else ownNext)
              && pool.poolPtrs != null && pool.poolPtrs.Length == n
              && forall i: nat :: i < n ==> pool.poolPtrs[i] == BlockAt(pool.poolAddrStart, i, size, align)
    ensures err != ErrNone && !Stops(base, next, rem, ownNext, ownRem, n, size, align) ==>
              done < n && exts + [PointerStack(next, n)] <= heap.extents
    ensures var ptrs, short := PointersSize(next, n), Shortage(base, next, rem, ownNext, ownRem, n, size, align);
            && (err == ErrNone ==> octetsReqd == 0)
            && (short > 0 ==> err == (if base == 0 || ptrs > rem then HeapEmpty else SegEmpty) && octetsReqd == short)
            && (short <= 0 && ptrs > rem ==> err == HeapEmpty && octetsReqd == HeapCheck(next, n, size, align))
            && (short <= 0 && ptrs <= rem && err != ErrNone ==> err == SegEmpty)
  {
    if Fits(base, next, rem, ownNext, ownRem, n, size, align) {
      FitsPasses(base, next, rem, ownNext, ownRem, n, size, align);
    }
    if err == ErrNone {
      assert forall i: nat :: i < n ==> pool.poolPtrs[i] == pool.poolPtrs[..][i];
    }
  }

  /** Where no size reaches 2^32, the shortage is the least number of octets that are missing: from the
      heap for all, or for the pointers alone, or from the segment of the blocks. */
  lemma ShortageIsLeast(base: nat, next: nat, rem: nat, ownNext: nat, ownRem: nat, n: nat, size: nat, align: nat)
    requires align >= 1 && n >= 1 && size >= 1
    requires next + PointersSize(next, n) < WORD32 && ownNext < WORD32 && Consumed(ownNext, n, size, align) < WORD32
    requires PointersSize(next, n) + Consumed(next + PointersSize(next, n), n, size, align) < WORD32
    requires Shortage(base, next, rem, ownNext, ownRem, n, size, align) > 0
    ensures var short := Shortage(base, next, rem, ownNext, ownRem, n, size, align);
            if base == 0 then
              && Fits(base, next, rem + short, ownNext, ownRem, n, size, align)
              && !Fits(base, next, rem + short - 1, ownNext, ownRem, n, size, align)
            else if PointersSize(next, n) > rem then PointersSize(next, n) == rem + short
            else
              && Fits(base, next, rem, ownNext, ownRem + short, n, size, align)
              && !Fits(base, next, rem, ownNext, ownRem + short - 1, n, size, align)
  {
    var ptrs := PointersSize(next, n);
    var blocks := Consumed(next + ptrs, n, size, align);
    RemainderIsLess(next + ptrs, WORD32);
    RemainderIsLess(blocks, WORD32);
    RemainderIsLess(ptrs + blocks, WORD32);
    RemainderIsLess(ownNext, WORD32);
    RemainderIsLess(Consumed(ownNext, n, size, align), WORD32);
  }

  /** 4 blocks of 100 octets and their pointers, of which 200 octets are there: 216 are missing. */
  lemma ShortageExample(next: nat, n: nat, size: nat, align: nat)
    requires next == 0x2000_0000 && n == 4 && size == 100 && align == 4
    ensures Shortage(0, next, 200, next, 200, n, size, align) == 216
  {
    var addr := next + 16;
    assert PointersSize(next, n) == 16;
    AlignedBlocks(addr, n, size, align, 25);
    RemainderIsLess(addr, WORD32);
    RemainderIsLess(400, WORD32);
    RemainderIsLess(416, WORD32);
  }

  /** Blocks that are multiples of their alignment leave no gaps from an aligned address on. */
  lemma AlignedBlocks(addr: nat, n: nat, size: nat, align: nat, k: nat)
    requires n >= 1 && align >= 1 && addr % align == 0 && size == align * k
    ensures Consumed(addr, n, size, align) == size * n
  {
    TotSizeIsConsumed(addr, n, size, align);
    DivModUnique(size, align, k, 0);
    assert size * n == size * (n - 1) + size;
  }

  /** And what is asked for when an allocation has failed is the least number as well. */
  lemma MissingIsLeast(next: nat, rem: nat, left: nat, size: nat, align: nat)
    requires align >= 1 && next < WORD32 && Consumed(next, left, size, align) < WORD32
    ensures rem < Consumed(next, left, size, align) ==> Missing(next, rem, left, size, align) == Consumed(next, left, size, align) - rem
    ensures rem >= Consumed(next, left, size, align) ==> Missing(next, rem, left, size, align) == Consumed(next, left, size, align)
  {
    RemainderIsLess(next, WORD32);
    RemainderIsLess(Consumed(next, left, size, align), WORD32);
  }

  /** Nothing can be lost unless the sizes add up to 2^32 or more. */
  lemma LostOnlyIfWrapped(base: nat, next: nat, rem: nat, ownNext: nat, ownRem: nat, n: nat, size: nat, align: nat)
    requires align >= 1 && n >= 1 && size >= 1
    requires 1 <= next && next + rem <= WORD32 && 1 <= ownNext && ownNext + ownRem <= WORD32
    requires !Stops(base, next, rem, ownNext, ownRem, n, size, align) && !Fits(base, next, rem, ownNext, ownRem, n, size, align)
    ensures if base == 0 then PointersSize(next, n) + Consumed((next + PointersSize(next, n)) % WORD32, n, size, align) >= WORD32
            else Consumed(ownNext % WORD32, n, size, align) >= WORD32
  {
    var ptrs := PointersSize(next, n);
    var start := if base == 0 then next + ptrs else ownNext;
    var taken := Consumed(start % WORD32, n, size, align);
    TakesSome(start % WORD32, n, size, align);
    RemainderIsLess(start, WORD32);
    RemainderIsLess(taken, WORD32);
    RemainderIsLess(ptrs + taken, WORD32);
  }

  /** What Mem_PoolCreate objects to in its arguments. */
  function ArgError(pool: Pool?, base: nat, memSize: nat, n: nat, size: nat): LibErr {
    if pool == null then NullPtr
    else if base != 0 && memSize < 1 then InvalidSegSize
    else if n < 1 then InvalidBlkNbr
    else if size < 1 then InvalidBlkSize
    else ErrNone
  }

  class Memory {
    const heap: Pool                  // Mem_PoolHeap
    var poolTbl: Pool?                // Mem_PoolTbl
    ghost var segs: seq<Pool>         // the segments, in the order of the table
    ghost var members: set<Pool>      // every structure in use, segments included

    /** Segment i is linked to its neighbours in the table. */
    ghost predicate LinkAt(i: int)
      requires 0 <= i < |segs|
      reads this, segs
    {
      && segs[i].segPrev == (if i == 0 then null else segs[i - 1])
      && segs[i].segNext == (if i == |segs| - 1 then null else segs[i + 1])
    }

    /** The table is a doubly linked list through the segments. */
    ghost predicate Linked()
      reads this, segs
    {
      |segs| > 0 && poolTbl == segs[0] && heap in segs && forall i :: 0 <= i < |segs| ==> LinkAt(i)
    }

    /** Segment i ends where segment j begins, or before. */
    ghost predicate Below(i: int, j: int)
      requires 0 <= i < |segs| && 0 <= j < |segs|
      reads this, segs
    {
      segs[i].segAddr + segs[i].segSizeTot <= segs[j].segAddr
    }

    /** Segments ascend and do not overlap, and each is in order. */
    ghost predicate Ordered()
      reads this, segs
    {
      (forall i :: 0 <= i < |segs| ==> SegOk(segs[i])) && forall i, j :: 0 <= i < j < |segs| ==> Below(i, j)
    }

    ghost predicate PoolLinkAt(p: Pool)
      reads this, p, members
    {
      && (p.poolNext != null ==> p.poolNext in members && p.poolNext.poolPrev == p)
      && (p.poolPrev != null ==> p.poolPrev in members && p.poolPrev.poolNext == p)
    }

    /** Pools that share a segment are linked both ways. */
    ghost predicate PoolsLinked()
      reads this, members
    {
      forall p {:trigger PoolLinkAt(p)} :: p in members ==> PoolLinkAt(p)
    }

    ghost predicate Valid()
      reads this, segs, members
    {
      var holds := Linked() && Ordered() && PoolsLinked() && forall i :: 0 <= i < |segs| ==> segs[i] in members;
      holds
    }

    /** The table in terms of its links, and of the addresses of neighbours in it. */
    lemma TableMeans(i: nat, p: Pool)
      requires Valid() && i < |segs| && p in members
      ensures i == 0 ==> poolTbl == segs[i] && segs[i].segPrev == null
      ensures i == |segs| - 1 ==> segs[i].segNext == null
      ensures i + 1 < |segs| ==>
                && segs[i].segNext == segs[i + 1] && segs[i + 1].segPrev == segs[i]
                && segs[i].segAddr < segs[i].segAddr + segs[i].segSizeTot <= segs[i + 1].segAddr
      ensures p.poolNext != null ==> p.poolNext.poolPrev == p
      ensures p.poolPrev != null ==> p.poolPrev.poolNext == p
    {
      assert LinkAt(i) && SegOk(segs[i]) && PoolLinkAt(p);
      if i + 1 < |segs| {
        assert LinkAt(i + 1) && Below(i, i + 1);
      }
    }

    /** Mem_Init. */
    constructor (base: nat, size: nat)
      requires 1 <= base && 1 <= size && base + size <= WORD32
      ensures Valid() && fresh(heap) && segs == [heap] && members == {heap}
      ensures SameSegment(base, size, heap) && heap.segSizeRem == size && heap.extents == []
    {
      heap := new Pool();
      new;
      heap.kind := TypeHeap;
      heap.segPrev := null;
      heap.segNext := null;
      heap.poolPrev := null;
      heap.poolNext := null;
      heap.poolAddrStart := 0;
      heap.poolAddrEnd := 0;
      heap.poolPtrs := null;
      heap.blkSize := 0;
      heap.blkNbr := 0;
      heap.blkIx := 0;
      heap.segAddr := base;
      heap.segAddrNextAvail := base;
      heap.segSizeTot := size;
      heap.segSizeRem := size;
      heap.extents := [];
      poolTbl := heap;
      segs := [heap];
      members := {heap};
      assert SegOk(heap) && LinkAt(0) && PoolLinkAt(heap);
    }

    /** No two allocations from the table's segments overlap, whatever segments they are in. */
    lemma AllocationsDisjoint(i: nat, k: nat, j: nat, l: nat)
      requires Valid() && i < |segs| && j < |segs| && k < |segs[i].extents| && l < |segs[j].extents|
      requires i != j || k != l
      ensures var e, f := segs[i].extents[k], segs[j].extents[l];
              e.addr + e.size <= f.addr || f.addr + f.size <= e.addr
    {
      assert SegOk(segs[i]) && SegOk(segs[j]);
      if i < j {
        assert Below(i, j);
      } else if j < i {
        assert Below(j, i);
      }
    }

    /** Every allocation is aligned and inside its segment, whose used and remaining octets
        add up. */
    lemma AllocationsInside(i: nat, k: nat)
      requires Valid() && i < |segs| && k < |segs[i].extents|
      ensures var e, s := segs[i].extents[k], segs[i];
              && Aligned(e)
              && s.segAddr <= e.addr && e.addr + e.size <= s.segAddrNextAvail
              && (s.segAddrNextAvail - s.segAddr) + s.segSizeRem == s.segSizeTot
    {
      assert SegOk(segs[i]);
    }

    /** The table depends only on its links and on the base and size of each segment. */
    twostate lemma TableStill()
      requires old(Linked()) && old(Ordered()) && segs == old(segs) && poolTbl == old(poolTbl)
      requires forall i :: 0 <= i < |segs| ==> segs[i].segPrev == old(segs[i].segPrev) && segs[i].segNext == old(segs[i].segNext)
      requires forall i :: 0 <= i < |segs| ==> segs[i].segAddr == old(segs[i].segAddr) && segs[i].segSizeTot == old(segs[i].segSizeTot)
      requires forall i :: 0 <= i < |segs| ==> SegOk(segs[i])
      ensures Linked() && Ordered()
    {
      forall i | 0 <= i < |segs| ensures LinkAt(i) {
        assert old(LinkAt(i));
      }
      forall i, j | 0 <= i < j < |segs| ensures Below(i, j) {
        assert old(Below(i, j));
      }
    }

    /** Allocating from segments leaves the table valid. */
    twostate lemma AllocationKeepsTable()
      requires old(Valid()) && segs == old(segs) && members == old(members) && poolTbl == old(poolTbl)
      requires forall p :: p in members ==> p.segPrev == old(p.segPrev) && p.segNext == old(p.segNext)
      requires forall p :: p in members ==> p.poolPrev == old(p.poolPrev) && p.poolNext == old(p.poolNext)
      requires forall p :: p in members ==> p.segAddr == old(p.segAddr) && p.segSizeTot == old(p.segSizeTot)
      requires forall p :: p in members && old(SegOk(p)) ==> SegOk(p)
      ensures Valid()
    {
      TableStill();
      forall p | p in members ensures PoolLinkAt(p) {
        assert old(PoolLinkAt(p));
      }
    }

    /** What Mem_HeapAlloc makes of a heap with this free address, remaining octets and allocations. */
    ghost predicate Gave(blk: Option<nat>, octetsReqd: nat, err: LibErr, next: nat, rem: nat, exts: seq<Extent>, size: nat, align: nat)
      requires align > 0
      reads this, heap
    {
      var gap := Gap(next % WORD32, align);
      var need, start := gap + size, (next + gap) % WORD32;
      var outcome :=
        if need % WORD32 > rem then
          && err == HeapEmpty && octetsReqd == need % WORD32 - rem
          && heap.segAddrNextAvail == next && heap.segSizeRem == rem && heap.extents == exts
        else if need < WORD32 then
          && err == ErrNone && blk == Some(next + gap) && heap.segAddrNextAvail == next + need
          && heap.segSizeRem == rem - need && heap.extents == exts + [Extent(next + gap, size, align)]
        else
          && (if start == 0 then err == HeapEmpty && octetsReqd == need % WORD32 else err == ErrNone && blk == Some(start))
          && heap.segSizeRem == rem - need % WORD32 && heap.extents == exts
          && (start < next || start + size > heap.segAddr + heap.segSizeTot);
      outcome
    }

    /** Where nothing wraps around: the block begins at the first aligned address, or what is asked for
        is what it would take beyond what is there. */
    lemma GaveMeans(blk: Option<nat>, octetsReqd: nat, err: LibErr, next: nat, rem: nat, exts: seq<Extent>, size: nat, align: nat)
      requires 1 <= next && next + rem <= WORD32 && 1 <= size && 1 <= align
      requires Gave(blk, octetsReqd, err, next, rem, exts, size, align)
      ensures err == ErrNone && blk.Some? && heap.extents == exts ==>
                blk.value < next || blk.value + size > heap.segAddr + heap.segSizeTot
      ensures size + align <= 0x1_0000_0000 && err == ErrNone ==>
                && blk.Some? && blk.value % align == 0 && next <= blk.value < next + align
                && heap.extents == exts + [Extent(blk.value, size, align)]
                && heap.segAddrNextAvail == blk.value + size && heap.segSizeRem == rem - (blk.value + size - next)
      ensures size + align <= 0x1_0000_0000 && err != ErrNone ==>
                && err == HeapEmpty && heap.segSizeRem == rem
                && exists a :: 0 <= a - next % WORD32 < align && a % align == 0 && octetsReqd == a + size - next % WORD32 - rem
    {
      GapAligns(next % WORD32, align);
      RemainderIsLess(Gap(next % WORD32, align) + size, WORD32);
      RemainderIsLess(next, WORD32);
    }

    /** Mem_HeapAlloc once its arguments have been checked. */
    method AllocFromHeap(size: nat, align: nat) returns (blk: Option<nat>, octetsReqd: nat, err: LibErr)
      requires Valid() && 1 <= size < WORD32 && 1 <= align < WORD32
      modifies heap`segAddrNextAvail, heap`segSizeRem, heap`extents
      ensures Valid() && (err == ErrNone <==> blk.Some?) && (err == ErrNone ==> octetsReqd == 0)
      ensures Gave(blk, octetsReqd, err, old(heap.segAddrNextAvail), old(heap.segSizeRem), old(heap.extents), size, align)
    {
      var sizeRem := heap.segSizeRem;
      assert SegOk(heap);
      var sizeReq := PoolSegCalcTotSize(heap.segAddrNextAvail % WORD32, 1, size, align);
      if sizeReq > sizeRem {
        return None, sizeReq - sizeRem, HeapEmpty;
      }
      blk := PoolSegAlloc(heap, size, align);
      AllocationKeepsTable();
      if blk == None || blk.value == 0 {
        return None, sizeReq, HeapEmpty;
      }
      return blk, 0, ErrNone;
    }

    /** Mem_HeapAlloc.  The block is one from the free part of the heap unless the size and the gap
        before it add up to 2^32 or more. */
    method HeapAlloc(size: nat, alignment: nat) returns (blk: Option<nat>, octetsReqd: nat, err: LibErr)
      requires Valid() && size < WORD32 && alignment < WORD32
      modifies heap`segAddrNextAvail, heap`segSizeRem, heap`extents
      ensures Valid() && (err == ErrNone <==> blk.Some?) && (err == ErrNone ==> octetsReqd == 0)
      ensures size == 0 ==> err == InvalidMemSize && octetsReqd == 0 && unchanged(heap)
      ensures size > 0 ==>
                Gave(blk, octetsReqd, err, old(heap.segAddrNextAvail), old(heap.segSizeRem), old(heap.extents),
                     size, if alignment < 1 then 1 else alignment)
    {
      if size < 1 {
        return None, 0, InvalidMemSize;
      }
      blk, octetsReqd, err := AllocFromHeap(size, if alignment < 1 then 1 else alignment);
    }

    /** Such a request: 2^32 - 1 octets and one octet of gap.  Nothing is taken from the heap, and
        the block given out reaches beyond it. */
    method HeapAllocSlips() returns (blk: Option<nat>, err: LibErr)
      requires Valid() && heap.segAddrNextAvail == 0x2000_0001
      modifies heap`segAddrNextAvail, heap`segSizeRem, heap`extents
      ensures Valid() && err == ErrNone && blk == Some(0x2000_0002) && heap.extents == old(heap.extents)
      ensures heap.segSizeRem == old(heap.segSizeRem) && 0x2000_0002 + 0xFFFF_FFFF > heap.segAddr + heap.segSizeTot
    {
      var octetsReqd;
      blk, octetsReqd, err := HeapAlloc(0xFFFF_FFFF, 2);
    }

    /** Memory that ends before segment k, and begins after those before it, is free. */
    lemma FreeBefore(base: nat, size: nat, k: nat)
      requires Valid() && 1 <= size && k <= |segs|
      requires forall i :: 0 <= i < k ==> segs[i].segAddr + segs[i].segSizeTot <= base
      requires k < |segs| ==> base + size <= segs[k].segAddr
      ensures forall i :: 0 <= i < |segs| ==> !Overlaps(base, size, segs[i])
      ensures forall i :: k <= i < |segs| ==> base + size <= segs[i].segAddr
    {
      forall i | k <= i < |segs| ensures base + size <= segs[i].segAddr {
        if k < i {
          assert Below(k, i) && SegOk(segs[k]);
        }
      }
    }

    /** Memory that overlaps segment k without being it is no segment. */
    lemma NoSegment(base: nat, size: nat, k: nat)
      requires Valid() && 1 <= size && k < |segs| && Overlaps(base, size, segs[k]) && !SameSegment(base, size, segs[k])
      requires forall i :: 0 <= i < k ==> segs[i].segAddr + segs[i].segSizeTot <= base
      ensures forall i :: 0 <= i < |segs| ==> !SameSegment(base, size, segs[i])
    {
      forall i | 0 <= i < |segs| ensures !SameSegment(base, size, segs[i]) {
        if k < i {
          assert Below(k, i);
        } else if i < k {
          assert SegOk(segs[i]);
        }
      }
    }

    /** Memory [base, base + size) belongs in the table between segments k - 1 and k. */
    ghost predicate Place(base: nat, size: nat, prev: Pool?, next: Pool?, k: nat)
      reads this, segs
    {
      var holds :=
        && k <= |segs| && prev == (if k == 0 then null else segs[k - 1]) && next == (if k == |segs| then null else segs[k])
        && (forall i :: 0 <= i < k ==> segs[i].segAddr + segs[i].segSizeTot <= base)
        && (forall i :: k <= i < |segs| ==> base + size <= segs[i].segAddr);
      holds
    }

    /** Some segment has this base and size. */
    ghost predicate Known(base: nat, size: nat)
      reads this, segs
    {
      exists i :: 0 <= i < |segs| && SameSegment(base, size, segs[i])
    }

    /** Memory [base, base + size) is no segment but meets one. */
    ghost predicate Clashes(base: nat, size: nat)
      reads this, segs
    {
      !Known(base, size) && exists i :: 0 <= i < |segs| && Overlaps(base, size, segs[i])
    }

    /** In terms of addresses: an octet is in both. */
    lemma ClashesMeans(base: nat, size: nat)
      requires Valid() && size > 0
      ensures Known(base, size) <==> exists i :: 0 <= i < |segs| && segs[i].segAddr == base && segs[i].segSizeTot == size
      ensures Clashes(base, size) <==>
                && !Known(base, size)
                && exists i :: 0 <= i < |segs| && Max(base, segs[i].segAddr) < Min(base + size, segs[i].segAddr + segs[i].segSizeTot)
    {
      assert forall i :: 0 <= i < |segs| ==> SegOk(segs[i]);
      assert forall i :: 0 <= i < |segs| ==>
                (Overlaps(base, size, segs[i]) <==> Max(base, segs[i].segAddr) < Min(base + size, segs[i].segAddr + segs[i].segSizeTot));
    }

    /** The search of Mem_PoolCreate for dedicated memory [base, base + size): finds the
        segment with that base and size, or an overlap, or the place of a new segment. */
    method SearchSegments(base: nat, size: nat)
      returns (overlap: bool, found: Pool?, prev: Pool?, next: Pool?, ghost k: nat)
      requires Valid() && 1 <= size && base + size <= WORD32
      ensures (overlap <==> Clashes(base, size)) && (found != null <==> Known(base, size))
      ensures !overlap && found != null ==> k < |segs| && found == prev == next == segs[k] && SameSegment(base, size, found)
      ensures !overlap && found == null ==> Place(base, size, prev, next, k)
    {
      overlap, found, prev, next, k := false, null, null, poolTbl, 0;
      var start, end := base, base + size - 1;
      while next != null
        invariant k <= |segs| && found == null && !overlap
        invariant prev == (if k == 0 then null else segs[k - 1]) && next == (if k == |segs| then null else segs[k])
        invariant forall i :: 0 <= i < k ==> segs[i].segAddr + segs[i].segSizeTot <= base
        decreases |segs| - k
      {
        assert SegOk(segs[k]) && LinkAt(k);
        if base == next.segAddr && size == next.segSizeTot {
          found, prev := next, next;
          assert SameSegment(base, size, segs[k]);
          return;
        }
        var segStart, segEnd := next.segAddr, next.segAddr + next.segSizeTot - 1;
        if end < segStart {
          FreeBefore(base, size, k);
          return;
        }
        if (start <= segStart && end >= segStart) || (start >= segStart && end <= segEnd) || (start <= segEnd && end >= segEnd) {
          overlap := true;
          assert Overlaps(base, size, segs[k]);
          NoSegment(base, size, k);
          return;
        }
        prev := next;
        next := next.segNext;
        k := k + 1;
      }
      FreeBefore(base, size, k);
    }

    /** The pointers set at the end of Mem_PoolCreate for a new segment. */
    method Splice(pool: Pool, prev: Pool?, next: Pool?)
      requires pool != prev && pool != next
      modifies this`poolTbl, pool`segPrev, pool`segNext, Single(prev)`segNext, Single(next)`segPrev
      ensures pool.segPrev == prev && pool.segNext == next
      ensures prev != null ==> prev.segNext == pool
      ensures next != null ==> next.segPrev == pool
      ensures poolTbl == if prev == null then pool else old(poolTbl)
    {
      pool.segPrev := prev;
      pool.segNext := next;
      if prev != null {
        prev.segNext := pool;
      } else {
        poolTbl := pool;
      }
      if next != null {
        next.segPrev := pool;
      }
    }

    /** Inserting a segment into its place keeps the order. */
    twostate lemma OrderedStill(k: nat)
      requires old(Ordered()) && k < |segs| && k <= |old(segs)| && segs == old(segs)[..k] + [segs[k]] + old(segs)[k..] && SegOk(segs[k])
      requires forall i :: 0 <= i < |old(segs)| ==> SegOk(old(segs)[i])
      requires forall i :: 0 <= i < |old(segs)| ==> old(segs)[i].segAddr == old(segs[i].segAddr)
      requires forall i :: 0 <= i < |old(segs)| ==> old(segs)[i].segSizeTot == old(segs[i].segSizeTot)
      requires forall i :: 0 <= i < k ==> old(segs)[i].segAddr + old(segs)[i].segSizeTot <= segs[k].segAddr
      requires forall i :: k <= i < |old(segs)| ==> segs[k].segAddr + segs[k].segSizeTot <= old(segs)[i].segAddr
      ensures Ordered()
    {
      forall i, j | 0 <= i < j < |segs| ensures Below(i, j) {
        if i != k && j != k {
          assert old(Below(if i < k then i else i - 1, if j < k then j else j - 1));
        }
      }
    }

    /** So does relinking its two neighbours keep the list doubly linked. */
    twostate lemma LinkedStill(k: nat)
      requires old(Linked()) && k < |segs| && k <= |old(segs)| && segs == old(segs)[..k] + [segs[k]] + old(segs)[k..] && Ordered()
      requires segs[k].segPrev == (if k == 0 then null else old(segs)[k - 1])
      requires segs[k].segNext == (if k == |old(segs)| then null else old(segs)[k])
      requires poolTbl == if k == 0 then segs[k] else old(poolTbl)
      requires forall i :: 0 <= i < |old(segs)| ==>
                 old(segs)[i].segNext == if k > 0 && old(segs)[i] == old(segs)[k - 1] then segs[k] else old(segs[i].segNext)
      requires forall i :: 0 <= i < |old(segs)| ==>
                 old(segs)[i].segPrev == if k < |old(segs)| && old(segs)[i] == old(segs)[k] then segs[k] else old(segs[i].segPrev)
      ensures Linked()
    {
      var s := old(segs);
      assert heap == s[0] || heap in s[1..];
      forall i | 0 <= i < |segs| ensures LinkAt(i) {
        if i < k {
          assert s[i] == segs[i] && old(LinkAt(i));
          if i < k - 1 {
            assert Below(i, k - 1) && SegOk(segs[i]);
          }
          if k < |s| {
            assert Below(i, k + 1) && SegOk(segs[i]);
          }
        } else if i > k {
          assert s[i - 1] == segs[i] && old(LinkAt(i - 1));
          if i > k + 1 {
            assert Below(k + 1, i) && SegOk(segs[k + 1]);
          }
          if k > 0 {
            assert Below(k - 1, i) && SegOk(segs[k - 1]);
          }
        }
      }
    }

    /** Pool lists do not change when segments are linked. */
    twostate lemma PoolsLinkedStill(new pool: Pool)
      requires old(PoolsLinked()) && members == old(members) + {pool} && pool.poolPrev == null && pool.poolNext == null
      requires forall p :: p in old(members) ==> p.poolPrev == old(p.poolPrev) && p.poolNext == old(p.poolNext)
      ensures PoolsLinked()
    {
      forall p | p in members ensures PoolLinkAt(p) {
        if p != pool {
          assert old(PoolLinkAt(p));
        }
      }
    }

    /** A segment spliced in at its place leaves the table valid. */
    twostate lemma Inserted(k: nat)
      requires old(Valid()) && k < |segs| && k <= |old(segs)|
      requires segs == old(segs)[..k] + [segs[k]] + old(segs)[k..] && members == old(members) + {segs[k]}
      requires var p := segs[k];
               p !in old(members) && SegOk(p) && p.poolPrev == null && p.poolNext == null
               && p.segPrev == (if k == 0 then null else old(segs)[k - 1])
               && p.segNext == (if k == |old(segs)| then null else old(segs)[k])
               && (p.segPrev != null ==> p.segPrev.segNext == p) && (p.segNext != null ==> p.segNext.segPrev == p)
               && poolTbl == (if k == 0 then p else old(poolTbl))
      requires forall i :: 0 <= i < k ==> old(segs)[i].segAddr + old(segs)[i].segSizeTot <= segs[k].segAddr
      requires forall i :: k <= i < |old(segs)| ==> segs[k].segAddr + segs[k].segSizeTot <= old(segs)[i].segAddr
      requires forall p :: p in old(members) && p != segs[k].segPrev ==> p.segNext == old(p.segNext)
      requires forall p :: p in old(members) && p != segs[k].segNext ==> p.segPrev == old(p.segPrev)
      requires forall p :: p in old(members) ==> p.segAddr == old(p.segAddr) && p.segSizeTot == old(p.segSizeTot)
      requires forall p :: p in old(members) ==> p.poolPrev == old(p.poolPrev) && p.poolNext == old(p.poolNext)
      requires forall p :: p in old(members) && old(SegOk(p)) ==> SegOk(p)
      ensures Valid()
    {
      forall i | 0 <= i < |old(segs)| ensures old(segs)[i] in old(members) {
        assert old(segs[i] in members);
      }
      OrderedStill(k);
      LinkedStill(k);
      PoolsLinkedStill(segs[k]);
    }

    /** Links a new segment between its neighbours. */
    method LinkSegment(pool: Pool, prev: Pool?, next: Pool?, ghost k: nat)
      requires Valid() && pool !in members && SegOk(pool) && pool.poolPrev == null && pool.poolNext == null
      requires Place(pool.segAddr, pool.segSizeTot, prev, next, k)
      modifies this`poolTbl, this`segs, this`members, Single(prev)`segNext, Single(next)`segPrev, pool`segNext, pool`segPrev
      ensures Valid() && segs == old(segs)[..k] + [pool] + old(segs)[k..] && members == old(members) + {pool}
    {
      Splice(pool, prev, next);
      segs := segs[..k] + [pool] + segs[k..];
      members := members + {pool};
      assert segs[k] == pool;
      Inserted(k);
    }

    /** The pointers set at the end of Mem_PoolCreate for a pool in an existing segment. */
    method SplicePool(pool: Pool, seg: Pool)
      requires pool != seg && pool != seg.poolNext
      modifies pool`poolPrev, pool`poolNext, seg`poolNext, Single(seg.poolNext)`poolPrev
      ensures pool.poolPrev == seg && pool.poolNext == old(seg.poolNext) && seg.poolNext == pool
      ensures old(seg.poolNext) != null ==> old(seg.poolNext).poolPrev == pool
    {
      var next := seg.poolNext;
      pool.poolPrev := seg;
      pool.poolNext := next;
      seg.poolNext := pool;
      if next != null {
        next.poolPrev := pool;
      }
    }

    /** Links a pool right after the structure of the segment it shares. */
    method LinkPool(pool: Pool, seg: Pool)
      requires Valid() && pool !in members && seg in members
      modifies this`members, pool`poolPrev, pool`poolNext, seg`poolNext, Single(seg.poolNext)`poolPrev
      ensures Valid() && members == old(members) + {pool} && segs == old(segs)
      ensures seg.poolNext == pool && pool.poolPrev == seg && pool.poolNext == old(seg.poolNext)
    {
      assert PoolLinkAt(seg);
      SplicePool(pool, seg);
      members := members + {pool};
      TableStill();
      forall p | p in members ensures PoolLinkAt(p) {
        if p != pool {
          assert old(PoolLinkAt(p));
        }
      }
    }

    /** Mem_PoolCreate takes the stack of block pointers from the heap ... */
    method AllocPointers(n: nat) returns (ok: bool)
      requires Valid() && 1 <= n <= MEM_POOL_IX_MAX
      modifies heap`segAddrNextAvail, heap`segSizeRem, heap`extents
      ensures Valid() && ok == (PointersSize(old(heap.segAddrNextAvail), n) <= old(heap.segSizeRem))
      ensures !ok ==> unchanged(heap)
      ensures ok ==>
                && heap.extents == old(heap.extents) + [PointerStack(old(heap.segAddrNextAvail), n)]
                && heap.segAddrNextAvail == old(heap.segAddrNextAvail) + PointersSize(old(heap.segAddrNextAvail), n)
                && heap.segSizeRem == old(heap.segSizeRem) - PointersSize(old(heap.segAddrNextAvail), n)
    {
      assert SegOk(heap);
      var ppool := PoolSegAlloc(heap, n * PTR_SIZE, PTR_SIZE);
      AllocationKeepsTable();
      ok := ppool.Some? && ppool.value != 0;
    }

    /** ... and then the blocks from their segment, which may not be in the table yet. */
    method AllocPoolBlocks(seg: Pool, n: nat, size: nat, align: nat) returns (ptrs: array<nat>, done: nat)
      requires Valid() && SegOk(seg) && n >= 1 && 1 <= size < WORD32 && 1 <= align < WORD32
      modifies seg`segAddrNextAvail, seg`segSizeRem, seg`extents
      ensures Valid() && SegOk(seg) && fresh(ptrs) && ptrs.Length == n && done <= n && old(seg.extents) <= seg.extents
      ensures Tame(old(seg.segAddrNextAvail), old(seg.segSizeRem), n, size, align) ==>
                && Allocated(seg, old(seg.extents), old(seg.segAddrNextAvail), old(seg.segSizeRem), n, done, size, align)
                && forall i: nat :: i < done ==> ptrs[i] == BlockAt(old(seg.segAddrNextAvail), i, size, align)
    {
      ptrs, done := AllocBlocks(seg, n, size, align);
      AllocationKeepsTable();
    }

    /** The bookkeeping of a pool does not touch the table. */
    method InstallBlocks(pool: Pool, start: nat, sizeTot: nat, n: nat, size: nat, align: nat, ptrs: array<nat>)
      requires Valid() && n <= MEM_POOL_IX_MAX && ptrs.Length == n
      modifies pool`kind, pool`poolAddrStart, pool`poolAddrEnd, pool`poolPtrs, pool`poolSize,
               pool`blkAlign, pool`blkSize, pool`blkNbr, pool`blkIx
      ensures Valid() && pool.Geo() == Geometry(start, n, size, align) && pool.poolPtrs == ptrs
      ensures (pool.Geo().Sane() && sizeTot == TotSize(start, n, size, align)
               && forall i: nat :: i < n ==> ptrs[i] == BlockAt(start, i, size, align)) ==> pool.Full()
    {
      pool.Configure(start, sizeTot, n, size, align, ptrs);
      AllocationKeepsTable();
    }

    /** The rest of Mem_PoolCreate for a pool in an existing segment. */
    method InstallPool(pool: Pool, seg: Pool, start: nat, sizeTot: nat, n: nat, size: nat, align: nat, ptrs: array<nat>)
      requires Valid() && pool !in members && seg in members && n <= MEM_POOL_IX_MAX && ptrs.Length == n
      modifies this`members, seg`poolNext, Single(seg.poolNext)`poolPrev, pool
      ensures Valid() && members == old(members) + {pool} && segs == old(segs)
      ensures seg.poolNext == pool && pool.poolPrev == seg && pool.poolNext == old(seg.poolNext)
      ensures pool.Geo() == Geometry(start, n, size, align) && pool.poolPtrs == ptrs
      ensures (pool.Geo().Sane() && sizeTot == TotSize(start, n, size, align)
               && forall i: nat :: i < n ==> ptrs[i] == BlockAt(start, i, size, align)) ==> pool.Full()
    {
      LinkPool(pool, seg);
      InstallBlocks(pool, start, sizeTot, n, size, align, ptrs);
    }

    /** And for a new segment. */
    method InstallSegment(pool: Pool, prev: Pool?, next: Pool?, ghost k: nat,
                          start: nat, sizeTot: nat, n: nat, size: nat, align: nat, ptrs: array<nat>)
      requires Valid() && pool !in members && SegOk(pool) && pool.poolPrev == null && pool.poolNext == null
      requires Place(pool.segAddr, pool.segSizeTot, prev, next, k) && n <= MEM_POOL_IX_MAX && ptrs.Length == n
      modifies this`poolTbl, this`segs, this`members, Single(prev)`segNext, Single(next)`segPrev, pool
      ensures Valid() && members == old(members) + {pool} && segs == old(segs)[..k] + [pool] + old(segs)[k..]
      ensures pool.extents == old(pool.extents) && pool.segAddr == old(pool.segAddr) && pool.segSizeTot == old(pool.segSizeTot)
      ensures pool.segAddrNextAvail == old(pool.segAddrNextAvail) && pool.segSizeRem == old(pool.segSizeRem)
      ensures pool.Geo() == Geometry(start, n, size, align) && pool.poolPtrs == ptrs
      ensures (pool.Geo().Sane() && sizeTot == TotSize(start, n, size, align)
               && forall i: nat :: i < n ==> ptrs[i] == BlockAt(start, i, size, align)) ==> pool.Full()
    {
      LinkSegment(pool, prev, next, k);
      InstallBlocks(pool, start, sizeTot, n, size, align, ptrs);
    }

    /** A pool whose blocks lie in a segment of 32-bit addresses is sane. */
    lemma BlocksAreSane(a: nat, rem: nat, n: nat, size: nat, align: nat)
      requires 1 <= a && a + rem <= WORD32 && n >= 1 && size >= 1 && align >= 1
      requires Consumed(a, n, size, align) <= rem
      ensures Stride(size, align) < WORD32 ==> Geometry(a, n, size, align).Sane()
      ensures rem < WORD32 && Consumed(a, n, size, align) % WORD32 == TotSize(a, n, size, align)
    {
      TotSizeIsConsumed(a, n, size, align);
    }

    lemma StartIsNext(a: nat, rem: nat, n: nat, size: nat, align: nat)
      requires 1 <= a && a + rem <= WORD32 && n >= 1 && size >= 1 && align >= 1
      requires Consumed(a, n, size, align) <= rem
      ensures a % WORD32 == a
    {
      TakesSome(a, n, size, align);
    }

    lemma OwnsLatest(seg: Pool, pool: Pool, exts: seq<Extent>, a: nat, n: nat, size: nat, align: nat)
      requires align > 0 && seg.extents == exts + BlockExtents(a, n, size, align) && pool.Geo() == Geometry(a, n, size, align)
      ensures OwnsBlocks(seg, pool)
    {
      assert seg.extents[|seg.extents| - n..] == BlockExtents(a, n, size, align);
    }

    /** Blocks and bookkeeping of a pool in an existing segment. */
    method FillPool(pool: Pool, seg: Pool, start: nat, sizeTot: nat, n: nat, size: nat, align: nat) returns (done: nat)
      requires Valid() && pool !in members && seg in segs
      requires 1 <= n <= MEM_POOL_IX_MAX && 1 <= size < WORD32 && 1 <= align < WORD32
      requires start == seg.segAddrNextAvail % WORD32 && sizeTot == Consumed(start, n, size, align) % WORD32
      modifies this`members, seg`segAddrNextAvail, seg`segSizeRem, seg`extents, seg`poolNext, Single(seg.poolNext)`poolPrev, pool
      ensures Valid() && members == old(members) + (if done == n then {pool} else {}) && segs == old(segs)
      ensures done <= n && old(seg.extents) <= seg.extents
      ensures done == n ==> pool.poolPtrs != null && fresh(pool.poolPtrs) && pool.Geo() == Geometry(start, n, size, align)
      ensures Tame(old(seg.segAddrNextAvail), old(seg.segSizeRem), n, size, align) ==>
                Filled(seg, pool, old(seg.extents), old(seg.segAddrNextAvail), old(seg.segSizeRem), n, done, size, align)
    {
      ghost var a, rem := seg.segAddrNextAvail, seg.segSizeRem;
      assert SegOk(seg) && seg in members;
      var ptrs;
      ptrs, done := AllocPoolBlocks(seg, n, size, align);
      if done == n {
        ghost var good := Tame(a, rem, n, size, align);
        if good {
          StartIsNext(a, rem, n, size, align);
          BlocksAreSane(a, rem, n, size, align);
        }
        InstallPool(pool, seg, start, sizeTot, n, size, align, ptrs);
        if good {
          OwnsLatest(seg, pool, old(seg.extents), a, n, size, align);
        }
      }
    }

    /** What Mem_PoolCreate asks for when a block cannot be allocated. */
    method StillNeeded(seg: Pool, n: nat, done: nat, size: nat, align: nat) returns (octets: nat, err: LibErr)
      requires done <= n && align >= 1
      ensures err == if done == n then ErrNone else SegEmpty
      ensures octets == if done == n then 0 else Missing(seg.segAddrNextAvail, seg.segSizeRem, n - done, size, align)
    {
      if done == n {
        return 0, ErrNone;
      }
      var sizeTot := PoolSegCalcTotSize(seg.segAddrNextAvail % WORD32, n - done, size, align);
      octets := if sizeTot > seg.segSizeRem then sizeTot - seg.segSizeRem else sizeTot;
      err := SegEmpty;
    }

    /** The blocks of a pool in an existing segment, or what is missing. */
    method FillBlocks(pool: Pool, seg: Pool, start: nat, sizeTot: nat, n: nat, size: nat, align: nat)
      returns (octetsReqd: nat, err: LibErr, ghost done: nat)
      requires Valid() && pool !in members && seg in segs
      requires 1 <= n <= MEM_POOL_IX_MAX && 1 <= size < WORD32 && 1 <= align < WORD32
      requires start == seg.segAddrNextAvail % WORD32 && sizeTot == Consumed(start, n, size, align) % WORD32
      modifies this`members, seg`segAddrNextAvail, seg`segSizeRem, seg`extents, seg`poolNext, Single(seg.poolNext)`poolPrev, pool
      ensures Valid() && members == old(members) + (if err == ErrNone then {pool} else {}) && segs == old(segs)
      ensures Ended(err, octetsReqd, seg, pool, old(seg.extents), old(seg.segAddrNextAvail), old(seg.segSizeRem), n, done, size, align)
      ensures err == ErrNone ==> pool.poolPtrs != null && fresh(pool.poolPtrs)
    {
      var got := FillPool(pool, seg, start, sizeTot, n, size, align);
      done := got;
      octetsReqd, err := StillNeeded(seg, n, got, size, align);
    }

    /** Pointers and blocks from the heap, when the size check has found enough. */
    method FillFromHeap(pool: Pool, addrPool: nat, sizeTotPool: nat, sizeTot: nat, n: nat, size: nat, align: nat)
      returns (octetsReqd: nat, err: LibErr, ghost done: nat)
      requires Valid() && pool !in members && 1 <= n <= MEM_POOL_IX_MAX && 1 <= size < WORD32 && 1 <= align < WORD32
      requires addrPool == (heap.segAddrNextAvail + PointersSize(heap.segAddrNextAvail, n)) % WORD32
      requires sizeTotPool == Consumed(addrPool, n, size, align) % WORD32
      modifies this`members, heap`segAddrNextAvail, heap`segSizeRem, heap`extents, heap`poolNext, Single(heap.poolNext)`poolPrev, pool
      ensures Valid() && segs == old(segs) && members == old(members) + if err == ErrNone then {pool} else {}
      ensures err in {ErrNone, HeapEmpty, SegEmpty} && old(heap.extents) <= heap.extents
      ensures var next, rem := old(heap.segAddrNextAvail), old(heap.segSizeRem);
              var ptrs := PointersSize(next, n);
              if ptrs > rem then err == HeapEmpty && octetsReqd == sizeTot && forall p :: p in members ==> unchanged(p)
              else Ended(err, octetsReqd, heap, pool, old(heap.extents) + [PointerStack(next, n)], next + ptrs, rem - ptrs,
                         n, done, size, align)
      ensures forall p :: p in old(members) && p != heap ==> p.extents == old(p.extents) && p.segSizeRem == old(p.segSizeRem)
      ensures err == ErrNone ==> pool.poolPtrs != null && fresh(pool.poolPtrs)
    {
      var ok := AllocPointers(n);
      if !ok {
        return sizeTot, HeapEmpty, 0;
      }
      octetsReqd, err, done := FillBlocks(pool, heap, addrPool, sizeTotPool, n, size, align);
    }

    /** Mem_PoolCreate without dedicated memory: pointers and blocks both come from the heap. */
    method CreateInHeap(pool: Pool, n: nat, size: nat, align: nat)
      returns (octetsReqd: nat, err: LibErr, ghost done: nat, ghost kept: bool)
      requires Valid() && pool !in members && 1 <= n <= MEM_POOL_IX_MAX && 1 <= size < WORD32 && 1 <= align < WORD32
      modifies this`members, heap`segAddrNextAvail, heap`segSizeRem, heap`extents, heap`poolNext, Single(heap.poolNext)`poolPrev, pool
      ensures Valid() && segs == old(segs) && members == old(members) + if err == ErrNone then {pool} else {}
      ensures err in {ErrNone, HeapEmpty, SegEmpty} && old(heap.extents) <= heap.extents
      ensures Outcome(err, octetsReqd, heap, heap, pool, 0, old(heap.segAddrNextAvail), old(heap.segSizeRem), old(heap.extents),
                      old(heap.segAddrNextAvail), old(heap.segSizeRem), old(heap.extents), n, done, size, align)
      ensures kept == Stops(0, old(heap.segAddrNextAvail), old(heap.segSizeRem), old(heap.segAddrNextAvail), old(heap.segSizeRem), n, size, align)
      ensures kept ==> forall p :: p in members ==> unchanged(p)
      ensures forall p :: p in old(members) && p != heap ==> p.extents == old(p.extents) && p.segSizeRem == old(p.segSizeRem)
      ensures err == ErrNone ==> pool.poolPtrs != null && fresh(pool.poolPtrs)
    {
      kept := Stops(0, heap.segAddrNextAvail, heap.segSizeRem, heap.segAddrNextAvail, heap.segSizeRem, n, size, align);
      var addrPool, sizeTotPool, sizeTot := CalcFromHeap(heap.segAddrNextAvail, n, size, align);
      var sizeRem := heap.segSizeRem;
      done := 0;
      if sizeTot > sizeRem {
        return sizeTot - sizeRem, HeapEmpty, done, kept;
      }
      octetsReqd, err, done := FillFromHeap(pool, addrPool, sizeTotPool, sizeTot, n, size, align);
    }

    /** Mem_PoolCreate on dedicated memory that is a segment already. */
    method CreateInSegment(pool: Pool, seg: Pool, base: nat, n: nat, size: nat, align: nat)
      returns (octetsReqd: nat, err: LibErr, ghost done: nat, ghost kept: bool)
      requires Valid() && pool !in members && seg in segs && seg != heap && base != 0
      requires 1 <= n <= MEM_POOL_IX_MAX && 1 <= size < WORD32 && 1 <= align < WORD32
      modifies this`members, heap`segAddrNextAvail, heap`segSizeRem, heap`extents,
               seg`segAddrNextAvail, seg`segSizeRem, seg`extents, seg`poolNext, Single(seg.poolNext)`poolPrev, pool
      ensures Valid() && segs == old(segs) && members == old(members) + if err == ErrNone then {pool} else {}
      ensures err in {ErrNone, HeapEmpty, SegEmpty} && old(heap.extents) <= heap.extents
      ensures Outcome(err, octetsReqd, heap, seg, pool, base, old(heap.segAddrNextAvail), old(heap.segSizeRem), old(heap.extents),
                      old(seg.segAddrNextAvail), old(seg.segSizeRem), old(seg.extents), n, done, size, align)
      ensures kept == Stops(base, old(heap.segAddrNextAvail), old(heap.segSizeRem), old(seg.segAddrNextAvail), old(seg.segSizeRem), n, size, align)
      ensures kept ==> forall p :: p in members ==> unchanged(p)
      ensures old(seg.extents) <= seg.extents
      ensures forall p :: p in old(members) && p != heap && p != seg ==> p.extents == old(p.extents) && p.segSizeRem == old(p.segSizeRem)
      ensures err == ErrNone ==> pool.poolPtrs != null && fresh(pool.poolPtrs)
    {
      done := 0;
      var start := seg.segAddrNextAvail % WORD32;
      kept := Stops(base, heap.segAddrNextAvail, heap.segSizeRem, seg.segAddrNextAvail, seg.segSizeRem, n, size, align);
      var sizeTotPtrs, sizeTotPool := CalcSizes(start, heap.segAddrNextAvail, n, size, align);
      if sizeTotPtrs > heap.segSizeRem {
        return sizeTotPtrs - heap.segSizeRem, HeapEmpty, done, kept;
      }
      if sizeTotPool > seg.segSizeRem {
        return sizeTotPool - seg.segSizeRem, SegEmpty, done, kept;
      }
      var ok := AllocPointers(n);
      octetsReqd, err, done := FillBlocks(pool, seg, start, sizeTotPool, n, size, align);
    }

    /** Blocks and bookkeeping of a pool that is also a new segment. */
    method FillSegment(pool: Pool, prev: Pool?, next: Pool?, ghost k: nat, start: nat, sizeTot: nat, n: nat, size: nat, align: nat)
      returns (done: nat)
      requires Valid() && pool !in members && SegOk(pool) && pool.poolPrev == null && pool.poolNext == null
      requires Place(pool.segAddr, pool.segSizeTot, prev, next, k)
      requires 1 <= n <= MEM_POOL_IX_MAX && 1 <= size < WORD32 && 1 <= align < WORD32
      requires start == pool.segAddrNextAvail % WORD32 && sizeTot == Consumed(start, n, size, align) % WORD32
      modifies this`poolTbl, this`segs, this`members, Single(prev)`segNext, Single(next)`segPrev, pool
      ensures Valid() && done <= n && old(pool.extents) <= pool.extents
      ensures if done == n
              then members == old(members) + {pool} && segs == old(segs)[..k] + [pool] + old(segs)[k..]
              else members == old(members) && segs == old(segs) && poolTbl == old(poolTbl)
      ensures pool.segAddr == old(pool.segAddr) && pool.segSizeTot == old(pool.segSizeTot)
      ensures done == n ==> pool.poolPtrs != null && fresh(pool.poolPtrs)
      ensures Tame(old(pool.segAddrNextAvail), old(pool.segSizeRem), n, size, align) ==>
                Filled(pool, pool, old(pool.extents), old(pool.segAddrNextAvail), old(pool.segSizeRem), n, done, size, align)
      ensures forall p :: p in old(members) ==> p.extents == old(p.extents) && p.segSizeRem == old(p.segSizeRem)
      ensures (done == n ==> pool in segs) && forall p :: p in old(segs) ==> p in segs
    {
      ghost var a, rem := pool.segAddrNextAvail, pool.segSizeRem;
      var ptrs;
      ptrs, done := AllocPoolBlocks(pool, n, size, align);
      if done == n {
        ghost var good := Tame(a, rem, n, size, align);
        if good {
          StartIsNext(a, rem, n, size, align);
          BlocksAreSane(a, rem, n, size, align);
        }
        InstallSegment(pool, prev, next, k, start, sizeTot, n, size, align, ptrs);
        assert segs[k] == pool;
        if good {
          OwnsLatest(pool, pool, old(pool.extents), a, n, size, align);
        }
      }
    }

    /** Blocks from the new segment, or what is missing. */
    method FillNewSegment(pool: Pool, prev: Pool?, next: Pool?, ghost k: nat, start: nat, sizeTot: nat, n: nat, size: nat, align: nat)
      returns (octetsReqd: nat, err: LibErr, ghost done: nat)
      requires Valid() && pool !in members && SegOk(pool) && pool.poolPrev == null && pool.poolNext == null
      requires Place(pool.segAddr, pool.segSizeTot, prev, next, k)
      requires 1 <= n <= MEM_POOL_IX_MAX && 1 <= size < WORD32 && 1 <= align < WORD32
      requires start == pool.segAddrNextAvail % WORD32 && sizeTot == Consumed(start, n, size, align) % WORD32
      modifies this`poolTbl, this`segs, this`members, Single(prev)`segNext, Single(next)`segPrev, pool
      ensures Valid() && members == old(members) + if err == ErrNone then {pool} else {}
      ensures err == ErrNone ==> pool in segs && pool.poolPtrs != null && fresh(pool.poolPtrs)
      ensures err != ErrNone ==> segs == old(segs) && poolTbl == old(poolTbl)
      ensures forall p :: p in old(segs) ==> p in segs
      ensures pool.segAddr == old(pool.segAddr) && pool.segSizeTot == old(pool.segSizeTot)
      ensures forall p :: p in old(members) ==> p.extents == old(p.extents) && p.segSizeRem == old(p.segSizeRem)
      ensures Ended(err, octetsReqd, pool, pool, old(pool.extents), old(pool.segAddrNextAvail), old(pool.segSizeRem), n, done, size, align)
    {
      var got := FillSegment(pool, prev, next, k, start, sizeTot, n, size, align);
      done := got;
      octetsReqd, err := StillNeeded(pool, n, got, size, align);
    }

    /** A segment that is not in the table yet, and from which nothing has been allocated. */
    method OpenSegment(pool: Pool, base: nat, memSize: nat)
      requires Valid() && pool !in members && pool.extents == []
      requires 1 <= base && 1 <= memSize && base + memSize <= WORD32
      modifies pool`segAddr, pool`segAddrNextAvail, pool`segSizeTot, pool`segSizeRem
      ensures Valid() && SegOk(pool) && SameSegment(base, memSize, pool)
      ensures pool.segAddrNextAvail == base && pool.segSizeRem == memSize
    {
      pool.segAddr := base;
      pool.segAddrNextAvail := base;
      pool.segSizeTot := memSize;
      pool.segSizeRem := memSize;
      AllocationKeepsTable();
    }

    /** The rest of Mem_PoolCreate for such a segment. */
    method CreateOpened(pool: Pool, prev: Pool?, next: Pool?, ghost k: nat, n: nat, size: nat, align: nat)
      returns (octetsReqd: nat, err: LibErr, ghost done: nat, ghost kept: bool)
      requires Valid() && pool !in members && SegOk(pool) && pool.poolPrev == null && pool.poolNext == null
      requires Place(pool.segAddr, pool.segSizeTot, prev, next, k) && pool.segAddrNextAvail < WORD32
      requires 1 <= n <= MEM_POOL_IX_MAX && 1 <= size < WORD32 && 1 <= align < WORD32
      modifies this`poolTbl, this`segs, this`members, Single(prev)`segNext, Single(next)`segPrev,
               heap`segAddrNextAvail, heap`segSizeRem, heap`extents, pool
      ensures Valid() && members == old(members) + if err == ErrNone then {pool} else {}
      ensures err in {ErrNone, HeapEmpty, SegEmpty} && old(heap.extents) <= heap.extents
      ensures err == ErrNone ==> pool in segs && pool.poolPtrs != null && fresh(pool.poolPtrs)
      ensures pool.segAddr == old(pool.segAddr) && pool.segSizeTot == old(pool.segSizeTot)
      ensures err != ErrNone ==> segs == old(segs) && poolTbl == old(poolTbl)
      ensures forall p :: p in old(segs) ==> p in segs
      ensures forall p :: p in old(members) && p != heap ==> p.extents == old(p.extents) && p.segSizeRem == old(p.segSizeRem)
      ensures Outcome(err, octetsReqd, heap, pool, pool, pool.segAddr, old(heap.segAddrNextAvail), old(heap.segSizeRem), old(heap.extents),
                      old(pool.segAddrNextAvail), old(pool.segSizeRem), old(pool.extents), n, done, size, align)
      ensures kept == Stops(pool.segAddr, old(heap.segAddrNextAvail), old(heap.segSizeRem),
                            old(pool.segAddrNextAvail), old(pool.segSizeRem), n, size, align)
      ensures kept ==> forall p :: p in members ==> unchanged(p)
    {
      done := 0;
      var start := pool.segAddrNextAvail;
      kept := Stops(pool.segAddr, heap.segAddrNextAvail, heap.segSizeRem, start, pool.segSizeRem, n, size, align);
      RemainderIsLess(start, WORD32);
      var sizeTotPtrs, sizeTotPool := CalcSizes(start, heap.segAddrNextAvail, n, size, align);
      if sizeTotPtrs > heap.segSizeRem {
        return sizeTotPtrs - heap.segSizeRem, HeapEmpty, done, kept;
      }
      if sizeTotPool > pool.segSizeRem {
        return sizeTotPool - pool.segSizeRem, SegEmpty, done, kept;
      }
      var ok := AllocPointers(n);
      octetsReqd, err, done := FillNewSegment(pool, prev, next, k, start, sizeTotPool, n, size, align);
    }

    /** Mem_PoolCreate on dedicated memory that becomes a new segment. */
    method CreateSegment(pool: Pool, base: nat, memSize: nat, prev: Pool?, next: Pool?, ghost k: nat,
                         n: nat, size: nat, align: nat)
      returns (octetsReqd: nat, err: LibErr, ghost done: nat, ghost kept: bool)
      requires Valid() && pool !in members && pool.poolPrev == null && pool.poolNext == null && pool.extents == []
      requires 1 <= base && 1 <= memSize && base + memSize <= WORD32
      requires Place(base, memSize, prev, next, k)
      requires 1 <= n <= MEM_POOL_IX_MAX && 1 <= size < WORD32 && 1 <= align < WORD32
      modifies this`poolTbl, this`segs, this`members, Single(prev)`segNext, Single(next)`segPrev,
               heap`segAddrNextAvail, heap`segSizeRem, heap`extents, pool
      ensures Valid() && members == old(members) + if err == ErrNone then {pool} else {}
      ensures err in {ErrNone, HeapEmpty, SegEmpty} && old(heap.extents) <= heap.extents
      ensures err == ErrNone ==> pool in segs && SameSegment(base, memSize, pool) && pool.poolPtrs != null && fresh(pool.poolPtrs)
      ensures err != ErrNone ==> segs == old(segs) && poolTbl == old(poolTbl)
      ensures forall p :: p in old(segs) ==> p in segs
      ensures forall p :: p in old(members) && p != heap ==> p.extents == old(p.extents) && p.segSizeRem == old(p.segSizeRem)
      ensures Outcome(err, octetsReqd, heap, pool, pool, base, old(heap.segAddrNextAvail), old(heap.segSizeRem), old(heap.extents),
                      base, memSize, [], n, done, size, align)
      ensures kept == Stops(base, old(heap.segAddrNextAvail), old(heap.segSizeRem), base, memSize, n, size, align)
      ensures kept ==> forall p :: p in members ==> unchanged(p)
    {
      OpenSegment(pool, base, memSize);
      octetsReqd, err, done, kept := CreateOpened(pool, prev, next, k, n, size, align);
    }

    /** Mem_PoolCreate on dedicated memory, once it is known which segment that is. */
    method CreateOnSegment(pool: Pool, found: Pool?, prev: Pool?, next: Pool?, ghost k: nat, base: Word, memSize: Word, n: nat, size: nat, align: nat)
      returns (octetsReqd: nat, err: LibErr, ghost owner: Pool, ghost done: nat, ghost kept: bool)
      requires Valid() && pool !in members && pool.poolPrev == null && pool.poolNext == null && pool.extents == []
      requires 1 <= base && 1 <= memSize && base + memSize <= WORD32
      requires if found == null then Place(base, memSize, prev, next, k)
               else found in segs && found != heap && SameSegment(base, memSize, found)
      requires 1 <= n <= MEM_POOL_IX_MAX && 1 <= size < WORD32 && 1 <= align < WORD32
      modifies this`poolTbl, this`segs, this`members, members`segNext, members`segPrev, members`poolNext, members`poolPrev,
               members`segAddrNextAvail, members`segSizeRem, members`extents, pool
      ensures Valid() && members == old(members) + if err == ErrNone then {pool} else {}
      ensures owner == (if found == null then pool else found) && err in {ErrNone, HeapEmpty, SegEmpty}
      ensures kept ==> forall p :: p in members ==> unchanged(p)
      ensures err != ErrNone ==> segs == old(segs) && poolTbl == old(poolTbl)
      ensures forall p :: p in old(segs) ==> p in segs
      ensures err == ErrNone ==> owner in segs && SameSegment(base, memSize, owner) && pool.poolPtrs != null && fresh(pool.poolPtrs)
      ensures var next, rem := old(heap.segAddrNextAvail), old(heap.segSizeRem);
                var a := if owner == pool then base else old(owner.segAddrNextAvail);
                var ownRem := if owner == pool then memSize else old(owner.segSizeRem);
                && kept == Stops(base, next, rem, a, ownRem, n, size, align)
                && Outcome(err, octetsReqd, heap, owner, pool, base, next, rem, old(heap.extents),
                           a, ownRem, if owner == pool then [] else old(owner.extents), n, done, size, align)
      ensures forall p :: p in old(members) && p != heap && p != owner ==> p.extents == old(p.extents) && p.segSizeRem == old(p.segSizeRem)
      ensures old(heap.extents) <= heap.extents && (owner != pool ==> old(owner.extents) <= owner.extents)
    {
      owner := if found != null then found else pool;
      if found != null {
        assert PoolLinkAt(found);
        octetsReqd, err, done, kept := CreateInSegment(pool, found, base, n, size, align);
      } else {
        octetsReqd, err, done, kept := CreateSegment(pool, base, memSize, prev, next, k, n, size, align);
      }
    }

    /** Mem_PoolCreate on dedicated memory. */
    method CreateDedicated(pool: Pool, base: Word, memSize: Word, n: nat, size: nat, align: nat)
      returns (octetsReqd: nat, err: LibErr, ghost owner: Pool, ghost done: nat, ghost kept: bool)
      requires Valid() && pool !in members && pool.poolPrev == null && pool.poolNext == null && pool.extents == []
      requires 1 <= base && 1 <= memSize && base + memSize <= WORD32 && !SameSegment(base, memSize, heap)
      requires 1 <= n <= MEM_POOL_IX_MAX && 1 <= size < WORD32 && 1 <= align < WORD32
      modifies this`poolTbl, this`segs, this`members, members`segNext, members`segPrev, members`poolNext, members`poolPrev,
               members`segAddrNextAvail, members`segSizeRem, members`extents, pool
      ensures Valid() && members == old(members) + if err == ErrNone then {pool} else {}
      ensures (owner == pool || owner in old(segs)) && (owner != pool <==> old(Known(base, memSize)))
      ensures err == InvalidSegOverlap <==> old(Clashes(base, memSize))
      ensures err == InvalidSegOverlap ==> octetsReqd == 0 && kept
      ensures kept ==> forall p :: p in members ==> unchanged(p)
      ensures err != ErrNone ==> segs == old(segs) && poolTbl == old(poolTbl)
      ensures forall p :: p in old(segs) ==> p in segs
      ensures err == ErrNone ==> owner in segs && SameSegment(base, memSize, owner) && pool.poolPtrs != null && fresh(pool.poolPtrs)
      ensures err != InvalidSegOverlap ==>
                var next, rem := old(heap.segAddrNextAvail), old(heap.segSizeRem);
                var a := if owner == pool then base else old(owner.segAddrNextAvail);
                var ownRem := if owner == pool then memSize else old(owner.segSizeRem);
                && kept == Stops(base, next, rem, a, ownRem, n, size, align)
                && Outcome(err, octetsReqd, heap, owner, pool, base, next, rem, old(heap.extents),
                           a, ownRem, if owner == pool then [] else old(owner.extents), n, done, size, align)
      ensures forall p :: p in old(members) && p != heap && p != owner ==> p.extents == old(p.extents) && p.segSizeRem == old(p.segSizeRem)
      ensures old(heap.extents) <= heap.extents && (owner != pool ==> old(owner.extents) <= owner.extents)
    {
      var overlap, found, prev, next, k := SearchSegments(base, memSize);
      owner := if found != null then found else pool;
      done := 0;
      if overlap {
        return 0, InvalidSegOverlap, owner, done, true;
      }
      octetsReqd, err, owner, done, kept := CreateOnSegment(pool, found, prev, next, k, base, memSize, n, size, align);
    }

    /** Mem_PoolCreate once its arguments have been checked. */
    method CreateChecked(pool: Pool, base: Word, memSize: Word, n: nat, size: nat, align: nat)
      returns (octetsReqd: nat, err: LibErr, ghost owner: Pool, ghost done: nat, ghost kept: bool)
      requires Valid() && pool !in members && pool.poolPrev == null && pool.poolNext == null && pool.extents == []
      requires base != 0 ==> memSize >= 1 && base + memSize <= WORD32 && !SameSegment(base, memSize, heap)
      requires 1 <= n <= MEM_POOL_IX_MAX && 1 <= size < WORD32 && 1 <= align < WORD32
      modifies this`poolTbl, this`segs, this`members, members`segNext, members`segPrev, members`poolNext, members`poolPrev,
               members`segAddrNextAvail, members`segSizeRem, members`extents, pool
      ensures Valid() && members == old(members) + if err == ErrNone then {pool} else {}
      ensures if base == 0 then owner == heap
              else (owner == pool || owner in old(segs)) && (owner != pool <==> old(Known(base, memSize)))
      ensures err == InvalidSegOverlap <==> base != 0 && old(Clashes(base, memSize))
      ensures err == InvalidSegOverlap ==> octetsReqd == 0 && kept
      ensures kept ==> forall p :: p in members ==> unchanged(p)
      ensures err != ErrNone ==> segs == old(segs) && poolTbl == old(poolTbl)
      ensures forall p :: p in old(segs) ==> p in segs
      ensures err == ErrNone ==>
                && owner in segs && (base != 0 ==> SameSegment(base, memSize, owner))
                && pool.poolPtrs != null && fresh(pool.poolPtrs)
      ensures err != InvalidSegOverlap ==>
                var next, rem := old(heap.segAddrNextAvail), old(heap.segSizeRem);
                var a := if owner == pool then base else old(owner.segAddrNextAvail);
                var ownRem := if owner == pool then memSize else old(owner.segSizeRem);
                && kept == Stops(base, next, rem, a, ownRem, n, size, align)
                && Outcome(err, octetsReqd, heap, owner, pool, base, next, rem, old(heap.extents),
                           a, ownRem, if owner == pool then [] else old(owner.extents), n, done, size, align)
      ensures forall p :: p in old(members) ==>
                if p == heap || p == owner then old(p.extents) <= p.extents
                else p.extents == old(p.extents) && p.segSizeRem == old(p.segSizeRem)
    {
      if base == 0 {
        assert PoolLinkAt(heap);
        owner := heap;
        octetsReqd, err, done, kept := CreateInHeap(pool, n, size, align);
      } else {
        octetsReqd, err, owner, done, kept := CreateDedicated(pool, base, memSize, n, size, align);
      }
    }

    /** Mem_PoolClr of a structure that is in no table. */
    method ClearNew(pool: Pool)
      requires Valid() && pool !in members
      modifies pool
      ensures Valid() && pool.Blank()
    {
      pool.Clear();
      AllocationKeepsTable();
    }

    /** Mem_PoolCreate.  On an error it either has not touched the table, any segment and any
        structure in it, or has taken pointers and some blocks, which are lost. */
    method PoolCreate(pool: Pool?, base: Word, memSize: Word, n: nat, size: nat, alignment: nat)
      returns (octetsReqd: nat, err: LibErr, ghost owner: Pool, ghost done: nat, ghost kept: bool)
      requires Valid() && (pool != null ==> pool !in members)
      requires base != 0 ==> base + memSize <= WORD32 && !SameSegment(base, memSize, heap)
      requires n <= MEM_POOL_IX_MAX && size < WORD32 && alignment < WORD32
      modifies this`poolTbl, this`segs, this`members, members`segNext, members`segPrev, members`poolNext, members`poolPrev,
               members`segAddrNextAvail, members`segSizeRem, members`extents, Single(pool)
      ensures Valid() && members == old(members) + if err == ErrNone then Single(pool) else {}
      ensures var bad := ArgError(pool, base, memSize, n, size);
              if bad != ErrNone then err == bad && octetsReqd == 0 && kept
              else
                && err in {ErrNone, HeapEmpty, SegEmpty, InvalidSegOverlap}
                && (err == InvalidSegOverlap <==> base != 0 && old(Clashes(base, memSize)))
                && (err == InvalidSegOverlap ==> octetsReqd == 0 && kept)
                && if base == 0 then owner == heap
                   else (owner == pool || owner in old(segs)) && (owner != pool <==> old(Known(base, memSize)))
      ensures pool == null ==> err == NullPtr
      ensures pool != null && base != 0 && memSize == 0 ==> err == InvalidSegSize
      ensures pool != null && (base == 0 || memSize > 0) && n == 0 ==> err == InvalidBlkNbr
      ensures pool != null && (base == 0 || memSize > 0) && n > 0 && size == 0 ==> err == InvalidBlkSize
      ensures kept ==> forall p :: p in members ==> unchanged(p)
      ensures err != ErrNone ==> segs == old(segs) && poolTbl == old(poolTbl)
      ensures forall p :: p in old(segs) ==> p in segs
      ensures err == ErrNone ==>
                && pool != null && owner in segs && (base != 0 ==> SameSegment(base, memSize, owner))
                && pool.poolPtrs != null && fresh(pool.poolPtrs)
      ensures err in {ErrNone, HeapEmpty, SegEmpty} ==>
                var next, rem, align := old(heap.segAddrNextAvail), old(heap.segSizeRem), if alignment < 1 then 1 else alignment;
                var a := if owner == pool then base else old(owner.segAddrNextAvail);
                var ownRem := if owner == pool then memSize else old(owner.segSizeRem);
                && kept == Stops(base, next, rem, a, ownRem, n, size, align)
                && Outcome(err, octetsReqd, heap, owner, pool, base, next, rem, old(heap.extents),
                           a, ownRem, if owner == pool then [] else old(owner.extents), n, done, size, align)
      ensures forall p :: p in old(members) ==>
                if p == heap || p == owner then old(p.extents) <= p.extents
                else p.extents == old(p.extents) && p.segSizeRem == old(p.segSizeRem)
    {
      owner, done, kept := heap, 0, true;
      octetsReqd, err := 0, ArgError(pool, base, memSize, n, size);
      if pool != null {
        ClearNew(pool);
        if err == ErrNone {
          var align := if alignment < 1 then 1 else alignment;
          octetsReqd, err, owner, done, kept := CreateChecked(pool, base, memSize, n, size, align);
        }
      }
    }

    /** A pool that is not created, and 8 octets of the heap that are lost: two blocks of 2^31 + 1
        octets take 2 octets modulo 2^32. */
    method CreateLeaks(pool: Pool) returns (octetsReqd: nat, err: LibErr)
      requires Valid() && pool !in members && heap.segAddrNextAvail == 0x2000_0000 && 10 <= heap.segSizeRem < 0x8000_0000
      modifies this`poolTbl, this`segs, this`members, members`segNext, members`segPrev, members`poolNext, members`poolPrev,
               members`segAddrNextAvail, members`segSizeRem, members`extents, pool
      ensures Valid() && err == SegEmpty && members == old(members) && heap.segSizeRem == old(heap.segSizeRem) - 8
    {
      ghost var owner, done, kept;
      ghost var rem, exts := heap.segSizeRem, heap.extents;
      octetsReqd, err, owner, done, kept := PoolCreate(pool, 0, 0, 2, 0x8000_0001, 1);
      LostPointers(err, octetsReqd, heap, pool, 0x2000_0000, rem, exts, 2, done, 0x8000_0001, 1);
    }
  }

  /** Two blocks of 2^31 + 1 octets. */
  predicate TwoHugeBlocks(n: nat, size: nat, align: nat) {
    n == 2 && size == 0x8000_0001 && align == 1
  }

  lemma HugeBlocksPass(next: nat, rem: nat, n: nat, size: nat, align: nat)
    requires TwoHugeBlocks(n, size, align) && next == 0x2000_0000 && 10 <= rem < 0x8000_0000
    ensures PointersSize(next, n) == 8 && HeapCheck(next, n, size, align) == 10
    ensures Consumed(next + 8, n, size, align) > rem - 8 && Consumed(next + 8, 1, size, align) > rem - 8
    ensures Consumed(next + 8, 0, size, align) == 0
  {
    NoGaps(next + 8, 1, size);
    NoGaps(next + 8, n, size);
    RemainderIsLess(next + 8, WORD32);
    DivModUnique(0x1_0000_0002, WORD32, 1, 2);
    RemainderIsLess(10, WORD32);
  }

  lemma LostPointers(err: LibErr, octetsReqd: nat, heap: Pool, pool: Pool, next: nat, rem: nat, exts: seq<Extent>,
                     n: nat, done: nat, size: nat, align: nat)
    requires TwoHugeBlocks(n, size, align) && next == 0x2000_0000 && 10 <= rem < 0x8000_0000
    requires Outcome(err, octetsReqd, heap, heap, pool, 0, next, rem, exts, next, rem, exts, n, done, size, align)
    ensures err == SegEmpty && heap.segSizeRem == rem - 8
  {
    HugeBlocksPass(next, rem, n, size, align);
    if done > 0 {
      ConsumedMonotone(next + 8, 1, done, size, align);
    }
  }
}
