/** Whole runs of the allocator of lib_mem.c: heap allocations, pool creations, and gets and frees
    of the blocks of any pool, in any order. */
module MemRuns {
  import opened Arith
  import opened Words
  import opened MemSizes
  import opened MemPool
  import opened MemTable
  import opened Wrappers

  datatype Request =
    | Alloc(size: nat, alignment: nat)
    | Create(base: Word, memSize: Word, n: nat, size: nat, alignment: nat)
    | Get(k: nat, size: nat)          // from the pool created as number k, or from no pool
    | Free(k: nat, blk: Word)
  {
    function Align(): (a: nat)
      requires Alloc? || Create?
      ensures a >= 1
    {
      if alignment < 1 then 1 else alignment
    }

    /** The size and any gap before it add up in 32 bits, wherever the block lies. */
    predicate Sized()
      requires Alloc? || Create?
    {
      OneFits(size, Align())
    }

    /** A get or free of pool i. */
    predicate Uses(i: nat) {
      (Get? || Free?) && k == i
    }
  }

  /** What a request yields. */
  datatype Answer = Denied | Block(addr: nat) | Created(pool: Pool) | Event(e: PoolEvent)

  /** A request with 32-bit arguments; one that creates a pool has blocks that fit in 32 bits and
      does not name the heap itself. */
  predicate Fair(r: Request, heap: Pool)
    reads heap
  {
    match r
    case Alloc(size, alignment) => size < WORD32 && alignment < WORD32
    case Create(base, memSize, n, size, alignment) =>
      && n <= MEM_POOL_IX_MAX && size < WORD32 && alignment < WORD32 && r.Sized()
      && (base != 0 ==> base + memSize <= WORD32 && !SameSegment(base, memSize, heap))
    case _ => true
  }

  // ----- Where the blocks are -----

  /** The blocks a request was given: one from the heap, or all those of a pool. */
  ghost function Granted(r: Request, out: Answer): seq<Extent>
    reads if out.Created? then {out.pool} else {}
  {
    if out.Block? && r.Alloc? && r.Sized() then [Extent(out.addr, r.size, r.Align())]
    else if out.Created? && r.Create? then BlockExtents(out.pool.poolAddrStart, r.n, r.size, r.Align())
    else []
  }

  /** A heap block has the address the caller got and the size and alignment it asked for; the
      blocks of a pool begin at its start. */
  lemma GrantedMeans(r: Request, out: Answer, k: nat)
    ensures r.Alloc? && out.Block? && r.size + Max(r.alignment, 1) <= 0x1_0000_0000 ==>
              Granted(r, out) == [Extent(out.addr, r.size, Max(r.alignment, 1))]
    ensures r.Create? && out.Created? ==>
              && |Granted(r, out)| == r.n
              && (k < r.n ==> Granted(r, out)[k] == Extent(BlockAt(out.pool.poolAddrStart, k, r.size, Max(r.alignment, 1)), r.size, Max(r.alignment, 1)))
  {
  }

  /** The blocks as allocations of a segment, from a place in the list of its allocations on. */
  datatype Entry = Entry(owner: Pool, from: nat, exts: seq<Extent>)

  ghost predicate Booked(segs: seq<Pool>, e: Entry)
    reads segs
  {
    e.owner in segs && e.from + |e.exts| <= |e.owner.extents| && e.owner.extents[e.from..e.from + |e.exts|] == e.exts
  }

  predicate Follows(d: Entry, e: Entry) {
    d.owner == e.owner ==> d.from + |d.exts| <= e.from
  }

  ghost predicate Within(e: Extent, seg: Pool)
    reads seg
  {
    seg.segAddr <= e.addr && e.addr + e.size <= seg.segAddr + seg.segSizeTot
  }

  ghost predicate InSegment(segs: seq<Pool>, e: Extent)
    reads segs
  {
    exists i :: 0 <= i < |segs| && Within(e, segs[i])
  }

  predicate Apart(d: Extent, e: Extent) {
    d.addr + d.size <= e.addr || e.addr + e.size <= d.addr
  }

  lemma BookedIsInside(memory: Memory, e: Entry, k: nat)
    requires memory.Valid() && Booked(memory.segs, e) && k < |e.exts|
    ensures Aligned(e.exts[k]) && InSegment(memory.segs, e.exts[k])
  {
    var i :| 0 <= i < |memory.segs| && memory.segs[i] == e.owner;
    assert SegOk(e.owner) && e.exts[k] == e.owner.extents[e.from + k];
    assert Within(e.exts[k], memory.segs[i]);
  }

  lemma BookedAreApart(memory: Memory, d: Entry, k: nat, e: Entry, l: nat)
    requires memory.Valid() && Booked(memory.segs, d) && Booked(memory.segs, e) && k < |d.exts| && l < |e.exts|
    requires (d == e && k != l) || Follows(d, e)
    ensures Apart(d.exts[k], e.exts[l])
  {
    var i :| 0 <= i < |memory.segs| && memory.segs[i] == d.owner;
    var j :| 0 <= j < |memory.segs| && memory.segs[j] == e.owner;
    assert d.exts[k] == d.owner.extents[d.from + k];
    assert e.exts[l] == e.owner.extents[e.from + l];
    memory.AllocationsDisjoint(i, d.from + k, j, e.from + l);
  }

  /** The entry books what the request was given. */
  ghost predicate Matches(memory: Memory, r: Request, out: Answer, e: Entry)
    reads memory, memory.segs, memory.members
  {
    && Booked(memory.segs, e)
    && (out.Created? ==>
          && r.Create? && out.pool in memory.members
          && out.pool.Geo() == Geometry(out.pool.poolAddrStart, r.n, r.size, r.Align()))
    && e.exts == Granted(r, out)
  }

  /** The requests served so far, and the entry of each. */
  datatype History = History(memory: Memory, reqs: seq<Request>, outs: seq<Answer>, book: seq<Entry>) {

    ghost predicate Kept()
      reads memory, memory.segs, memory.members
    {
      && |outs| == |book| == |reqs|
      && (forall i :: 0 <= i < |outs| ==> Matches(memory, reqs[i], outs[i], book[i]))
      && (forall i, j :: 0 <= i < j < |book| ==> Follows(book[i], book[j]))
    }

    /** The structures of the run are still there and segments have only been added to. */
    twostate lemma StaysKept()
      requires old(Kept())
      requires forall p :: p in old(memory.segs) ==> p in memory.segs && old(p.extents) <= p.extents
      requires forall p :: p in old(memory.members) ==> p in memory.members && p.Geo() == old(p.Geo())
      ensures Kept()
      ensures forall i :: 0 <= i < |book| ==>
                book[i].owner in old(memory.segs) && book[i].from + |book[i].exts| <= |old(book[i].owner.extents)|
    {
      forall i | 0 <= i < |outs| ensures Matches(memory, reqs[i], outs[i], book[i]) {
        assert old(Matches(memory, reqs[i], outs[i], book[i]));
        assert book[i].owner in old(memory.segs);
      }
    }

    lemma OneMoreEntry(r: Request, out: Answer, e: Entry)
      requires Kept() && Matches(memory, r, out, e) && forall i :: 0 <= i < |book| ==> Follows(book[i], e)
      ensures History(memory, reqs + [r], outs + [out], book + [e]).Kept()
    {
    }

    /** Frees stay exact while the addresses of the pools do not change. */
    twostate lemma FreesStay(pools: seq<Pool>)
      requires |reqs| == |outs| && old(FreesExact(reqs, outs, pools)) && forall p :: p in pools ==> p.Geo() == old(p.Geo())
      ensures FreesExact(reqs, outs, pools)
    {
      forall i | 0 <= i < |reqs| && reqs[i].Free? ensures FreeExact(reqs, outs, pools, i) {
        assert old(FreeExact(reqs, outs, pools, i));
        assert reqs[i].k < |pools| ==> pools[reqs[i].k] in pools;
      }
    }

    lemma BlocksInside(i: nat, k: nat)
      requires Kept() && memory.Valid() && i < |outs| && k < |Granted(reqs[i], outs[i])|
      ensures Aligned(Granted(reqs[i], outs[i])[k]) && InSegment(memory.segs, Granted(reqs[i], outs[i])[k])
    {
      assert Matches(memory, reqs[i], outs[i], book[i]);
      BookedIsInside(memory, book[i], k);
    }

    lemma BlocksApart(i: nat, k: nat, j: nat, l: nat)
      requires Kept() && memory.Valid() && i <= j < |outs| && (i == j ==> k != l)
      requires k < |Granted(reqs[i], outs[i])| && l < |Granted(reqs[j], outs[j])|
      ensures Apart(Granted(reqs[i], outs[i])[k], Granted(reqs[j], outs[j])[l])
    {
      assert Matches(memory, reqs[i], outs[i], book[i]) && Matches(memory, reqs[j], outs[j], book[j]);
      BookedAreApart(memory, book[i], k, book[j], l);
    }
  }

  // ----- Who holds them -----

  /** A pool of the run; if its address check is exact, its outstanding blocks are those its log says
      callers hold. */
  ghost predicate InOrder(p: Pool, log: seq<PoolEvent>)
    reads p, p.poolPtrs
  {
    && p.Usable()
    && (p.Geo().ChecksExactly() ==> p.PoolOk() && p.Outstanding() == Held({}, log) && Honest({}, log))
  }

  ghost function ArraysOf(pools: seq<Pool>): set<array<nat>>
    reads pools
  {
    set p | p in pools && p.poolPtrs != null :: p.poolPtrs
  }

  /** The pools created so far, and what has happened to the blocks of each. */
  datatype Stock = Stock(memory: Memory, pools: seq<Pool>, logs: seq<seq<PoolEvent>>) {

    ghost predicate Kept()
      reads memory, pools, ArraysOf(pools)
    {
      && |logs| == |pools|
      && (forall k :: 0 <= k < |pools| ==> pools[k] in memory.members && InOrder(pools[k], logs[k]))
      && (forall i, j :: 0 <= i < j < |pools| ==> pools[i] != pools[j] && pools[i].poolPtrs != pools[j].poolPtrs)
    }

    /** Allocations and new pools do not matter to the blocks of the others. */
    twostate lemma StaysKept()
      requires old(Kept()) && old(memory.members) <= memory.members
      requires forall p :: p in pools ==> BlocksSame(p)
      requires forall a :: a in old(ArraysOf(pools)) ==> a[..] == old(a[..])
      ensures Kept() && ArraysOf(pools) == old(ArraysOf(pools))
    {
      forall k | 0 <= k < |pools|
        ensures InOrder(pools[k], logs[k]) && pools[k].poolPtrs == old(pools[k].poolPtrs)
      {
        assert old(InOrder(pools[k], logs[k])) && pools[k] in pools;
        assert BlocksSame(pools[k]) && old(pools[k].poolPtrs) in old(ArraysOf(pools));
        pools[k].BlocksStill();
      }
    }

    lemma OneMorePool(pool: Pool)
      requires Kept() && pool in memory.members && pool !in pools && InOrder(pool, []) && pool.poolPtrs !in ArraysOf(pools)
      ensures Stock(memory, pools + [pool], logs + [[]]).Kept()
      ensures ArraysOf(pools + [pool]) == ArraysOf(pools) + Arrays(pool)
    {
      forall k | 0 <= k < |pools| ensures pools[k].poolPtrs in ArraysOf(pools) {
        assert InOrder(pools[k], logs[k]);
      }
    }

    /** A get or free of pool k does not matter to the blocks of the others. */
    twostate lemma OthersStay(k: nat)
      requires old(Kept()) && k < |pools|
      requires forall j :: 0 <= j < |pools| ==>
                 && pools[j].kind == old(pools[j].kind) && pools[j].Geo() == old(pools[j].Geo())
                 && pools[j].poolAddrEnd == old(pools[j].poolAddrEnd) && pools[j].poolPtrs == old(pools[j].poolPtrs)
                 && (j != k ==> pools[j].blkIx == old(pools[j].blkIx))
      requires forall a :: a in old(ArraysOf(pools)) && a != old(pools[k].poolPtrs) ==> a[..] == old(a[..])
      ensures forall j :: 0 <= j < |pools| && j != k ==> InOrder(pools[j], logs[j])
    {
      forall j | 0 <= j < |pools| && j != k ensures InOrder(pools[j], logs[j]) {
        assert old(InOrder(pools[j], logs[j]));
        assert old(pools[j].poolPtrs) in old(ArraysOf(pools));
        pools[j].BlocksStill();
      }
    }
  }

  lemma OneMoreEvent(log: seq<PoolEvent>, e: PoolEvent)
    requires Honest({}, log) && (e.Got? ==> e.blk !in Held({}, log)) && (e.Returned? ==> e.blk in Held({}, log))
    ensures Honest({}, log + [e])
    ensures e.Got? ==> Held({}, log + [e]) == Held({}, log) + {e.blk}
    ensures e.Returned? ==> Held({}, log + [e]) == Held({}, log) - {e.blk}
    ensures e.Refused? ==> Held({}, log + [e]) == Held({}, log)
  {
    assert forall i :: 0 <= i <= |log| ==> (log + [e])[..i] == log[..i];
  }

  /** Mem_PoolBlkGet in a run. */
  method ServeGet(pool: Pool, size: nat, ghost log: seq<PoolEvent>) returns (e: PoolEvent)
    requires InOrder(pool, log)
    modifies pool`blkIx
    ensures InOrder(pool, log + [e])
  {
    var blk, _ := PoolBlkGet(pool, size);
    e := if blk.Some? then Got(blk.value) else Refused;
    if pool.Geo().ChecksExactly() {
      OneMoreEvent(log, e);
    }
  }

  /** Mem_PoolBlkFree in a run: with an exact check it takes back just what is held. */
  method ServeFree(pool: Pool, blk: Word, ghost log: seq<PoolEvent>) returns (e: PoolEvent)
    requires InOrder(pool, log)
    modifies pool`blkIx, Arrays(pool)
    ensures InOrder(pool, log + [e])
    ensures pool.Geo().ChecksExactly() ==> (e == Returned(blk) <==> blk in Held({}, log))
  {
    var err := PoolBlkFree(pool, blk);
    e := if err == ErrNone then Returned(blk) else Refused;
    if pool.Geo().ChecksExactly() {
      OneMoreEvent(log, e);
    }
  }

  /** A get or a free of one pool. */
  method ServePool(pool: Pool, r: Request, ghost log: seq<PoolEvent>) returns (e: PoolEvent)
    requires InOrder(pool, log) && (r.Get? || r.Free?)
    modifies pool`blkIx, Arrays(pool)
    ensures InOrder(pool, log + [e])
    ensures r.Free? && pool.Geo().ChecksExactly() ==> (e == Returned(r.blk) <==> r.blk in Held({}, log))
  {
    if r.Get? {
      e := ServeGet(pool, r.size, log);
    } else {
      e := ServeFree(pool, r.blk, log);
    }
  }

  /** A get or a free of a pool of the run. */
  method ServeUse(memory: Memory, pools: seq<Pool>, r: Request, ghost s: Stock) returns (e: PoolEvent, ghost s': Stock)
    requires memory.Valid() && s.Kept() && s.memory == memory && s.pools == pools && (r.Get? || r.Free?) && r.k < |pools|
    modifies Single(pools[r.k])`blkIx, Arrays(pools[r.k])
    ensures memory.Valid() && s'.Kept() && s' == Stock(memory, pools, s.logs[r.k := s.logs[r.k] + [e]])
    ensures r.Free? && pools[r.k].Geo().ChecksExactly() ==> (e == Returned(r.blk) <==> r.blk in Held({}, s.logs[r.k]))
  {
    assert InOrder(pools[r.k], s.logs[r.k]);
    e := ServePool(pools[r.k], r, s.logs[r.k]);
    s.OthersStay(r.k);
    s' := Stock(memory, pools, s.logs[r.k := s.logs[r.k] + [e]]);
    memory.AllocationKeepsTable();
  }

  /** Mem_HeapAlloc in a run. */
  method ServeAlloc(memory: Memory, r: Request) returns (out: Answer, ghost e: Entry)
    requires memory.Valid() && Fair(r, memory.heap) && r.Alloc?
    modifies memory.heap`segAddrNextAvail, memory.heap`segSizeRem, memory.heap`extents
    ensures memory.Valid() && old(memory.heap.extents) <= memory.heap.extents && (out == Denied || out.Block?)
    ensures e.owner == memory.heap && |old(memory.heap.extents)| <= e.from
    ensures Booked(memory.segs, e) && e.exts == Granted(r, out)
  {
    var blk, octetsReqd, err := memory.HeapAlloc(r.size, r.alignment);
    if r.size > 0 {
      assert SegOk(memory.heap);
      memory.GaveMeans(blk, octetsReqd, err, old(memory.heap.segAddrNextAvail), old(memory.heap.segSizeRem),
                       old(memory.heap.extents), r.size, r.Align());
    }
    out := if blk.Some? then Block(blk.value) else Denied;
    ghost var now := memory.heap.extents;
    e := Entry(memory.heap, |now| - |Granted(r, out)|, Granted(r, out));
    assert now == old(memory.heap.extents) + Granted(r, out) || Granted(r, out) == [];
    assert now[e.from..e.from + |e.exts|] == e.exts;
  }

  /** Mem_PoolCreate when no block wraps around: what it creates owns its blocks, all of them free,
      as the latest allocations of a segment. */
  method CreateOwned(memory: Memory, pool: Pool, r: Request) returns (ok: bool, ghost owner: Pool)
    requires memory.Valid() && pool !in memory.members && Fair(r, memory.heap) && r.Create?
    modifies memory`poolTbl, memory`segs, memory`members, memory.members`segNext, memory.members`segPrev,
             memory.members`poolNext, memory.members`poolPrev, memory.members`segAddrNextAvail,
             memory.members`segSizeRem, memory.members`extents, pool
    ensures memory.Valid() && memory.members == old(memory.members) + if ok then {pool} else {}
    ensures forall p :: p in old(memory.segs) ==> p in memory.segs
    ensures forall p :: p in old(memory.members) ==> old(p.extents) <= p.extents
    ensures ok ==>
              && owner in memory.segs && OwnsBlocks(owner, pool) && pool.Full() && fresh(pool.poolPtrs)
              && pool.Geo() == Geometry(pool.poolAddrStart, r.n, r.size, r.Align())
              && (owner != pool ==> owner in old(memory.members) && |old(owner.extents)| + r.n <= |owner.extents|)
  {
    var octetsReqd, err;
    ghost var done, kept;
    assert SegOk(memory.heap) && memory.heap in memory.members;
    octetsReqd, err, owner, done, kept := memory.PoolCreate(pool, r.base, r.memSize, r.n, r.size, r.alignment);
    ok := err == ErrNone;
    if ok {
      ghost var isNew := owner == pool;
      assert !isNew ==> old(SegOk(owner));
      OutcomeExactly(err, octetsReqd, memory.heap, owner, pool, r.base,
                     old(memory.heap.segAddrNextAvail), old(memory.heap.segSizeRem), old(memory.heap.extents),
                     if isNew then r.base else old(owner.segAddrNextAvail), if isNew then r.memSize else old(owner.segSizeRem),
                     if isNew then [] else old(owner.extents), r.n, done, r.size, r.Align());
    }
  }

  /** The fields of the pool proper have not changed. */
  twostate predicate BlocksSame(p: Pool)
    reads p
  {
    && p.kind == old(p.kind) && p.Geo() == old(p.Geo()) && p.poolAddrEnd == old(p.poolAddrEnd)
    && p.poolPtrs == old(p.poolPtrs) && p.blkIx == old(p.blkIx)
  }

  /** Mem_PoolCreate in a run. */
  method ServeCreate(memory: Memory, pool: Pool, r: Request) returns (out: Answer, ghost e: Entry)
    requires memory.Valid() && pool !in memory.members && Fair(r, memory.heap) && r.Create?
    modifies memory`poolTbl, memory`segs, memory`members, memory.members`segNext, memory.members`segPrev,
             memory.members`poolNext, memory.members`poolPrev, memory.members`segAddrNextAvail,
             memory.members`segSizeRem, memory.members`extents, pool
    ensures memory.Valid() && memory.members == old(memory.members) + if out.Created? then {pool} else {}
    ensures forall p :: p in old(memory.segs) ==> p in memory.segs
    ensures forall p :: p in old(memory.members) ==> old(p.extents) <= p.extents && BlocksSame(p)
    ensures out == Denied || out == Created(pool)
    ensures out.Created? ==>
              && pool.Geo() == Geometry(pool.poolAddrStart, r.n, r.size, r.Align())
              && InOrder(pool, []) && fresh(pool.poolPtrs)
    ensures Booked(memory.segs, e) && e.exts == Granted(r, out)
    ensures e.owner in old(memory.members) ==> |old(e.owner.extents)| <= e.from
  {
    ghost var owner;
    var ok;
    ok, owner := CreateOwned(memory, pool, r);
    if !ok {
      return Denied, Entry(memory.heap, |memory.heap.extents|, []);
    }
    out := Created(pool);
    e := Entry(owner, |owner.extents| - r.n, Granted(r, out));
  }

  /** One request: what was booked before stays, what is given comes after it, and only the blocks
      of the pool it names change hands. */
  method Serve(memory: Memory, pools: seq<Pool>, r: Request, ghost s: Stock)
    returns (out: Answer, ghost e: Entry, ghost s': Stock)
    requires memory.Valid() && Fair(r, memory.heap) && s.Kept() && s.memory == memory && s.pools == pools
    modifies memory, memory.members, ArraysOf(pools)
    ensures memory.Valid() && forall p :: p in memory.members ==> p in old(memory.members) || fresh(p)
    ensures memory.heap.segAddr == old(memory.heap.segAddr) && memory.heap.segSizeTot == old(memory.heap.segSizeTot)
    ensures forall p :: p in old(memory.segs) ==> p in memory.segs
    ensures forall p :: p in old(memory.members) ==>
              p in memory.members && old(p.extents) <= p.extents && p.Geo() == old(p.Geo()) && p.poolPtrs == old(p.poolPtrs)
    ensures Matches(memory, r, out, e) && (e.owner in old(memory.members) ==> |old(e.owner.extents)| <= e.from)
    ensures out.Created? ==> fresh(out.pool) && fresh(out.pool.poolPtrs)
    ensures s'.Kept() && Moves(s, r, out, s')
    ensures forall a :: a in ArraysOf(s'.pools) ==> a in old(ArraysOf(pools)) || fresh(a)
  {
    if r.Alloc? {
      out, e, s' := ServeHeap(memory, pools, r, s);
    } else if r.Create? {
      out, e, s' := ServeNew(memory, pools, r, s);
    } else {
      out, s' := ServeHolder(memory, pools, r, s);
      e := Entry(memory.heap, |memory.heap.extents|, []);
    }
  }

  /** How a request and its answer change the pools and their logs; a pool with an exact check takes
      back just what is held. */
  ghost predicate Moves(s: Stock, r: Request, out: Answer, s': Stock)
    requires |s.logs| == |s.pools|
    reads s.pools
  {
    && s'.memory == s.memory
    && s'.pools == s.pools + (if out.Created? then [out.pool] else [])
    && (out.Event? <==> (r.Get? || r.Free?) && r.k < |s.pools|)
    && s'.logs == (if out.Created? then s.logs + [[]]
                   else if out.Event? then s.logs[r.k := s.logs[r.k] + [out.e]] else s.logs)
    && (r.Free? && r.k < |s.pools| && s.pools[r.k].Geo().ChecksExactly() ==>
          (out == Event(Returned(r.blk)) <==> r.blk in Held({}, s.logs[r.k])))
  }

  method ServeHeap(memory: Memory, pools: seq<Pool>, r: Request, ghost s: Stock)
    returns (out: Answer, ghost e: Entry, ghost s': Stock)
    requires memory.Valid() && Fair(r, memory.heap) && s.Kept() && s.memory == memory && s.pools == pools && r.Alloc?
    modifies memory.heap`segAddrNextAvail, memory.heap`segSizeRem, memory.heap`extents
    ensures memory.Valid() && s' == s && s.Kept() && Moves(s, r, out, s)
    ensures Matches(memory, r, out, e) && e.owner == memory.heap && |old(memory.heap.extents)| <= e.from
    ensures old(memory.heap.extents) <= memory.heap.extents && !out.Created?
    ensures ArraysOf(pools) == old(ArraysOf(pools))
  {
    out, e := ServeAlloc(memory, r);
    s.StaysKept();
    s' := s;
  }

  method ServeCreated(memory: Memory, pools: seq<Pool>, pool: Pool, r: Request, ghost s: Stock)
    returns (out: Answer, ghost e: Entry, ghost s': Stock)
    requires memory.Valid() && Fair(r, memory.heap) && s.Kept() && s.memory == memory && s.pools == pools && r.Create?
    requires pool !in memory.members
    modifies memory`poolTbl, memory`segs, memory`members, memory.members`segNext, memory.members`segPrev,
             memory.members`poolNext, memory.members`poolPrev, memory.members`segAddrNextAvail,
             memory.members`segSizeRem, memory.members`extents, pool
    ensures memory.Valid() && memory.members == old(memory.members) + if out.Created? then {pool} else {}
    ensures forall p :: p in old(memory.segs) ==> p in memory.segs
    ensures forall p :: p in old(memory.members) ==> old(p.extents) <= p.extents && BlocksSame(p)
    ensures Matches(memory, r, out, e) && (e.owner in old(memory.members) ==> |old(e.owner.extents)| <= e.from)
    ensures out == Denied || (out == Created(pool) && fresh(pool.poolPtrs))
    ensures s'.Kept() && Moves(s, r, out, s')
    ensures ArraysOf(s'.pools) == old(ArraysOf(pools)) + if out.Created? then Arrays(pool) else {}
    ensures memory.heap.segAddr == old(memory.heap.segAddr) && memory.heap.segSizeTot == old(memory.heap.segSizeTot)
  {
    out, e := ServeCreate(memory, pool, r);
    s.StaysKept();
    s' := s;
    if out.Created? {
      s.OneMorePool(pool);
      s' := Stock(memory, pools + [pool], s.logs + [[]]);
    }
  }

  method ServeNew(memory: Memory, pools: seq<Pool>, r: Request, ghost s: Stock)
    returns (out: Answer, ghost e: Entry, ghost s': Stock)
    requires memory.Valid() && Fair(r, memory.heap) && s.Kept() && s.memory == memory && s.pools == pools && r.Create?
    modifies memory, memory.members
    ensures memory.Valid() && forall p :: p in memory.members ==> p in old(memory.members) || fresh(p)
    ensures memory.heap.segAddr == old(memory.heap.segAddr) && memory.heap.segSizeTot == old(memory.heap.segSizeTot)
    ensures forall p :: p in old(memory.segs) ==> p in memory.segs
    ensures forall p :: p in old(memory.members) ==>
              p in memory.members && old(p.extents) <= p.extents && BlocksSame(p)
    ensures Matches(memory, r, out, e) && (e.owner in old(memory.members) ==> |old(e.owner.extents)| <= e.from)
    ensures out.Created? ==> fresh(out.pool) && fresh(out.pool.poolPtrs)
    ensures s'.Kept() && Moves(s, r, out, s')
    ensures forall a :: a in ArraysOf(s'.pools) ==> a in old(ArraysOf(pools)) || fresh(a)
  {
    var pool := new Pool();
    assert s.Kept() && ArraysOf(pools) == old(ArraysOf(pools));
    out, e, s' := ServeCreated(memory, pools, pool, r, s);
  }

  method ServeHolder(memory: Memory, pools: seq<Pool>, r: Request, ghost s: Stock) returns (out: Answer, ghost s': Stock)
    requires memory.Valid() && s.Kept() && s.memory == memory && s.pools == pools && (r.Get? || r.Free?)
    modifies if r.k < |pools| then Single(pools[r.k]) else {}, if r.k < |pools| then Arrays(pools[r.k]) else {}
    ensures memory.Valid() && s'.Kept() && Moves(s, r, out, s') && (out == Denied || out.Event?)
    ensures forall p :: p in memory.members ==> p.extents == old(p.extents) && p.Geo() == old(p.Geo()) && p.poolPtrs == old(p.poolPtrs)
    ensures forall p :: p in memory.members ==> p.segAddr == old(p.segAddr) && p.segSizeTot == old(p.segSizeTot)
    ensures forall a :: a in ArraysOf(pools) ==> a in old(ArraysOf(pools))
  {
    if r.k < |pools| {
      var e;
      e, s' := ServeUse(memory, pools, r, s);
      out := Event(e);
    } else {
      if r.Get? {
        var _, _ := PoolBlkGet(null, r.size);
      } else {
        var _ := PoolBlkFree(null, r.blk);
      }
      out, s' := Denied, s;
    }
  }

  // ----- Runs -----

  /** The pools created, in order. */
  function PoolsOf(outs: seq<Answer>): seq<Pool> {
    if outs == [] then []
    else
      var n := |outs| - 1;
      PoolsOf(outs[..n]) + if outs[n].Created? then [outs[n].pool] else []
  }

  /** What happened to the blocks of pool k. */
  function EventsOf(reqs: seq<Request>, outs: seq<Answer>, k: nat): seq<PoolEvent>
    requires |reqs| == |outs|
  {
    if reqs == [] then []
    else
      var n := |reqs| - 1;
      EventsOf(reqs[..n], outs[..n], k) + if reqs[n].Uses(k) && outs[n].Event? then [outs[n].e] else []
  }

  ghost predicate LogsAre(reqs: seq<Request>, outs: seq<Answer>, s: Stock)
    requires |reqs| == |outs|
  {
    && s.pools == PoolsOf(outs) && |s.logs| == |s.pools|
    && forall k: nat :: EventsOf(reqs, outs, k) == if k < |s.logs| then s.logs[k] else []
  }

  /** What one more request adds. */
  lemma LogsGrow(reqs: seq<Request>, outs: seq<Answer>, r: Request, out: Answer, k: nat)
    requires |reqs| == |outs|
    ensures PoolsOf([]) == [] && EventsOf([], [], k) == []
    ensures PoolsOf(outs + [out]) == PoolsOf(outs) + if out.Created? then [out.pool] else []
    ensures EventsOf(reqs + [r], outs + [out], k)
            == EventsOf(reqs, outs, k) + if out.Event? && (r.Get? || r.Free?) && r.k == k then [out.e] else []
  {
    var n := |reqs|;
    assert (reqs + [r])[..n] == reqs && (outs + [out])[..n] == outs;
  }

  lemma OneMoreAnswer(reqs: seq<Request>, outs: seq<Answer>, s: Stock, r: Request, out: Answer, s': Stock)
    requires |reqs| == |outs| && LogsAre(reqs, outs, s) && Moves(s, r, out, s')
    ensures LogsAre(reqs + [r], outs + [out], s')
  {
    var n := |reqs|;
    assert (reqs + [r])[..n] == reqs && (outs + [out])[..n] == outs;
    forall k: nat ensures EventsOf(reqs + [r], outs + [out], k) == if k < |s'.logs| then s'.logs[k] else [] {
      assert EventsOf(reqs + [r], outs + [out], k)
          == EventsOf(reqs, outs, k) + if r.Uses(k) && out.Event? then [out.e] else [];
    }
  }

  /** A block is in the hands of a caller: from the heap, or one of a pool with an exact check that
      is outstanding. */
  ghost predicate InHands(reqs: seq<Request>, outs: seq<Answer>, e: Extent)
    requires |reqs| == |outs|
    reads PoolsOf(outs), ArraysOf(PoolsOf(outs))
  {
    || (exists i :: 0 <= i < |outs| && FromHeap(reqs[i], outs[i], e))
    || (exists k :: 0 <= k < |PoolsOf(outs)| && OutOf(PoolsOf(outs)[k], e))
  }

  predicate FromHeap(r: Request, out: Answer, e: Extent) {
    out.Block? && r.Alloc? && r.Sized() && e == Extent(out.addr, r.size, r.Align())
  }

  ghost predicate OutOf(pool: Pool, e: Extent)
    reads pool, pool.poolPtrs
  {
    pool.PoolOk() && e.addr in pool.Outstanding() && e.size == pool.blkSize && e.align == pool.blkAlign
  }

  /** Each heap block that does not wrap around is, and so is each block of a pool that is
      outstanding. */
  lemma HandsHold(reqs: seq<Request>, outs: seq<Answer>, i: nat, k: nat, a: nat)
    requires |reqs| == |outs|
    ensures i < |outs| && reqs[i].Alloc? && outs[i].Block? && reqs[i].size + Max(reqs[i].alignment, 1) <= 0x1_0000_0000 ==>
              InHands(reqs, outs, Extent(outs[i].addr, reqs[i].size, Max(reqs[i].alignment, 1)))
    ensures k < |PoolsOf(outs)| && PoolsOf(outs)[k].PoolOk() && a in PoolsOf(outs)[k].Outstanding() ==>
              InHands(reqs, outs, Extent(a, PoolsOf(outs)[k].blkSize, PoolsOf(outs)[k].blkAlign))
  {
    if i < |outs| && reqs[i].Alloc? && outs[i].Block? && reqs[i].Sized() {
      assert FromHeap(reqs[i], outs[i], Extent(outs[i].addr, reqs[i].size, reqs[i].Align()));
    }
    if k < |PoolsOf(outs)| && PoolsOf(outs)[k].PoolOk() && a in PoolsOf(outs)[k].Outstanding() {
      assert OutOf(PoolsOf(outs)[k], Extent(a, PoolsOf(outs)[k].blkSize, PoolsOf(outs)[k].blkAlign));
    }
  }

  lemma {:induction false} PoolWasCreated(outs: seq<Answer>, k: nat) returns (i: nat)
    requires k < |PoolsOf(outs)|
    ensures i < |outs| && outs[i] == Created(PoolsOf(outs)[k])
  {
    var n := |outs| - 1;
    if k < |PoolsOf(outs[..n])| {
      i := PoolWasCreated(outs[..n], k);
    } else {
      i := n;
    }
  }

  /** A block in hands has been granted. */
  lemma HandsAreGranted(h: History, e: Extent) returns (i: nat, k: nat)
    requires h.Kept()
    requires InHands(h.reqs, h.outs, e)
    ensures i < |h.outs| && k < |Granted(h.reqs[i], h.outs[i])| && Granted(h.reqs[i], h.outs[i])[k] == e
  {
    if j :| 0 <= j < |h.outs| && FromHeap(h.reqs[j], h.outs[j], e) {
      i, k := j, 0;
    } else {
      var l :| 0 <= l < |PoolsOf(h.outs)| && OutOf(PoolsOf(h.outs)[l], e);
      i := PoolWasCreated(h.outs, l);
      assert Matches(h.memory, h.reqs[i], h.outs[i], h.book[i]);
      var pool := PoolsOf(h.outs)[l];
      assert pool.Geo().IsBlock(e.addr);
      k :| k < pool.Geo().n && e.addr == pool.Geo().Block(k);
    }
  }

  /** Free requests so far: a pool with an exact check has taken back just what was held. */
  ghost predicate FreesExact(reqs: seq<Request>, outs: seq<Answer>, pools: seq<Pool>)
    requires |reqs| == |outs|
    reads pools
  {
    forall i :: 0 <= i < |reqs| && reqs[i].Free? ==> FreeExact(reqs, outs, pools, i)
  }

  ghost predicate FreeExact(reqs: seq<Request>, outs: seq<Answer>, pools: seq<Pool>, i: nat)
    requires i < |reqs| == |outs| && reqs[i].Free?
    reads pools
  {
    var k, blk := reqs[i].k, reqs[i].blk;
    k < |pools| && pools[k].Geo().ChecksExactly() ==>
      (outs[i] == Event(Returned(blk)) <==> blk in Held({}, EventsOf(reqs[..i], outs[..i], k)))
  }

  /** A pool without events has had none before. */
  lemma {:induction false} NoEvents(reqs: seq<Request>, outs: seq<Answer>, k: nat, i: nat)
    requires i < |reqs| == |outs| && EventsOf(reqs, outs, k) == []
    ensures EventsOf(reqs[..i], outs[..i], k) == [] && !(reqs[i].Uses(k) && outs[i].Event?)
  {
    var n := |reqs| - 1;
    if i < n {
      assert reqs[..n][..i] == reqs[..i] && outs[..n][..i] == outs[..i];
      NoEvents(reqs[..n], outs[..n], k, i);
    }
  }

  /** One more request, when the addresses of the pools have not changed. */
  lemma OneMoreFree(reqs: seq<Request>, outs: seq<Answer>, s: Stock, r: Request, out: Answer, s': Stock)
    requires |reqs| == |outs| && LogsAre(reqs, outs, s) && Moves(s, r, out, s') && FreesExact(reqs, outs, s.pools)
    ensures FreesExact(reqs + [r], outs + [out], s'.pools)
  {
    var n, reqs', outs' := |reqs|, reqs + [r], outs + [out];
    forall i | 0 <= i < n + 1 && reqs'[i].Free? ensures FreeExact(reqs', outs', s'.pools, i) {
      if i < n {
        EarlierFree(reqs, outs, s, r, out, s', i);
      } else {
        LastFree(reqs, outs, s, r, out, s');
      }
    }
  }

  lemma EarlierFree(reqs: seq<Request>, outs: seq<Answer>, s: Stock, r: Request, out: Answer, s': Stock, i: nat)
    requires |reqs| == |outs| && LogsAre(reqs, outs, s) && Moves(s, r, out, s') && FreesExact(reqs, outs, s.pools)
    requires i < |reqs| && reqs[i].Free?
    ensures FreeExact(reqs + [r], outs + [out], s'.pools, i)
  {
    var reqs', outs', k := reqs + [r], outs + [out], reqs[i].k;
    assert reqs'[..i] == reqs[..i] && outs'[..i] == outs[..i] && reqs'[i] == reqs[i] && outs'[i] == outs[i];
    if k < |s.pools| {
      assert s'.pools[k] == s.pools[k] && FreeExact(reqs, outs, s.pools, i);
    } else {
      assert EventsOf(reqs, outs, k) == [];
      NoEvents(reqs, outs, k, i);
      assert Held({}, []) == {};
    }
  }

  lemma LastFree(reqs: seq<Request>, outs: seq<Answer>, s: Stock, r: Request, out: Answer, s': Stock)
    requires |reqs| == |outs| && LogsAre(reqs, outs, s) && Moves(s, r, out, s') && r.Free?
    ensures FreeExact(reqs + [r], outs + [out], s'.pools, |reqs|)
  {
    var n, reqs', outs' := |reqs|, reqs + [r], outs + [out];
    assert reqs'[..n] == reqs && outs'[..n] == outs;
  }

  /** What a run has done so far. */
  ghost predicate SoFar(h: History, s: Stock)
    reads h.memory, h.memory.segs, h.memory.members, s.memory, s.pools, ArraysOf(s.pools)
  {
    && h.memory == s.memory && h.Kept() && s.Kept() && |h.reqs| == |h.outs|
    && LogsAre(h.reqs, h.outs, s) && FreesExact(h.reqs, h.outs, s.pools)
  }

  method ServeNext(memory: Memory, pools: seq<Pool>, outs: seq<Answer>, ghost h: History, ghost s: Stock, r: Request)
    returns (pools': seq<Pool>, outs': seq<Answer>, ghost h': History, ghost s': Stock)
    requires memory.Valid() && Fair(r, memory.heap) && SoFar(h, s)
    requires h.memory == memory && h.outs == outs && s.pools == pools
    modifies memory, memory.members, ArraysOf(pools)
    ensures memory.Valid() && forall p :: p in memory.members ==> p in old(memory.members) || fresh(p)
    ensures memory.heap.segAddr == old(memory.heap.segAddr) && memory.heap.segSizeTot == old(memory.heap.segSizeTot)
    ensures forall p :: p in old(memory.segs) ==> p in memory.segs && old(p.extents) <= p.extents
    ensures SoFar(h', s') && h' == History(memory, h.reqs + [r], outs', h'.book) && |outs'| == |outs| + 1
    ensures s'.pools == pools' && forall a :: a in ArraysOf(pools') ==> a in old(ArraysOf(pools)) || fresh(a)
  {
    var out;
    ghost var e;
    out, e, s' := Serve(memory, pools, r, s);
    h.StaysKept();
    outs' := outs + [out];
    pools' := if out.Created? then pools + [out.pool] else pools;
    h' := History(memory, h.reqs + [r], outs', h.book + [e]);
    h.OneMoreEntry(r, out, e);
    h.FreesStay(pools);
    OneMoreAnswer(h.reqs, outs, s, r, out, s');
    OneMoreFree(h.reqs, outs, s, r, out, s');
  }

  method ServeAll(memory: Memory, reqs: seq<Request>) returns (outs: seq<Answer>, ghost h: History, ghost s: Stock)
    requires memory.Valid() && forall r :: r in reqs ==> Fair(r, memory.heap)
    modifies memory, memory.members
    ensures memory.Valid() && |outs| == |reqs| && SoFar(h, s) && h == History(memory, reqs, outs, h.book)
    ensures forall p :: p in old(memory.segs) ==> p in memory.segs && old(p.extents) <= p.extents
  {
    outs := [];
    var pools := [];
    h, s := History(memory, [], [], []), Stock(memory, [], []);
    while |outs| < |reqs|
      invariant memory.Valid() && |outs| <= |reqs| && SoFar(h, s)
      invariant h == History(memory, reqs[..|outs|], outs, h.book) && s.memory == memory && s.pools == pools
      invariant forall p :: p in memory.members ==> p in old(memory.members) || fresh(p)
      invariant forall a :: a in ArraysOf(pools) ==> fresh(a)
      invariant forall p :: p in old(memory.segs) ==> p in memory.segs && old(p.extents) <= p.extents
      invariant forall r :: r in reqs ==> Fair(r, memory.heap)
      decreases |reqs| - |outs|
    {
      OneMore(reqs, |outs|);
      pools, outs, h, s := ServeNext(memory, pools, outs, h, s, reqs[|outs|]);
    }
    OneMore(reqs, |reqs|);
  }

  lemma OneMore<T>(s: seq<T>, n: nat)
    requires n <= |s|
    ensures if n < |s| then s[..n + 1] == s[..n] + [s[n]] else s[..n] == s
  {
  }

  /** Two different blocks in the hands of callers do not overlap. */
  lemma HandsApart(h: History, e: Extent, f: Extent)
    requires h.memory.Valid() && h.Kept()
    requires InHands(h.reqs, h.outs, e) && InHands(h.reqs, h.outs, f) && e != f
    ensures Apart(e, f)
  {
    var i, k := HandsAreGranted(h, e);
    var j, l := HandsAreGranted(h, f);
    if i <= j {
      h.BlocksApart(i, k, j, l);
    } else {
      h.BlocksApart(j, l, i, k);
    }
  }

  /** What a run keeps, in terms of addresses ... */
  lemma PlacesMean(segs: seq<Pool>, d: Extent, e: Extent)
    ensures Aligned(e) ==> e.align >= 1 && e.addr % e.align == 0
    ensures InSegment(segs, e) ==>
              exists l :: 0 <= l < |segs| && segs[l].segAddr <= e.addr && e.addr + e.size <= segs[l].segAddr + segs[l].segSizeTot
    ensures Apart(d, e) ==> d.addr + d.size <= e.addr || e.addr + e.size <= d.addr
  {
  }

  /** ... and of what has happened to a pool with an exact check: what is outstanding was got and not
      returned since, nothing was got that was held, and just what was held has been taken back. */
  lemma InOrderMeans(p: Pool, log: seq<PoolEvent>, i: nat, a: nat)
    requires InOrder(p, log) && p.Geo().ChecksExactly()
    ensures p.Usable() && p.PoolOk()
    ensures a in p.Outstanding() <==>
              exists j :: 0 <= j < |log| && log[j] == Got(a) && forall k :: j < k < |log| ==> log[k] != Returned(a)
    ensures i < |log| && log[i].Got? ==> log[i].blk !in Held({}, log[..i])
    ensures i < |log| && log[i].Returned? ==> log[i].blk in Held({}, log[..i])
  {
    HeldMeans({}, log, a);
  }

  lemma FreesExactMeans(reqs: seq<Request>, outs: seq<Answer>, pools: seq<Pool>, i: nat)
    requires |reqs| == |outs| && FreesExact(reqs, outs, pools) && i < |reqs| && reqs[i].Free?
    requires reqs[i].k < |pools| && pools[reqs[i].k].Geo().ChecksExactly()
    ensures outs[i] == Event(Returned(reqs[i].blk)) <==> reqs[i].blk in Held({}, EventsOf(reqs[..i], outs[..i], reqs[i].k))
  {
    assert FreeExact(reqs, outs, pools, i);
  }

  /** After any run the table is in order and segments have only been added to.  The blocks it
      granted, from the heap or in pools, are aligned, lie in segments and do not overlap, so no two
      blocks in the hands of callers do; and of every pool with an exact check just those blocks are
      outstanding that were got and not freed since, none of them twice. */
  method Run(memory: Memory, reqs: seq<Request>) returns (outs: seq<Answer>)
    requires memory.Valid() && forall r :: r in reqs ==> Fair(r, memory.heap)
    modifies memory, memory.members
    ensures memory.Valid() && |outs| == |reqs|
    ensures forall p :: p in old(memory.segs) ==> p in memory.segs && old(p.extents) <= p.extents
    ensures forall i :: 0 <= i < |outs| && outs[i].Created? ==>
              && reqs[i].Create? && outs[i].pool in memory.members
              && outs[i].pool.Geo() == Geometry(outs[i].pool.poolAddrStart, reqs[i].n, reqs[i].size, reqs[i].Align())
    ensures forall i, k :: 0 <= i < |outs| && 0 <= k < |Granted(reqs[i], outs[i])| ==>
              Aligned(Granted(reqs[i], outs[i])[k]) && InSegment(memory.segs, Granted(reqs[i], outs[i])[k])
    ensures forall i, j, k, l ::
              0 <= i <= j < |outs| && 0 <= k < |Granted(reqs[i], outs[i])| && 0 <= l < |Granted(reqs[j], outs[j])|
              && (i == j ==> k != l) ==>
                Apart(Granted(reqs[i], outs[i])[k], Granted(reqs[j], outs[j])[l])
    ensures forall k :: 0 <= k < |PoolsOf(outs)| ==> InOrder(PoolsOf(outs)[k], EventsOf(reqs, outs, k))
    ensures FreesExact(reqs, outs, PoolsOf(outs))
    ensures forall e, f :: InHands(reqs, outs, e) && InHands(reqs, outs, f) && e != f ==> Apart(e, f)
  {
    ghost var h, s;
    outs, h, s := ServeAll(memory, reqs);
    forall i, k | 0 <= i < |outs| && 0 <= k < |Granted(reqs[i], outs[i])|
      ensures Aligned(Granted(reqs[i], outs[i])[k]) && InSegment(memory.segs, Granted(reqs[i], outs[i])[k])
    {
      h.BlocksInside(i, k);
    }
    forall i, j, k, l | 0 <= i <= j < |outs| && 0 <= k < |Granted(reqs[i], outs[i])| && 0 <= l < |Granted(reqs[j], outs[j])|
                        && (i == j ==> k != l)
      ensures Apart(Granted(reqs[i], outs[i])[k], Granted(reqs[j], outs[j])[l])
    {
      h.BlocksApart(i, k, j, l);
    }
    assert forall k :: 0 <= k < |s.pools| ==> InOrder(s.pools[k], s.logs[k]);
    forall e, f | InHands(reqs, outs, e) && InHands(reqs, outs, f) && e != f ensures Apart(e, f) {
      HandsApart(h, e, f);
    }
  }
}
