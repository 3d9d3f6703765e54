# Verification of the XGM30 firmware's state and arithmetic

A Dafny 4.11 model of seven components of the XGM30 firmware, with proofs of what they promise.
The hardware is replaced by small explicit step models. Everything here is proved, nothing was
executed. `dafny verify dfyconfig.toml` checks the whole project.

| files | component |
|---|---|
| `Flash`, `PageLog`, `PagePair`, `Eeprom`, `EepromRuns` | EEPROM emulation in two flash sectors (`eeprom.c`) |
| `MemSizes`, `MemPool`, `MemTable`, `MemRuns`, `MemOps` | memory segments, pools and memory operations (`lib_mem.c`) |
| `Octets`, `SnmpOid`, `Ber` | object identifiers and the BER codec of the SNMP agent (`snmp_SNMP.c`) |
| `Circle`, `Line`, `Polygon`, `Fill` | raster algorithms of the LCD driver (`stm322xg_eval_lcd.c`) |
| `Lcg` | linear congruential generator (`lib_math.c`) |
| `I2cEeprom` | page-wise writes to a serial EEPROM (`stm322xg_eval_i2c_ee.c`) |
| `Timestamp` | 64-bit timestamp from a wrapping timer (`cpu_core.c`) |
| `Arith`, `Words`, `Wrappers`, `Pixels` | facts about products and remainders, machine words, shared datatypes |

**EEPROM emulation.** A sector is a log: slot 0 is the page header, every other slot a data
halfword and then a virtual-address halfword. Each program or erase is one atomic step, and a
`Supply` says after which step power fails; a failed step reports a flash error, and the store is
used again after EE_Initialize. `Durable` maps whatever flash content a cut can leave to the
variables it stands for. A write changes `Durable` at exactly one step. Recovery copies all
variables but the one in slot 1 again, and a recovery that is cut uses up slots of the receiving
page as well: `Budget(c, j)` is enough room for c other variables and j recoveries that are cut.
With none that is c < 16384. `BudgetIsNeeded` shows that no less is enough. Between marking the
new page valid and erasing the old one EE_Init leaves two valid pages for one step; a cut there
makes the next EE_Init format both. Formatting starts with page 0, so a cut after its first step
brings page 1 back: `SurvivesExactly` states for a whole list of cut recoveries when nothing is lost.

**Memory.** Segments are a doubly linked table with ascending, disjoint extents; pools are free
stacks. The validity check of block addresses subtracts without a sign, and so wraps in the gap
before the first block: it is exact for alignments that are powers of two, `ChecksExactly` is the
exact condition for others, and `OddAlignmentSlips` is an address it lets through. Sizes wrap as
well. A heap request whose size and gap reach 2^32 yields a block outside the free part
(`HeapAllocSlips`). A pool whose sizes do may pass the size checks and then fail, and what has been
allocated by then is lost: `OutcomeExactly` and `LostOnlyIfWrapped` say when, `CreateLeaks` is a
request that does. `MemRuns.Run` composes everything: as long as the
address checks are exact, no memory is ever in two hands.

**SNMP.** snmpVCompare decides at the first octet that differs, reading the number that starts
there. An octet 0x80 in the middle of a longer sub-identifier can mislead it. `Misread` is the exact
condition on two identifiers, and an identifier is ordered correctly against all clean ones if and
only if it has no such octet itself.

**Raster.** POLY_X reads the Y of a point and POLY_Y its X, so rows and columns are exchanged;
the model follows the macros. With radius 0 the unsigned ordinate of the circle passes below zero
and a second round draws pixels beside the centre, so the circle is exact if and only if the radius
is not 0. The loop counter of a line has 16 bits, so a line with a difference of 32767 never ends,
and its numerator overflows for some steep lines. LCD_FillPolyLine sets the text colour to the back
colour before it draws anything, so polygons have no visible edge and later text is lost; its box
takes the first corner the other way round, so rows can be missing (`AllRowsExactly`); and its nodes
are kept in 16 bits, so negative ones move to the far right.

**Arithmetic.** Where a width matters it is written out (`% WORD32`, `Signed16`, `Signed32`). The
shift by 32 or more bits in snmpReadInt, which C leaves undefined, contributes nothing here.

## Model

| member | source | states |
|---|---|---|
| Flash.ProgramsExactly | XGM30/SOFTWARE/APP/Eeprom/eeprom.c:669-677 | On a blank halfword a program stores any value exactly, and any header can be cleared to VALID_PAGE. |
| Flash.OnlyClears | XGM30/SOFTWARE/APP/Eeprom/eeprom.c:669-677 | Bit by bit: after a program a bit is set if and only if it was set before and, in the halfword programmed, is set in the data. |
| Flash.BitMeans | XGM30/SOFTWARE/APP/Eeprom/eeprom.c:669-677 | What a bit is, by division. |
| PageLog.FirstBlankIsFill | XGM30/SOFTWARE/APP/Eeprom/eeprom.c:75-92 | Because used slots form a prefix, the upward search for an erased slot stops at the fill level. |
| PageLog.LookupMeans | XGM30/SOFTWARE/APP/Eeprom/eeprom.c:375-397 | The backward scan finds the last slot that carries the address, and fails only if none does. |
| PageLog.KeysMean | XGM30/SOFTWARE/APP/Eeprom/eeprom.c:375-397 | By halfword address: a variable is held if and only if some odd address from 3 on has its virtual address. |
| PageLog.LastCounts | XGM30/SOFTWARE/APP/Eeprom/eeprom.c:375-397 | Its data is the halfword before the last such address. |
| PageLog.PutLatest | XGM30/SOFTWARE/APP/Eeprom/eeprom.c:663-681 | Writing the first blank slot makes that variable the newest and changes no other. |
| PageLog.PutFill | XGM30/SOFTWARE/APP/Eeprom/eeprom.c:663-681 | Both halves of a slot write keep the log shape; half a write wastes the slot, unless its data is 0xFFFF. |
| PageLog.SizeAfterWrite | XGM30/SOFTWARE/APP/Eeprom/eeprom.c:754-773 | The count the capacity argument uses is the number of variables held, with the one written counted once. |
| PageLog.FullMeans | XGM30/SOFTWARE/APP/Eeprom/eeprom.c:75-92 | A page is full if and only if no slot of it is erased, said of its halfwords. |
| PagePair.CommitSlot | XGM30/SOFTWARE/APP/Eeprom/eeprom.c:746-752 | Slot 1 of the receiving page takes the new value; only the second halfword of that slot commits it. |
| PagePair.DurableMeans | XGM30/SOFTWARE/APP/Eeprom/eeprom.c:105-308 | What the flash stands for, by the first halfword of each page: 0x0000 valid, 0xEEEE receiving, 0xFFFF erased; beside a valid page only slot 1 of the receiving one counts. |
| PagePair.CopySlot | XGM30/SOFTWARE/APP/Eeprom/eeprom.c:754-773 | Copying a variable, completely or only its first halfword, does not change what the two pages stand for. |
| PagePair.AllCopied | XGM30/SOFTWARE/APP/Eeprom/eeprom.c:754-781 | When every old variable has a copy, the new page alone stands for the pair. |
| PagePair.CutLeavesRoom | XGM30/SOFTWARE/APP/Eeprom/eeprom.c:164-187 | A recovery that is cut uses up exactly the slots CutCost states; with room for j + 1 more recoveries before, there is room for j after it. |
| PagePair.RecoveryMeans | XGM30/SOFTWARE/APP/Eeprom/eeprom.c:105-308 | The flash steps of a recovery by the first halfword of each page, two for each variable still to copy and two more, and that the fatal cut is the one before the last of them. |
| PagePair.LeftoverFits | XGM30/SOFTWARE/APP/Eeprom/eeprom.c:704-793 | Whatever moment a write to a store with c other variables is cut at, recovery may then be cut j times if Budget(c, j) holds. |
| PagePair.PlainBudget | XGM30/SOFTWARE/APP/Eeprom/eeprom.c:704-793 | Without further cuts the budget holds if and only if c < 16384. |
| PagePair.CostsAre | XGM30/SOFTWARE/APP/Eeprom/eeprom.c:638-793 | In flash steps: 2 for an append, 2 for each other variable and 5 more for a transfer; the second or the third commits. |
| Eeprom.OpenSteps | XGM30/SOFTWARE/APP/Eeprom/eeprom.c:736-752 | After each of the three steps that open a transfer: the old variables before the third, the new value after it, and what is left for recovery to copy. |
| Eeprom.AppendSteps | XGM30/SOFTWARE/APP/Eeprom/eeprom.c:638-691 | After each of the two steps of an append the page is in order; the second step commits. |
| Eeprom.SlotStepsMean | XGM30/SOFTWARE/APP/Eeprom/eeprom.c:663-681 | The two halfwords a slot write programs, the data first and then the virtual address. |
| Eeprom.CopyStep | XGM30/SOFTWARE/APP/Eeprom/eeprom.c:759-771 | Every step of copying a live variable keeps a moving pair sound and its meaning unchanged. |
| Eeprom.ProgressCopies | XGM30/SOFTWARE/APP/Eeprom/eeprom.c:255-278 | One round of a copy loop takes one slot and two flash steps per live variable. |
| Eeprom.FindValidPage | XGM30/SOFTWARE/APP/Eeprom/eeprom.c:566-626 | No page is found if and only if none is marked valid; with one in use it is that one, and during a transfer the receiving page for writing and the valid one for reading. |
| Eeprom.Store.ReadyMeans | XGM30/SOFTWARE/APP/Eeprom/eeprom.c:105-308 | What a ready store looks like in flash: one page begins with 0x0000, every halfword of the other is 0xFFFF, and the write address is the first unused slot. |
| Eeprom.Store.InitCurrWrAddress | XGM30/SOFTWARE/APP/Eeprom/eeprom.c:51-96 | The write address is the first erased slot of the page for writing; PAGE_FULL exactly if there is none. |
| Eeprom.Store.ReadVariable | XGM30/SOFTWARE/APP/Eeprom/eeprom.c:338-401 | Reads the last value written, or status 1 if the variable was never written. |
| Eeprom.Store.ReadVariableByte | XGM30/SOFTWARE/APP/Eeprom/eeprom.c:403-472 | The same answer in two octets, stored only if found and if the width is not 0: the first is the data modulo 0x100, the second the data divided by 0x100. |
| Eeprom.Store.VerifyPageFullWriteVariable | XGM30/SOFTWARE/APP/Eeprom/eeprom.c:638-691 | Exact outcome for every page state and for a cut after every flash step. |
| Eeprom.Store.CopyPending | XGM30/SOFTWARE/APP/Eeprom/eeprom.c:164-187 | The copy loop of recovery completes exactly if slots and power suffice, never changes what the pair stands for, and states the slots a cut has cost. |
| Eeprom.Store.CompleteTransfer | XGM30/SOFTWARE/APP/Eeprom/eeprom.c:253-293 | Recovery of a half-received page; only a cut between marking valid and erasing leaves two valid pages. |
| Eeprom.Store.Format | XGM30/SOFTWARE/APP/Eeprom/eeprom.c:528-555 | Erases page 0, marks it valid, erases page 1: the pages after each of the three steps, and after all of them no variables. |
| Eeprom.Store.Init | XGM30/SOFTWARE/APP/Eeprom/eeprom.c:105-308 | EE_Init completes if and only if the receiving page has room and power lasts; interrupted, it loses nothing except in the one window between marking valid and erasing, and states what page 1 holds then, the slots another cut costs, and every cut of formatting two valid pages. |
| Eeprom.Store.Initialize | XGM30/SOFTWARE/APP/Eeprom/eeprom.c:317-325 | Restores the store with exactly the durable variables; a cut in that one window leaves two valid pages, and a cut while those are formatted the pages after exactly so many steps. |
| Eeprom.Store.PageTransfer | XGM30/SOFTWARE/APP/Eeprom/eeprom.c:704-793 | Never PAGE_FULL; 2c + 5 steps for c other live variables, each held exactly once afterwards, old page erased, new one valid; what a cut leaves to recover, exactly so for the two worst cuts. |
| Eeprom.Store.WriteVariable | XGM30/SOFTWARE/APP/Eeprom/eeprom.c:484-500 | Crash atomicity: the write takes effect at one flash step; cut before it the variables are as they were, cut after it the new value stands. |
| Eeprom.Store.WriteVariableByte | XGM30/SOFTWARE/APP/Eeprom/eeprom.c:502-520 | The same for a value given as two octets: once the write has committed, the first octet is the data modulo 0x100 and the second the data divided by 0x100. |
| EepromRuns.Run | XGM30/SOFTWARE/APP/Eeprom/eeprom.c:484-500 | Over any history of writes, each completed or cut anywhere and followed by recoveries cut anywhere: the store is ready after each, a write takes effect completely or not at all, certainly if its power lasts for three steps and not if it lasts for one, and the variables are what the writes that took effect and the fatal cuts make of them. Writes with the power to be completed need no room for recovery. |
| EepromRuns.Perform | XGM30/SOFTWARE/APP/Eeprom/eeprom.c:484-500 | One write, completed or cut anywhere, and recoveries cut anywhere: it takes effect if and only if its power lasts for the commit step, and the variables afterwards are what Survivors makes of them. |
| EepromRuns.Recover | XGM30/SOFTWARE/APP/Eeprom/eeprom.c:105-325 | Any number of recoveries, each cut anywhere, in a page with room for them, going on after a fatal cut: what they leave, that at most one is fatal, and that there is room for one more. |
| EepromRuns.BackExactly | XGM30/SOFTWARE/APP/Eeprom/eeprom.c:528-555 | Of two valid pages page 1 comes back if and only if the first recovery that is not cut after 0 or 2 steps is cut after 1. |
| EepromRuns.SurvivesExactly | XGM30/SOFTWARE/APP/Eeprom/eeprom.c:105-325 | Nothing is lost by the whole list of cut recoveries if and only if none is fatal, or page 1 comes back later and held the same variables, as it does when it was the receiving page. |
| EepromRuns.Exhaust | XGM30/SOFTWARE/APP/Eeprom/eeprom.c:164-187 | Recoveries that are each cut when all is copied: room is left for one more if and only if there was room for all of them. |
| EepromRuns.BudgetIsNeeded | XGM30/SOFTWARE/APP/Eeprom/eeprom.c:704-793 | With a full page, if Budget does not hold, one cut of the write and at most j cut recoveries, none of them fatal, leave no room. |
| EepromRuns.LastWriteWins | XGM30/SOFTWARE/APP/Eeprom/eeprom.c:338-401 | After a history a variable has the data of the last write that took effect, if no recovery since was cut in the fatal window. |
| EepromRuns.NeverWritten | XGM30/SOFTWARE/APP/Eeprom/eeprom.c:338-401 | A variable no write touched is as it was, and missing if it was missing, if no recovery was cut in the fatal window. |
| Lcg.Generator.Rand | XGM30/SOFTWARE/uC-LIB/lib_math.c:217-231 | Math_Rand returns and stores (1103515245 * seed + 12345) modulo 2^31. |
| Lcg.Generator.RandMany | XGM30/SOFTWARE/uC-LIB/lib_math.c:217-231 | n calls return the first n iterates. |
| Lcg.RandSeedMeans | XGM30/SOFTWARE/uC-LIB/lib_math.c:275-283 | Wrapping at 2^32 on the way does not change the result modulo 2^31. |
| Lcg.NextIsExact | XGM30/SOFTWARE/uC-LIB/lib_math.c:275-283 | In numerals: (1103515245 * seed + 12345) modulo 0x80000000, for any 32-bit seed. |
| Lcg.IterateIsExact | XGM30/SOFTWARE/uC-LIB/lib_math.c:275-283 | The same of each step of the iteration. |
| Lcg.GeometricDivides | XGM30/SOFTWARE/uC-LIB/lib_math.c:275-283 | For a multiplier that is 1 modulo 4, 2 divides 1 + a + ... + a^(n-1) exactly as often as it divides n. |
| Lcg.LowBitsPeriod | XGM30/SOFTWARE/uC-LIB/lib_math.h:160-164 | The low k bits have period exactly 2^k, from any seed. |
| Lcg.Period | XGM30/SOFTWARE/uC-LIB/lib_math.h:160-164 | The generator is back at its seed after n calls if and only if 2^31 divides n. |
| Lcg.FullPeriod | XGM30/SOFTWARE/uC-LIB/lib_math.c:275-283 | From any state each of the 2^31 values comes up exactly once in 2^31 calls. |
| MemSizes.TotSizeIsConsumed | XGM30/SOFTWARE/uC-LIB/lib_mem.c:1543-1571 | The closed form is what n successive allocations consume. |
| MemSizes.PoolSegCalcTotSize | XGM30/SOFTWARE/uC-LIB/lib_mem.c:1543-1571 | The 32-bit result is exact if and only if the consumption fits in 32 bits. |
| MemSizes.BlocksMean | XGM30/SOFTWARE/uC-LIB/lib_mem.c:1071-1121 | The first block of a pool begins at the first aligned address from its start on, the next one at the first behind the one before. |
| MemPool.Geometry.ValidAddrExactly | XGM30/SOFTWARE/uC-LIB/lib_mem.c:1393-1440 | Which addresses the check accepts: the blocks, and at most one address in the leading gap, where the unsigned difference wraps. |
| MemPool.Geometry.ChecksExactlyMeans | XGM30/SOFTWARE/uC-LIB/lib_mem.c:1393-1440 | The exact condition on start, block size and alignment for the check to accept just the blocks. |
| MemPool.Geometry.PowerOfTwoIsExact | XGM30/SOFTWARE/uC-LIB/lib_mem.c:1393-1440 | Every alignment that divides 2^32 meets it. |
| MemPool.OddAlignmentSlips | XGM30/SOFTWARE/uC-LIB/lib_mem.c:1393-1440 | An alignment of 3 that does not: in a pool at 0x20000000 that address itself, one octet before the first block, passes. |
| MemPool.Conservation | XGM30/SOFTWARE/uC-LIB/lib_mem.c:1204-1356 | Free and outstanding blocks partition the blocks; the stack height counts the free ones. |
| MemPool.Pool.IsValidAddr | XGM30/SOFTWARE/uC-LIB/lib_mem.c:1393-1440 | The check as the source makes it, in 32 bits: it accepts exactly the block addresses if the check is exact. |
| MemPool.Pool.BlkGet | XGM30/SOFTWARE/uC-LIB/lib_mem.c:1204-1256 | Hands out a block that was not outstanding; POOL_EMPTY if and only if all are. |
| MemPool.Pool.BlkFree | XGM30/SOFTWARE/uC-LIB/lib_mem.c:1293-1356 | Any address may be offered, and the error is exact: the pool is full, or the check refuses the address, or it is on the stack already; with an exact check it is accepted exactly if it is an outstanding block, and POOL_FULL means none is. |
| MemPool.Pool.OutstandingMeans | XGM30/SOFTWARE/uC-LIB/lib_mem.c:1204-1356 | Outstanding are the blocks that the free stack does not hold. |
| MemPool.FreeSlips | XGM30/SOFTWARE/uC-LIB/lib_mem.c:1293-1356 | Offered to such a pool, that address is accepted and lies on top of the free stack, to be handed out next. |
| MemPool.PoolBlkGet | XGM30/SOFTWARE/uC-LIB/lib_mem.c:1204-1256 | Null pointers and structures that are no pool; otherwise the block on top of the stack, which was not outstanding, or the exact error. |
| MemPool.PoolBlkFree | XGM30/SOFTWARE/uC-LIB/lib_mem.c:1293-1356 | The same for free, with null addresses and the exact error of every refusal: with an exact check accepted exactly if the block is outstanding. |
| MemPool.Serve | XGM30/SOFTWARE/uC-LIB/lib_mem.c:1204-1356 | Over every sequence of gets and frees with any arguments no block is handed to two holders, and a free is accepted if and only if the block is held. |
| MemPool.HeldMeans | XGM30/SOFTWARE/uC-LIB/lib_mem.c:1204-1356 | A block is held if and only if it was got and not returned since. |
| MemTable.PoolSegAlloc | XGM30/SOFTWARE/uC-LIB/lib_mem.c:1606-1645 | Exact result of one allocation from a segment, which stays in order, for any 32-bit size and alignment; where size and gap wrap around, the exact address, outside the free part. |
| MemTable.AllocBlocks | XGM30/SOFTWARE/uC-LIB/lib_mem.c:1071-1121 | None of the n allocations fails if and only if what they consume fits; otherwise the blocks that do are taken. |
| MemTable.Memory.constructor | XGM30/SOFTWARE/uC-LIB/lib_mem.c:161-194 | Mem_Init leaves a table with the heap alone. |
| MemTable.Memory.AllocationsDisjoint | XGM30/SOFTWARE/uC-LIB/lib_mem.c:1606-1645 | No two allocations overlap, in whatever segments they are. |
| MemTable.Memory.AllocationsInside | XGM30/SOFTWARE/uC-LIB/lib_mem.c:1606-1645 | Every allocation is aligned and inside its segment; used and remaining octets add up to its size. |
| MemTable.Memory.HeapAlloc | XGM30/SOFTWARE/uC-LIB/lib_mem.c:592-655 | Exact outcome for any 32-bit size and alignment: the block, the error and the octets missing, also where size and gap reach 2^32; the table stays valid. |
| MemTable.Memory.GaveMeans | XGM30/SOFTWARE/uC-LIB/lib_mem.c:592-655 | Where nothing wraps around: the block is aligned and begins within one alignment of the free address, or what is asked for is what the block and its gap would take beyond what is there. |
| MemTable.Memory.HeapAllocSlips | XGM30/SOFTWARE/uC-LIB/lib_mem.c:592-655 | A request of 2^32 - 1 octets that is granted a block reaching beyond the heap while nothing is taken from it. |
| MemTable.Memory.SearchSegments | XGM30/SOFTWARE/uC-LIB/lib_mem.c:982-1023 | Finds the segment with that base and size, or an overlap exactly if there is one, or the place for a new segment. |
| MemTable.Memory.ClashesMeans | XGM30/SOFTWARE/uC-LIB/lib_mem.c:982-1023 | An overlap in terms of addresses: no segment is the same, and with some segment the greater start is below the smaller end. |
| MemTable.Memory.LinkSegment | XGM30/SOFTWARE/uC-LIB/lib_mem.c:1126-1150 | The new segment enters the doubly linked ascending table at its place. |
| MemTable.Memory.TableMeans | XGM30/SOFTWARE/uC-LIB/lib_mem.c:1126-1150 | The table in terms of its pointers: neighbours point at each other and their addresses ascend without overlapping; the pools of a segment are linked both ways. |
| MemTable.Memory.CreateInHeap | XGM30/SOFTWARE/uC-LIB/lib_mem.c:948-979 | Pointers and blocks from the heap: stopped by the size checks with nothing changed, or the outcome of the allocations. |
| MemTable.Memory.CreateSegment | XGM30/SOFTWARE/uC-LIB/lib_mem.c:1025-1150 | Dedicated memory as a new segment: the same, and the segment enters the table only if the pool is created. |
| MemTable.Memory.PoolCreate | XGM30/SOFTWARE/uC-LIB/lib_mem.c:868-1168 | For any 32-bit sizes: each argument error by its own condition; stopped by the 32-bit size checks with nothing changed and the octets missing; or what the allocations made of heap and segment. The table stays valid, and no other segment changes. |
| MemTable.OutcomeExactly | XGM30/SOFTWARE/uC-LIB/lib_mem.c:948-1168 | If no single block wraps around, the pool is created if and only if pointers and blocks fit; it then owns its blocks, all free, and its fields are those asked for. Otherwise nothing changes if and only if the size checks stop it. Which error comes, and with how many octets. |
| MemTable.ShortageIsLeast | XGM30/SOFTWARE/uC-LIB/lib_mem.c:964-979 | Where no sum reaches 2^32 the octets reported are the least that are missing: with them the check passes, with one fewer it does not; for the heap, for the pointers alone, and for dedicated memory. |
| MemTable.ShortageExample | XGM30/SOFTWARE/uC-LIB/lib_mem.c:964-979 | Four blocks of 100 octets in 200 octets of the heap: 216 are missing. |
| MemTable.MissingIsLeast | XGM30/SOFTWARE/uC-LIB/lib_mem.c:1085-1103 | What is reported when an allocation fails midway, where no sum reaches 2^32. |
| MemTable.LostOnlyIfWrapped | XGM30/SOFTWARE/uC-LIB/lib_mem.c:948-1046 | Checks that pass what does not fit are possible only if the sizes reach 2^32. |
| MemTable.Memory.CreateLeaks | XGM30/SOFTWARE/uC-LIB/lib_mem.c:948-1121 | Two blocks of 2^31 + 1 octets pass them: no pool is created, and 8 octets of the heap are lost. |
| MemRuns.Run | XGM30/SOFTWARE/uC-LIB/lib_mem.c:592-1168 | Over any run of heap allocations, pool creations, gets and frees the table stays valid and segments are only added to; all blocks granted are aligned, inside a segment and disjoint; each pool with an exact check has just those blocks outstanding that were got and not freed, none of them twice; and no two blocks in the hands of callers overlap. |
| MemRuns.InOrderMeans | XGM30/SOFTWARE/uC-LIB/lib_mem.c:1204-1356 | Of a pool in order: outstanding are just the blocks got and not returned since, nothing was got that was held and nothing taken back that was not. |
| MemOps.Set | XGM30/SOFTWARE/uC-LIB/lib_mem.c:264-315 | The word-optimised fill sets exactly the octets asked for; words are stored at aligned addresses only. |
| MemOps.Copy | XGM30/SOFTWARE/uC-LIB/lib_mem.c:356-419 | The word-optimised copy equals the upward octet copy, even for buffers that overlap. |
| MemOps.WordAtOnce | XGM30/SOFTWARE/uC-LIB/lib_mem.c:404-409 | Why: buffers with the same alignment are a multiple of four octets apart. |
| MemOps.CopyArrives | XGM30/SOFTWARE/uC-LIB/lib_mem.c:356-419 | Unless the destination begins inside the source, the source arrives as it was. |
| MemOps.OverlapRepeats | XGM30/SOFTWARE/uC-LIB/lib_mem.c:356-419 | If it does, the octets before the destination are repeated throughout. |
| MemOps.Cmp | XGM30/SOFTWARE/uC-LIB/lib_mem.c:466-551 | The backward word-optimised comparison says yes if and only if the octets are the same; null pointers and size 0 as in the source. |
| SnmpOid.ReadSub | XGM30/SOFTWARE/APP/Snmp/snmp_SNMP.c:318-331 | snmpDecodeID: the value of one complete sub-identifier modulo 2^32, and the position behind it. |
| Octets.ValueSnoc | XGM30/SOFTWARE/APP/Snmp/snmp_SNMP.c:323-326 | Each octet multiplies the value by 128 and adds its low seven bits. |
| Octets.TwoDigits | XGM30/SOFTWARE/APP/Snmp/snmp_SNMP.c:318-349 | An identifier that begins with two octets of one sub-identifier, and that only 0x80 is refused as the first. |
| Octets.ListHasIdentifier | XGM30/SOFTWARE/APP/Snmp/snmp_SNMP.c:335-349 | Every list of numbers has a well-formed identifier. |
| SnmpOid.VCompare | XGM30/SOFTWARE/APP/Snmp/snmp_SNMP.c:218-279 | snmpVCompare returns exactly Returned, which fits in 32 bits; its sign is the order, and it is 0 for equal octets only. |
| SnmpOid.ReturnedMeans | XGM30/SOFTWARE/APP/Snmp/snmp_SNMP.c:218-279 | What it returns for identifiers alike up to an octet: the difference there, or which number that starts there is greater, scaled by 2^16 and what is left to compare, and the difference of the lengths. |
| SnmpOid.SignOfReturned | XGM30/SOFTWARE/APP/Snmp/snmp_SNMP.c:218-279 | Its sign is the order, and it is 255 or more just if the octets decide for the first, or an empty identifier is compared with one of 255 octets. |
| SnmpOid.OrderedExactly | XGM30/SOFTWARE/APP/Snmp/snmp_SNMP.c:218-279 | For any two well-formed identifiers the order is the lexicographic one if and only if the two numbers read where they first differ are not misread. |
| SnmpOid.CompareWellFormed | XGM30/SOFTWARE/APP/Snmp/snmp_SNMP.c:218-279 | The same of the result snmpVCompare returns, and that clean identifiers below 2^32 are not misread. |
| SnmpOid.PackedSign | XGM30/SOFTWARE/APP/Snmp/snmp_SNMP.c:271-278 | Shift, multiplication and length difference never flip the sign. |
| SnmpOid.OrderIsLexicographic | XGM30/SOFTWARE/APP/Snmp/snmp_SNMP.c:218-279 | Without an octet 0x80 that order is the lexicographic order of the sub-identifiers. |
| SnmpOid.OrderedExactlyIfClean | XGM30/SOFTWARE/APP/Snmp/snmp_SNMP.c:218-279 | The exact condition: the comparison of an identifier with all clean ones is right if and only if it has no octet 0x80 itself. |
| SnmpOid.Misordered | XGM30/SOFTWARE/APP/Snmp/snmp_SNMP.c:218-279 | For each identifier with an octet 0x80, one that it is wrongly put before. |
| SnmpOid.BelowTwoDigitsIsClean | XGM30/SOFTWARE/APP/Snmp/snmp_SNMP.c:218-279 | Sub-identifiers below 16384 have no octet 0x80, so they are always ordered correctly. |
| SnmpOid.OrderZero | XGM30/SOFTWARE/APP/Snmp/snmp_SNMP.c:218-279 | The comparison yields 0 if and only if the octets are the same. |
| SnmpOid.LexAntisymmetric | XGM30/SOFTWARE/APP/Snmp/snmp_SNMP.c:218-279 | The order is antisymmetric, and 0 for equal sequences only. |
| SnmpOid.LexTransitive | XGM30/SOFTWARE/APP/Snmp/snmp_SNMP.c:218-279 | The order is transitive. |
| SnmpOid.LexMeans | XGM30/SOFTWARE/APP/Snmp/snmp_SNMP.c:218-279 | A proper prefix comes first; otherwise the lesser number at the first difference does. |
| SnmpOid.FindOID | XGM30/SOFTWARE/APP/Snmp/snmp_SNMP.c:284-314 | Returns the first equal entry if and only if there is one, and otherwise the comparison with the last; an empty table counts as found at 0, as in the source. |
| Ber.ReadLength | XGM30/SOFTWARE/APP/Snmp/snmp_SNMP.c:14-40 | The length stated and the position behind the header, octet by octet; the position stays on a header that is not accepted. |
| Ber.RWriteLength | XGM30/SOFTWARE/APP/Snmp/snmp_SNMP.c:88-109 | Writes exactly the shortest header of section 8.1.3 of ITU-T X.690, octet by octet, and nothing else, and for a negative length the tag and one octet. |
| Ber.LengthRoundTrip | XGM30/SOFTWARE/APP/Snmp/snmp_SNMP.c:14-109 | A written length is read back and exactly its header passed over if and only if it is not negative. |
| Ber.HeaderIsShortest | XGM30/SOFTWARE/APP/Snmp/snmp_SNMP.c:88-109 | No accepted header states the same length in fewer octets. |
| Ber.EncodedMeans | XGM30/SOFTWARE/APP/Snmp/snmp_SNMP.c:113-152 | The contents octets are the two's complement of the number (section 8.3 of ITU-T X.690). |
| Ber.EncodedIsShortest | XGM30/SOFTWARE/APP/Snmp/snmp_SNMP.c:113-152 | They are the shortest octets with that meaning, and the only ones of that length. |
| Ber.Onward | XGM30/SOFTWARE/APP/Snmp/snmp_SNMP.c:136-148 | The loop condition of the writer holds exactly while more than one octet is left. |
| Ber.RWriteInt | XGM30/SOFTWARE/APP/Snmp/snmp_SNMP.c:113-152 | Writes a header and the contents, and nothing else, for any 32-bit value: the shortest contents of the number meant if the value fits in len octets or its top octet makes it negative, and otherwise its low octets, as many as it takes from len on until the first is below 0x80. |
| Ber.MeantIs | XGM30/SOFTWARE/APP/Snmp/snmp_SNMP.c:113-152 | The number meant: with tag 2 a value from 0x80, 0x8000, 0x800000 or 0x80000000 on is negative, with any other tag none is. |
| Ber.EncodedSizes | XGM30/SOFTWARE/APP/Snmp/snmp_SNMP.c:113-152 | How many octets it takes. |
| Ber.EncodedOctet | XGM30/SOFTWARE/APP/Snmp/snmp_SNMP.c:113-152 | Each octet, from the last one on, is a quotient modulo 256. |
| Ber.WriteSmallNegative | XGM30/SOFTWARE/APP/Snmp/snmp_SNMP.c:113-152 | The values from 0xFFFFFF80 on with tag 2 and len 4 become 02 01 and one octet; 0xFFFFFFFF becomes 02 01 FF. |
| Ber.ReadInt | XGM30/SOFTWARE/APP/Snmp/snmp_SNMP.c:45-68 | The value stored for any header and contents, with sign extension for Integer, and the position behind them. |
| Ber.StoredIs | XGM30/SOFTWARE/APP/Snmp/snmp_SNMP.c:45-68 | The value stored, octet by octet: with tag 2 the first one has a sign, with any other tag it has none. |
| Ber.IntRoundTrip | XGM30/SOFTWARE/APP/Snmp/snmp_SNMP.c:45-152 | Every 32-bit value is read back as it was written, as Integer or unsigned, even with a fifth zero octet. |
| Ber.EncodeID | XGM30/SOFTWARE/APP/Snmp/snmp_SNMP.c:335-349 | Writes a complete sub-identifier, all octets but the last marked, with the value modulo 128^olen: in olen octets, or without a leading 0x80 if the value fits (section 8.19 of ITU-T X.690); for olen 0 it writes none but clears the top bit of the octet before. |
| Ber.IdUnique | XGM30/SOFTWARE/APP/Snmp/snmp_SNMP.c:335-349 | There is only one such encoding of a value. |
| Ber.IdentifierIsUnique | XGM30/SOFTWARE/APP/Snmp/snmp_SNMP.c:335-349 | No two well-formed identifiers have the same sub-identifiers. |
| Ber.IdRoundTrip | XGM30/SOFTWARE/APP/Snmp/snmp_SNMP.c:318-349 | Reading a written sub-identifier returns the value if and only if it fits in olen digits. |
| Ber.CallerLeavesRoom | XGM30/SOFTWARE/APP/Snmp/snmp_SNMP.c:425 | One octet more than the value has is always enough room. |
| Circle.CloseIsNearest | XGM30/SOFTWARE/STM322xG_EVAL/stm322xg_eval_lcd.c:695-742 | The bound the loop keeps says that y is the integer nearest to the square root of R^2 - x^2. |
| Circle.GoodGoesOn | XGM30/SOFTWARE/STM322xG_EVAL/stm322xg_eval_lcd.c:731-740 | One round: the decision variable is the sum of the excess of both candidates, and the nearest one is chosen. |
| Circle.DrawCircle | XGM30/SOFTWARE/STM322xG_EVAL/stm322xg_eval_lcd.c:695-742 | With a radius that is not 0 a pixel is drawn if and only if, u being its smaller and v its greater distance from the centre along an axis, (2v - 1)^2 < 4 (R^2 - u^2) < (2v + 1)^2; so the picture is exact if and only if the radius is not 0. With radius 0 a pixel beside the centre is drawn. |
| Circle.ExactIsUnique | XGM30/SOFTWARE/STM322xG_EVAL/stm322xg_eval_lcd.c:695-742 | There is only one exact octant of a radius. |
| Circle.CentreIsExact | XGM30/SOFTWARE/STM322xG_EVAL/stm322xg_eval_lcd.c:695-742 | A circle of radius 0 drawn as its centre alone would be exact. |
| Circle.PixelsAreNear | XGM30/SOFTWARE/STM322xG_EVAL/stm322xg_eval_lcd.c:695-742 | The picture in coordinates: a pixel is in it if and only if its greater distance is the nearest ordinate of its smaller one. |
| Line.MinorIsNearest | XGM30/SOFTWARE/STM322xG_EVAL/stm322xg_eval_lcd.c:894-959 | The minor offset is within half a pixel of the true line. |
| Line.PointMeans | XGM30/SOFTWARE/STM322xG_EVAL/stm322xg_eval_lcd.c:894-959 | The k-th point in coordinates: k steps along the longer axis, towards the second end, and along the other the quotient rounded by half. |
| Line.ShortLine | XGM30/SOFTWARE/STM322xG_EVAL/stm322xg_eval_lcd.c:894-959 | The five points from (0, 0) to (4, 2). |
| Line.MinorSteps | XGM30/SOFTWARE/STM322xG_EVAL/stm322xg_eval_lcd.c:949-955 | The remainder kept in num decides each step as the division would. |
| Line.PointEnds | XGM30/SOFTWARE/STM322xG_EVAL/stm322xg_eval_lcd.c:894-959 | The line starts and ends exactly at its two points. |
| Line.PointsAreConnected | XGM30/SOFTWARE/STM322xG_EVAL/stm322xg_eval_lcd.c:946-958 | Consecutive points are neighbours and differ. |
| Line.LoopEnds | XGM30/SOFTWARE/STM322xG_EVAL/stm322xg_eval_lcd.c:896-946 | The 16-bit loop counter ever passes the number of pixels if and only if that is below 32767; for 32767 the source never ends. |
| Line.DrawUniLine | XGM30/SOFTWARE/STM322xG_EVAL/stm322xg_eval_lcd.c:894-959 | max(dx, dy) + 1 pixels; each is the true point with both coordinates as signed 16-bit numbers, if and only if the numerator never overflows, a condition on dx and dy alone. |
| Line.OverflowsExactly | XGM30/SOFTWARE/STM322xG_EVAL/stm322xg_eval_lcd.c:949-953 | The numerator overflows in some round if and only if den - g + den / 2 mod g + numadd reaches 2^15, g being the greatest common divisor of dx and dy. |
| Polygon.NodeBetween | XGM30/SOFTWARE/STM322xG_EVAL/stm322xg_eval_lcd.c:1104 | In the fields of the points: an edge crosses a row if just one end has a lower X; the divisor is then not zero and the node lies between the Y of the two ends. |
| Polygon.NodeIsClose | XGM30/SOFTWARE/STM322xG_EVAL/stm322xg_eval_lcd.c:1104 | In the fields of the points: the node is less than one column off the true crossing, on the side of the first end. |
| Polygon.KeptExactly | XGM30/SOFTWARE/STM322xG_EVAL/stm322xg_eval_lcd.c:1104 | The 16-bit list keeps the node modulo 2^16 if and only if the product fits in 32 bits, or the rows differ by 65535 and the remainder is at least 2. |
| Polygon.OverflowMisplaces | XGM30/SOFTWARE/STM322xG_EVAL/stm322xg_eval_lcd.c:1104 | An edge across the whole 16-bit plane whose product does not fit, and whose node comes out one column off. |
| Polygon.EvenCrossings | XGM30/SOFTWARE/STM322xG_EVAL/stm322xg_eval_lcd.c:1097-1107 | A row crosses any closed polygon an even number of times. |
| Polygon.CrossedRows | XGM30/SOFTWARE/STM322xG_EVAL/stm322xg_eval_lcd.c:1097-1107 | It crosses it at all if and only if there is a corner on each side. |
| Polygon.BuildNodes | XGM30/SOFTWARE/STM322xG_EVAL/stm322xg_eval_lcd.c:1096-1107 | The list holds exactly the crossings as 16 bits keep them, in at most 200 places. |
| Polygon.StoredIsExact | XGM30/SOFTWARE/STM322xG_EVAL/stm322xg_eval_lcd.c:1096-1107 | For points with coordinates that are not negative they are the crossings themselves. |
| Polygon.StoredAreEdges | XGM30/SOFTWARE/STM322xG_EVAL/stm322xg_eval_lcd.c:1097-1107 | The nodes up to a column are as many as the edges that cross the row there. |
| Polygon.TriangleNodes | XGM30/SOFTWARE/STM322xG_EVAL/stm322xg_eval_lcd.c:1097-1107 | Row 10 of the triangle (5, 0), (0, 30), (20, 30) has the nodes 10 and 30. |
| Polygon.ExchangeLosesWeight | XGM30/SOFTWARE/STM322xG_EVAL/stm322xg_eval_lcd.c:1111-1127 | Why the back-stepping sort ends. |
| Polygon.SortNodes | XGM30/SOFTWARE/STM322xG_EVAL/stm322xg_eval_lcd.c:1109-1127 | The nodes are sorted, the same ones as before, and nothing beyond them is touched. |
| Polygon.EvenOdd | XGM30/SOFTWARE/STM322xG_EVAL/stm322xg_eval_lcd.c:1129-1153 | Pairs of sorted nodes cover a column, left end included, if and only if an odd number of nodes is at or left of it. |
| Fill.RowMeans | XGM30/SOFTWARE/STM322xG_EVAL/stm322xg_eval_lcd.c:1129-1153 | Pixels that can be seen are painted if and only if some pair, clipped to the box, covers them; none outside the box is. |
| Fill.PairsMean | XGM30/SOFTWARE/STM322xG_EVAL/stm322xg_eval_lcd.c:1129-1153 | Sorted pairs clipped to the box amount to the even-odd rule, the two borders of the box included. |
| Fill.Lcd.DrawSpan | XGM30/SOFTWARE/STM322xG_EVAL/stm322xg_eval_lcd.c:1145-1150 | One span: the line and the two end pixels, all in the back colour, since the text colour has been overwritten by it. |
| Fill.Lcd.DrawPairs | XGM30/SOFTWARE/STM322xG_EVAL/stm322xg_eval_lcd.c:1129-1153 | The loop over pairs paints exactly the clipped pairs. |
| Fill.Lcd.FillRow | XGM30/SOFTWARE/STM322xG_EVAL/stm322xg_eval_lcd.c:1093-1154 | One row: a pixel that can be seen is painted if and only if the even-odd rule on the stored nodes says so. |
| Fill.FindBox | XGM30/SOFTWARE/STM322xG_EVAL/stm322xg_eval_lcd.c:1065-1089 | The box, with the first point taken the other way round and negative coordinates as 16 bits show them. |
| Fill.BoxMeans | XGM30/SOFTWARE/STM322xG_EVAL/stm322xg_eval_lcd.c:1065-1089 | Its left and right bound the first X and the other Y, its top and bottom the first Y and the other X, as 16 bits show them ... |
| Fill.BoxIsTight | XGM30/SOFTWARE/STM322xG_EVAL/stm322xg_eval_lcd.c:1065-1089 | ... and each of the four is one of them. |
| Fill.Lcd.FillPolyLine | XGM30/SOFTWARE/STM322xG_EVAL/stm322xg_eval_lcd.c:1058-1158 | The whole polygon: a pixel that can be seen is painted if and only if it lies in a row of the box and an odd number of nodes is at or left of it, with nodes inside the box and the two borders stated; all in the back colour; no other pixel changes; and the text colour of the caller is lost unless it is the back colour. |
| Fill.FillTriangle | XGM30/SOFTWARE/STM322xG_EVAL/stm322xg_eval_lcd.c:1058-1158 | In row 10 of that triangle just the columns 10 to 30 are painted. |
| Fill.AllRowsExactly | XGM30/SOFTWARE/STM322xG_EVAL/stm322xg_eval_lcd.c:1065-1093 | Every row crossed is painted if and only if there is none, or the column of the first corner exceeds every row and another corner is at most one row from the top. |
| I2cEeprom.WithinPage | XGM30/SOFTWARE/STM322xG_EVAL/stm322xg_eval_i2c_ee.c:471-634 | A page write that stays in its page stores the octets in order. |
| I2cEeprom.Device.WritePages | XGM30/SOFTWARE/STM322xG_EVAL/stm322xg_eval_i2c_ee.c:502-516 | Full pages from a page boundary on extend the splice without a gap. |
| I2cEeprom.Device.WriteBuffer | XGM30/SOFTWARE/STM322xG_EVAL/stm322xg_eval_i2c_ee.c:471-634 | Up to 8191 octets, from any address: every cell of the device is the octet written there or as before, addresses modulo 2^16; beyond that the last octet is never written. |
| Timestamp.ReadingsDiffer | XGM30/SOFTWARE/uC-CPU/cpu_core.c:1132-1136 | The shifted difference of two readings is the number of ticks between them modulo the range of the timer. |
| Timestamp.CarryIsExact | XGM30/SOFTWARE/uC-CPU/cpu_core.c:1138-1141 | The comparison after the addition detects the carry exactly. |
| Timestamp.NoTimeIsLost | XGM30/SOFTWARE/uC-CPU/cpu_core.c:1122-1155 | The ticks counted are the ticks elapsed if and only if every update comes before the timer wraps. |
| Timestamp.Clock.constructor | XGM30/SOFTWARE/uC-CPU/cpu_core.c:1077-1088 | CPU_TS_Init starts with both halves 0 from the current reading. |
| Timestamp.Clock.Update | XGM30/SOFTWARE/uC-CPU/cpu_core.c:1122-1155 | One update adds the ticks since the last one, modulo the range, to the 64-bit number whose upper half is hi and whose lower half is lo. |
| Timestamp.Clock.Run | XGM30/SOFTWARE/uC-CPU/cpu_core.c:1122-1155 | After any run of updates in time lo is the time elapsed since initialization modulo 2^32 and hi the quotient modulo 2^32, for any shift. |

## Left out

- Flash programs cut in the middle of a halfword and erases cut in the middle of a sector; writing on after a flash error without EE_Initialize.
- EepromRuns.Run: requires room for the recoveries of each write that may be cut (`Budget`).
- Virtual addresses outside 1..0x7FFF, which the copy loops do not reach.
- Flash register set-up and waiting for the end of a flash operation: a program or erase is one step.
- MemTable.Memory.PoolCreate: requires that dedicated memory does not wrap and is not the heap itself, that the structure is not in the table yet, and at most 65534 blocks, the greatest number the 16-bit index of a pool can hold; what the source does otherwise is not modelled.
- MemRuns.Run: requires of pools that one block and the gap before it fit in 32 bits.
- Critical sections of the memory and math libraries: every call is one step.
- Mem_Clr and the byte-order macros of the memory library: no loop of their own.
- Pointers of the memory operations are positions in one array of octets, and words are read and written low octet first.
- Math_Init: it sets the seed the constructor of `Lcg.Generator` starts with.
- snmpEncodeIndex, snmpFindIndex, snmpReadVal and snmpRWriteVal: they depend on MIB tables and callbacks, or only copy octets.
- Ber.ReadInt: reads beyond the end of the buffer, which the source does not check for, are excluded.
- SnmpOid.OrderIsLexicographic: requires sub-identifiers below 2^32, the range the source's variables hold; `OrderedExactly` does not.
- Line.DrawUniLine: requires that both differences are below 32767, since the source's loop does not end at 32767 (`LoopEnds`) and greater ones do not fit in its variables.
- Polygon.BuildNodes: a product beyond 32 bits, which C leaves undefined, is taken to wrap around.
- Fill.Lcd.FillPolyLine: says of pixels outside 240 rows and 320 columns only that they lie in the box; what the display controller does with them is not modelled.
- Everything else that writes to the display controller.
- The timeouts and the DMA transfer behind a page write, and writes of no octets at all.
- Nested calls of CPU_TS_UpdateHandler between the timer reading and the disabling of interrupts.
- CPU_CntLeadZeros, interrupt-disabled time measurement and CPU names: one-branch facts.
- GPIO, clock, DMA, FSMC and I2C set-up, audio, memory-chip, file-system, web and time-server code: register sequences and glue.
