/** The EEPROM emulation of eeprom.c.  Flash addresses count halfwords from
    EEPROM_START_ADDRESS; a 32-bit read of 0xFFFFFFFF is two blank halfwords. */
module Eeprom {
  import opened Flash
  import opened PageLog
  import opened PagePair
  import opened Words
  import opened Wrappers

  /** Two octets in memory order, low octet first. */
  function HalfWord(lo: int, hi: int): (h: Half)
    requires 0 <= lo < 0x100 && 0 <= hi < 0x100
    ensures h % 0x100 == lo && h / 0x100 == hi
  {
    lo + 0x100 * hi
  }

  datatype Operation = ReadFromValidPage | WriteInValidPage

  datatype ReadResult = Found(data: Half) | NotFound | NoPage

  /** EE_FindValidPage: reads go to the valid page, and writes as well unless the other page is
      receiving. */
  function FindValidPage(pages: Pages, op: Operation): (r: Option<nat>)
    ensures r.Some? ==> r.value < 2
    ensures r.None? <==> pages[0][0] != 0x0000 && pages[1][0] != 0x0000
    ensures pages[0][0] == 0x0000 && pages[1][0] == 0xFFFF ==> r == Some(0)
    ensures pages[0][0] == 0xFFFF && pages[1][0] == 0x0000 ==> r == Some(1)
    ensures pages[0][0] == 0x0000 && pages[1][0] == 0xEEEE ==> r == Some(if op.WriteInValidPage? then 1 else 0)
    ensures pages[0][0] == 0xEEEE && pages[1][0] == 0x0000 ==> r == Some(if op.WriteInValidPage? then 0 else 1)
    ensures PhaseOf(pages).Stable? ==> r == Some(PhaseOf(pages).valid)
    ensures PhaseOf(pages).Moving? ==>
              r == Some(if op.WriteInValidPage? then 1 - PhaseOf(pages).valid else PhaseOf(pages).valid)
  {
    var h0, h1 := pages[0][0], pages[1][0];
    match op
    case WriteInValidPage =>
      if h1 == VALID_PAGE then (if h0 == RECEIVE_DATA then Some(0) else Some(1))
      else if h0 == VALID_PAGE then (if h1 == RECEIVE_DATA then Some(1) else Some(0))
      else None
    case ReadFromValidPage =>
      if h0 == VALID_PAGE then Some(0)
      else if h1 == VALID_PAGE then Some(1)
      else None
  }

  function SlotAddress(p: nat, i: nat): int {
    p * PAGE_HALVES + 2 * i
  }

  lemma CellOfSlot(pages: Pages, p: nat, i: nat)
    requires p < 2 && i < PAGE_SLOTS
    ensures Cell(pages, SlotAddress(p, i)) == Data(pages[p], i)
    ensures Cell(pages, SlotAddress(p, i) + 1) == Addr(pages[p], i)
  {
  }

  /** Programming the two halves of a blank slot stores exactly what was asked for. */
  lemma ProgramSlot(pages: Pages, p: nat, i: nat, d: Half, v: Half)
    requires p < 2 && i < PAGE_SLOTS && BlankSlot(pages[p], i)
    ensures Programmed(pages, SlotAddress(p, i), d) == pages[p := PutData(pages[p], i, d)]
    ensures Programmed(pages[p := PutData(pages[p], i, d)], SlotAddress(p, i) + 1, v) == pages[p := Put(pages[p], i, d, v)]
  {
    ProgramsExactly(d);
    ProgramsExactly(v);
  }

  lemma ProgramHeader(pages: Pages, p: nat, h: Half)
    requires p < 2 && (pages[p][0] == ERASED || h == VALID_PAGE)
    ensures Programmed(pages, p * PAGE_HALVES, h) == pages[p := pages[p][0 := h]]
  {
    ProgramsExactly(h);
    ProgramsExactly(pages[p][0]);
  }

  /** The pages after k of the two halfword programs of a slot write. */
  function SlotSteps(pages: Pages, p: nat, i: nat, d: Half, v: Half, k: nat): Pages
    requires p < 2 && i < PAGE_SLOTS
  {
    if k == 0 then pages
    else if k == 1 then pages[p := PutData(pages[p], i, d)]
    else pages[p := Put(pages[p], i, d, v)]
  }

  /** The data halfword of slot i is the one with number 2i of its page, and the address follows. */
  lemma SlotStepsMean(pages: Pages, p: nat, i: nat, d: Half, v: Half)
    requires p < 2 && i < PAGE_SLOTS
    ensures SlotSteps(pages, p, i, d, v, 0) == pages
    ensures SlotSteps(pages, p, i, d, v, 1) == pages[p := pages[p][2 * i := d]]
    ensures SlotSteps(pages, p, i, d, v, 2) == pages[p := pages[p][2 * i := d][2 * i + 1 := v]]
  {
  }

  /** The backward scan of EE_ReadVariable, from an address halfword down to `floor`. */
  function ScanBack(pages: Pages, a: int, floor: nat, v: Half): ReadResult
    requires a < 2 * PAGE_HALVES && 1 <= floor
    decreases a
  {
    if a <= floor then NotFound
    else if Cell(pages, a) == v then Found(Cell(pages, a - 1))
    else ScanBack(pages, a - 2, floor, v)
  }

  function AsRead(r: Option<Half>): ReadResult {
    match r
    case Some(d) => Found(d)
    case None => NotFound
  }

  lemma {:induction false} ScanIsLookup(pages: Pages, p: nat, v: Half, n: nat)
    requires p < 2 && 1 <= n <= PAGE_SLOTS
    ensures ScanBack(pages, SlotAddress(p, n) - 1, SlotAddress(p, 0) + 1, v) == AsRead(Lookup(pages[p], v, n))
  {
    if n > 1 {
      CellOfSlot(pages, p, n - 1);
      ScanIsLookup(pages, p, v, n - 1);
    }
  }

  /** How many slots k of the two halves of a slot write use up. */
  function SlotsOf(d: Half, k: nat): nat {
    if k == 0 || (k == 1 && d == ERASED) then 0 else 1
  }

  /** Copying the newest data of a variable u into the receiving page, interrupted after k
      of its two halfword programs, keeps the pair sound and its meaning unchanged. */
  lemma CopyStep(pages: Pages, q: nat, u: Half, d: Half, k: nat)
    requires PhaseOf(pages) == Moving(q) && Sound(pages) && Fill(pages[1 - q]) < PAGE_SLOTS && k <= 2
    requires InRange(u) && Latest(pages[q], u) == Some(d) && u != Addr(pages[1 - q], 1)
    ensures var n := Fill(pages[1 - q]);
            var r := SlotSteps(pages, 1 - q, n, d, u, k);
            && PhaseOf(r) == Moving(q) && Sound(r) && Durable(r) == Durable(pages) && r[q] == pages[q]
            && Fill(r[1 - q]) == n + SlotsOf(d, k) && (n == 1 || Addr(r[1 - q], 1) == Addr(pages[1 - q], 1))
  {
    var p, n := pages[1 - q], Fill(pages[1 - q]);
    CopySlot(pages[q], p, d, u);
    PutFill(p, d, u);
    assert Data(p, 0) == p[0] && Data(PutData(p, n, d), 0) == p[0] && Data(Put(p, n, d, u), 0) == p[0];
  }

  /** A completed copy is one more used slot, and one more variable found. */
  lemma CopyDone(pages: Pages, q: nat, u: Half, d: Half)
    requires PhaseOf(pages) == Moving(q) && Sound(pages) && Fill(pages[1 - q]) < PAGE_SLOTS && InRange(u)
    ensures var p, r := pages[1 - q], SlotSteps(pages, 1 - q, Fill(pages[1 - q]), d, u, 2)[1 - q];
            && Fill(r) == Fill(p) + 1
            && (forall w: Half :: InRange(w) ==> Latest(r, w) == if w == u then Some(d) else Latest(p, w))
            && Addr(r, 1) == if Fill(p) == 1 then u else Addr(p, 1)
  {
    var p := pages[1 - q];
    PutFill(p, d, u);
    forall w: Half | InRange(w)
      ensures Latest(Put(p, Fill(p), d, u), w) == if w == u then Some(d) else Latest(p, w)
    {
      PutLatest(p, d, u, w);
    }
  }

  /** The three flash steps that open a transfer: the other page, marked as receiving, takes
      (v, d) into slot 1, and only the last of them commits the write. */
  lemma OpenSteps(pages: Pages, q: nat, d: Half, v: Half, k: nat)
    requires q < 2 && k <= 2 && InRange(v)
    requires PhaseOf(pages) == Stable(q) && IsLog(pages[q]) && pages[1 - q] == BlankPage()
    ensures var p := 1 - q;
            var marked := pages[p := BlankPage()[0 := RECEIVE_DATA]];
            var r := SlotSteps(marked, p, 1, d, v, k);
            && PhaseOf(marked) == Moving(q) && IsLog(marked[p]) && Fill(marked[p]) == 1
            && PhaseOf(r) == Moving(q) && Sound(r) && r[q] == pages[q]
            && Durable(r) == (if k == 2 then Durable(pages)[v := d] else Durable(pages))
            && (k == 2 ==> Fill(r[p]) == 2 && Addr(r[p], 1) == v)
            && (k < 2 ==> Leftover(r, Count(pages[q], v, NB_OF_VAR)))
            && (k == 1 && d != ERASED ==> LeftBy(r, 2, Count(pages[q], ERASED, NB_OF_VAR)))
  {
    var p := 1 - q;
    var empty := BlankPage()[0 := RECEIVE_DATA];
    HeaderOnly(empty);
    BlankAbove(empty);
    CommitSlot(pages[q], empty, d, v);
    PutFill(empty, d, v);
    CountSkipsOne(pages[q], v, ERASED, NB_OF_VAR);
    assert Data(empty, 0) == Data(Put(empty, 1, d, v), 0) == Data(PutData(empty, 1, d), 0) == RECEIVE_DATA;
  }

  /** What the pair stands for has not changed since `start`. */
  ghost predicate Unchanged(q: nat, start: Pages, now: Pages)
    requires q < 2
  {
    PhaseOf(now) == Moving(q) && Sound(now) && now[q] == start[q] && Durable(now) == Durable(start)
  }

  /** c copies have taken one slot and two flash steps each. */
  ghost predicate Spent(c: nat, first: Page, supplied: Supply, now: Page, supply: Supply) {
    Fill(now) == Fill(first) + c && supplied.Can(2 * c) && supply == supplied.Less(2 * c)
  }

  ghost predicate SlotOneKept(first: Page, now: Page, i: nat) {
    Addr(now, 1) == Addr(first, 1) || (Fill(first) <= 1 && Addr(first, 1) == ERASED && 1 <= Addr(now, 1) <= i)
  }

  /** Every live variable among 1..i can be found in the new page. */
  ghost predicate Carried(src: Page, now: Page, i: nat) {
    forall u: Half :: 1 <= u <= i && Latest(src, u).Some? ==> Latest(now, u).Some?
  }

  /** The state of a copy loop that began in `start` and has dealt with variables 1..i:
      what the pair stands for has not changed, each variable counted has taken one slot and
      two flash steps, and every live variable dealt with can be found in the new page. */
  ghost predicate Progress(q: nat, start: Pages, supplied: Supply, now: Pages, supply: Supply, i: nat)
    requires q < 2 && i <= NB_OF_VAR
  {
    var holds :=
      && Unchanged(q, start, now)
      && Spent(Count(start[q], Addr(start[1 - q], 1), i), start[1 - q], supplied, now[1 - q], supply)
      && SlotOneKept(start[1 - q], now[1 - q], i)
      && Carried(start[q], now[1 - q], i);
    holds
  }

  /** A variable that is not live, or is the one in slot 1, needs no copy. */
  lemma ProgressSkips(q: nat, start: Pages, supplied: Supply, now: Pages, supply: Supply, i: nat)
    requires q < 2 && i < NB_OF_VAR && Progress(q, start, supplied, now, supply, i)
    requires Latest(start[q], i + 1).None? || Addr(now[1 - q], 1) == i + 1
    ensures Progress(q, start, supplied, now, supply, i + 1)
  {
    if Addr(now[1 - q], 1) == i + 1 {
      LookupMeans(now[1 - q], i + 1, PAGE_SLOTS);
    }
  }

  lemma ProgressCopies(q: nat, start: Pages, supplied: Supply, now: Pages, supply: Supply, i: nat, d: Half)
    requires q < 2 && i < NB_OF_VAR && Progress(q, start, supplied, now, supply, i)
    requires Latest(start[q], i + 1) == Some(d) && Addr(now[1 - q], 1) != i + 1
    requires Fill(now[1 - q]) < PAGE_SLOTS && supply.Can(2)
    ensures Progress(q, start, supplied, SlotSteps(now, 1 - q, Fill(now[1 - q]), d, i + 1, 2), supply.Less(2), i + 1)
  {
    CopyStep(now, q, i + 1, d, 2);
    CopyDone(now, q, i + 1, d);
    BlankAbove(now[1 - q]);
  }

  lemma ProgressMeans(q: nat, start: Pages, supplied: Supply, now: Pages, supply: Supply, i: nat)
    requires q < 2 && i <= NB_OF_VAR && Progress(q, start, supplied, now, supply, i)
    ensures PhaseOf(now) == Moving(q) && Sound(now) && now[q] == start[q] && Durable(now) == Durable(start)
  {
  }

  /** A round of a copy loop, from what became of the flash. */
  lemma RoundDone(q: nat, start: Pages, supplied: Supply, before: Pages, left: Supply, now: Pages, supply: Supply, u: Half)
    requires q < 2 && InRange(u) && Progress(q, start, supplied, before, left, u - 1) && u != Addr(before[1 - q], 1)
    requires Latest(before[q], u).None? ==> now == before && supply == left
    requires Latest(before[q], u).Some? ==>
               && Fill(before[1 - q]) < PAGE_SLOTS && left.Can(2) && supply == left.Less(2)
               && now == SlotSteps(before, 1 - q, Fill(before[1 - q]), Latest(before[q], u).value, u, 2)
    ensures Progress(q, start, supplied, now, supply, u)
  {
    if Latest(start[q], u).None? {
      ProgressSkips(q, start, supplied, before, left, u - 1);
    } else {
      ProgressCopies(q, start, supplied, before, left, u - 1, Latest(start[q], u).value);
    }
  }

  /** The variable in slot 1 can only become known, so no more are pending than before. */
  lemma PendingStill(src: Page, first: Page, now: Page)
    requires Addr(now, 1) == Addr(first, 1) || Addr(first, 1) == ERASED
    ensures Pending(src, now) <= Pending(src, first)
  {
    if Addr(now, 1) != Addr(first, 1) {
      CountSkipsOne(src, Addr(now, 1), ERASED, NB_OF_VAR);
    }
  }

  /** What a copy loop has cost when power fails in its round for variable u ... */
  lemma CutShort(q: nat, start: Pages, supplied: Supply, before: Pages, left: Supply, now: Pages, u: Half)
    requires q < 2 && InRange(u) && Progress(q, start, supplied, before, left, u - 1) && u != Addr(before[1 - q], 1)
    requires PhaseOf(start) == Moving(q) && Sound(start)
    requires PhaseOf(now) == Moving(q) && now[q] == start[q] && Latest(start[q], u).Some? && !left.Can(2)
    requires Fill(now[1 - q]) == Fill(before[1 - q]) + SlotsOf(Latest(start[q], u).value, left.steps)
    requires Fill(before[1 - q]) > 1 ==> Addr(now[1 - q], 1) == Addr(before[1 - q], 1)
    ensures supplied.FailsAfter? && CutCost(start, supplied.steps, now)
  {
    var skip := Addr(start[1 - q], 1);
    var c := Count(start[q], skip, u - 1);
    NthIs(start[q], skip, u, NB_OF_VAR);
    assert supplied.steps == 2 * c + left.steps;
    BlankAbove(start[1 - q]);
    BlankAbove(before[1 - q]);
    PendingStill(start[q], start[1 - q], now[1 - q]);
  }

  /** ... and when it has come to its end. */
  lemma CopiedAll(q: nat, start: Pages, supplied: Supply, now: Pages, supply: Supply)
    requires q < 2 && PhaseOf(start) == Moving(q) && Progress(q, start, supplied, now, supply, NB_OF_VAR)
    ensures var c := Pending(start[q], start[1 - q]);
            && CutCost(start, 2 * c, now) && supplied.Can(2 * c) && supply == supplied.Less(2 * c)
            && Fill(now[1 - q]) == Fill(start[1 - q]) + c && Contents(now[1 - q]) == Durable(now)
  {
    PendingStill(start[q], start[1 - q], now[1 - q]);
    AllCopied(now[q], now[1 - q]);
  }

  /** A write to a page that is not full: it counts from its second halfword on. */
  lemma AppendSteps(pages: Pages, q: nat, d: Half, v: Half, k: nat)
    requires q < 2 && k <= 2 && InRange(v)
    requires PhaseOf(pages) == Stable(q) && IsLog(pages[q]) && Fill(pages[q]) < PAGE_SLOTS
    ensures var r := SlotSteps(pages, q, Fill(pages[q]), d, v, k);
            && PhaseOf(r) == Stable(q) && IsLog(r[q]) && r[1 - q] == pages[1 - q]
            && Durable(r) == (if k == 2 then Durable(pages)[v := d] else Durable(pages))
            && (k == 2 ==> Fill(r[q]) == Fill(pages[q]) + 1)
  {
    var p, n := pages[q], Fill(pages[q]);
    PutFill(p, d, v);
    assert Data(p, 0) == Data(Put(p, n, d, v), 0) == Data(PutData(p, n, d), 0) == p[0];
    forall u: Half | InRange(u)
      ensures Latest(PutData(p, n, d), u) == Latest(p, u)
      ensures Latest(Put(p, n, d, v), u) == if u == v then Some(d) else Latest(p, u)
    {
      PutLatest(p, d, v, u);
      PutDataLatest(p, d, u);
    }
    assert Contents(PutData(p, n, d)) == Contents(p);
    assert Contents(Put(p, n, d, v)) == Contents(p)[v := d];
  }

  /** The two cuts of a write to a full page that leave recovery the most to copy: before the
      commit, where the first halfword has wasted a slot, and just before the old page is erased. */
  ghost predicate WorstLeft(pages: Pages, supply: Supply, v: Half, d: Half, keys: set<Half>) {
    && (supply == FailsAfter(2) && d != ERASED && v in keys ==> LeftBy(pages, 2, |keys|))
    && (v in keys && supply == FailsAfter(2 * |keys| + 1) ==> LeftBy(pages, 1 + |keys|, |keys| - 1))
  }

  class Store {
    const flash: Device
    var curWrAddress: int
    var dataVar: Half

    /** The write address is somewhere the code can scan from. */
    ghost predicate Placed()
      reads this
    {
      0 <= curWrAddress <= 2 * PAGE_HALVES && curWrAddress % 2 == 0
    }

    /** What EE_Initialize establishes and every completed operation keeps. */
    ghost predicate Ready()
      reads this, flash
    {
      match PhaseOf(flash.pages)
      case Stable(q) =>
        && IsLog(flash.pages[q]) && flash.pages[1 - q] == BlankPage()
        && curWrAddress == SlotAddress(q, Fill(flash.pages[q]))
      case _ => false
    }

    ghost function Variables(): map<Half, Half>
      reads this, flash
    {
      Durable(flash.pages)
    }

    constructor (device: Device)
      ensures flash == device && Placed() && curWrAddress == 0x1_FFFE && dataVar == 0
    {
      flash := device;
      curWrAddress := 2 * PAGE_HALVES - 2;
      dataVar := 0;
    }

    method InitCurrWrAddress() returns (status: Status)
      modifies this`curWrAddress
      ensures Placed()
      ensures match FindValidPage(flash.pages, WriteInValidPage)
              case None => status == NoValidPage
              case Some(w) =>
                exists n: nat :: FirstBlankAt(flash.pages[w], n) && curWrAddress == SlotAddress(w, n)
                                 && status == if n == PAGE_SLOTS then PageFull else Complete
    {
      var validPage := FindValidPage(flash.pages, WriteInValidPage);
      if validPage.None? {
        curWrAddress := 2 * PAGE_HALVES - 2;
        return NoValidPage;
      }
      var w := validPage.value;
      curWrAddress := w * PAGE_HALVES;
      var pageEndAddress := (1 + w) * PAGE_HALVES - 1;
      ghost var n: nat := 0;
      while curWrAddress < pageEndAddress
        invariant n <= PAGE_SLOTS && curWrAddress == SlotAddress(w, n)
        invariant forall i: nat :: i < n ==> !BlankSlot(flash.pages[w], i)
        decreases pageEndAddress - curWrAddress
      {
        CellOfSlot(flash.pages, w, n);
        if Cell(flash.pages, curWrAddress) == 0xFFFF && Cell(flash.pages, curWrAddress + 1) == 0xFFFF {
          assert FirstBlankAt(flash.pages[w], n);
          return Complete;
        }
        curWrAddress := curWrAddress + 2;
        n := n + 1;
      }
      assert FirstBlankAt(flash.pages[w], n);
      return PageFull;
    }

    /** What EE_ReadVariable finds: it scans the whole page while a transfer is under way,
        and otherwise only what lies below the write address. */
    ghost function Scanned(v: Half): ReadResult
      requires Placed()
      reads this, flash
    {
      match FindValidPage(flash.pages, ReadFromValidPage)
      case None => NoPage
      case Some(q) =>
        var receiving := flash.pages[0][0] == RECEIVE_DATA || flash.pages[1][0] == RECEIVE_DATA;
        var top := if receiving then (1 + q) * PAGE_HALVES - 1 else curWrAddress - 1;
        ScanBack(flash.pages, top, q * PAGE_HALVES + 1, v)
    }

    lemma ScannedWhileMoving(v: Half)
      requires Placed() && PhaseOf(flash.pages).Moving?
      ensures Scanned(v) == AsRead(Latest(flash.pages[PhaseOf(flash.pages).valid], v))
    {
      ScanIsLookup(flash.pages, PhaseOf(flash.pages).valid, v, PAGE_SLOTS);
    }

    lemma ScannedWhenReady(v: Half)
      requires Placed() && Ready() && v != ERASED
      ensures Scanned(v) == AsRead(Latest(flash.pages[PhaseOf(flash.pages).valid], v))
    {
      var q := PhaseOf(flash.pages).valid;
      BlankAbove(flash.pages[q]);
      ScanIsLookup(flash.pages, q, v, Fill(flash.pages[q]));
      LookupSkips(flash.pages[q], v, Fill(flash.pages[q]), PAGE_SLOTS);
    }

    method ReadVariable(v: Half) returns (r: ReadResult)
      requires Placed()
      ensures r == Scanned(v)
      ensures Ready() && InRange(v) ==> r == if v in Variables() then Found(Variables()[v]) else NotFound
    {
      if Ready() && InRange(v) {
        ScannedWhenReady(v);
      }
      var validPage := FindValidPage(flash.pages, ReadFromValidPage);
      if validPage.None? {
        return NoPage;
      }
      var q := validPage.value;
      var address;
      if flash.pages[0][0] == RECEIVE_DATA || flash.pages[1][0] == RECEIVE_DATA {
        address := (1 + q) * PAGE_HALVES - 1;
      } else {
        address := curWrAddress - 1;
      }
      ghost var floor := q * PAGE_HALVES + 1;
      while address > q * PAGE_HALVES + 1
        invariant address < 2 * PAGE_HALVES
        invariant ScanBack(flash.pages, address, floor, v) == Scanned(v)
      {
        if Cell(flash.pages, address) == v {
          return Found(Cell(flash.pages, address - 1));
        }
        address := address - 2;
      }
      return NotFound;
    }

    /** The body of the write loop: data halfword first, then the address halfword. */
    method ProgramBoth(ghost w: nat, ghost n: nat, d: Half, v: Half) returns (status: Status)
      requires w < 2 && n < PAGE_SLOTS && BlankSlot(flash.pages[w], n) && curWrAddress == SlotAddress(w, n)
      modifies this`curWrAddress, flash
      ensures status == if old(flash.supply).Can(2) then Complete else FlashError
      ensures flash.pages == SlotSteps(old(flash.pages), w, n, d, v, old(flash.supply).Taken(2))
      ensures flash.supply == old(flash.supply).Less(old(flash.supply).Taken(2))
      ensures curWrAddress == old(curWrAddress) || curWrAddress == old(curWrAddress) + 2
      ensures status == Complete ==> curWrAddress == SlotAddress(w, n + 1)
    {
      ProgramSlot(flash.pages, w, n, d, v);
      status := flash.ProgramHalfWord(curWrAddress, d);
      if status != Complete {
        return status;
      }
      status := flash.ProgramHalfWord(curWrAddress + 1, v);
      curWrAddress := curWrAddress + 2;
    }

    /** Appends (v, d) to the page being written, or reports that it is full.  Cut short, it
        leaves the slot without its address halfword, or as it was. */
    method VerifyPageFullWriteVariable(v: Half, d: Half) returns (status: Status)
      requires Placed()
      requires FindValidPage(flash.pages, WriteInValidPage).Some? ==>
                 IsLog(flash.pages[FindValidPage(flash.pages, WriteInValidPage).value])
      modifies this`curWrAddress, flash
      ensures Placed()
      ensures match FindValidPage(old(flash.pages), WriteInValidPage)
              case None => status == NoValidPage && flash.pages == old(flash.pages) && flash.supply == old(flash.supply)
              case Some(w) =>
                var n := Fill(old(flash.pages[w]));
                if n == PAGE_SLOTS then
                  status == PageFull && flash.pages == old(flash.pages) && flash.supply == old(flash.supply)
                else
                  var k := old(flash.supply).Taken(2);
                  && status == (if k == 2 then Complete else FlashError)
                  && flash.pages == SlotSteps(old(flash.pages), w, n, d, v, k)
                  && flash.supply == old(flash.supply).Less(k)
                  && (k == 2 ==> curWrAddress == SlotAddress(w, n + 1))
    {
      var validPage := FindValidPage(flash.pages, WriteInValidPage);
      if validPage.None? {
        return NoValidPage;
      }
      var w := validPage.value;
      var _ := InitCurrWrAddress();
      ghost var n: nat :| FirstBlankAt(flash.pages[w], n) && curWrAddress == SlotAddress(w, n);
      FirstBlankIsFill(flash.pages[w], n);
      // The search has just stopped at the first blank slot, so the loop that repeats it
      // in the source enters its body at most once, on the branch that programs the slot.
      var pageEndAddress := (1 + w) * PAGE_HALVES - 1;
      if curWrAddress < pageEndAddress {
        CellOfSlot(flash.pages, w, n);
        assert Cell(flash.pages, curWrAddress) == 0xFFFF && Cell(flash.pages, curWrAddress + 1) == 0xFFFF;
        status := ProgramBoth(w, n, d, v);
        return status;
      }
      return PageFull;
    }

    /** Reads variable u from the valid page and, if it is live, copies it. */
    method CopyIfLive(ghost q: nat, u: Half) returns (status: Status)
      requires Placed() && PhaseOf(flash.pages) == Moving(q) && Sound(flash.pages)
      requires InRange(u) && u != Addr(flash.pages[1 - q], 1)
      modifies this, flash
      ensures Placed() && PhaseOf(flash.pages) == Moving(q) && Sound(flash.pages)
      ensures Durable(flash.pages) == old(Durable(flash.pages)) && flash.pages[q] == old(flash.pages[q])
      ensures Latest(flash.pages[q], u).Some? && status != PageFull ==>
                Fill(flash.pages[1 - q]) == old(Fill(flash.pages[1 - q])) + SlotsOf(Latest(flash.pages[q], u).value, old(flash.supply).Taken(2))
      ensures status == PageFull ==> flash.pages == old(flash.pages)
      ensures old(Fill(flash.pages[1 - q])) > 1 ==> Addr(flash.pages[1 - q], 1) == old(Addr(flash.pages[1 - q], 1))
      ensures Latest(flash.pages[q], u).None? ==>
                && status == Complete && curWrAddress == old(curWrAddress)
                && flash.pages == old(flash.pages) && flash.supply == old(flash.supply)
      ensures Latest(flash.pages[q], u).Some? ==>
                status == if old(Fill(flash.pages[1 - q])) == PAGE_SLOTS then PageFull
                          else if old(flash.supply).Can(2) then Complete else FlashError
      ensures Latest(flash.pages[q], u).Some? && status == Complete ==>
                && flash.pages == SlotSteps(old(flash.pages), 1 - q, Fill(old(flash.pages[1 - q])), Latest(flash.pages[q], u).value, u, 2)
                && flash.supply == old(flash.supply).Less(2)
                && curWrAddress == SlotAddress(1 - q, old(Fill(flash.pages[1 - q])) + 1)
    {
      ScannedWhileMoving(u);
      var r := ReadVariable(u);
      if r.Found? {
        dataVar := r.data;
      }
      if r != NotFound {
        ghost var before := flash.pages;
        status := VerifyPageFullWriteVariable(u, dataVar);
        if status != PageFull {
          CopyStep(before, q, u, dataVar, old(flash.supply).Taken(2));
        }
      } else {
        status := Complete;
      }
    }

    /** One round of the copy loop of EE_Init. */
    method RecoverNext(p: nat, u: Half, ghost start: Pages, ghost supplied: Supply) returns (status: Status)
      requires p < 2 && InRange(u) && Placed()
      requires u != Addr(flash.pages[p], 1) && PhaseOf(start) == Moving(1 - p) && Sound(start)
      requires Progress(1 - p, start, supplied, flash.pages, flash.supply, u - 1)
      modifies this, flash
      ensures Placed()
      ensures status == Complete ==> Progress(1 - p, start, supplied, flash.pages, flash.supply, u)
      ensures status != Complete ==>
                && PhaseOf(flash.pages) == Moving(1 - p) && Sound(flash.pages)
                && Durable(flash.pages) == Durable(start) && flash.pages[1 - p] == start[1 - p]
                && Latest(start[1 - p], u).Some?
                && (old(Fill(flash.pages[p])) > 1 ==> Addr(flash.pages[p], 1) == old(Addr(flash.pages[p], 1)))
      ensures status == Complete && old(curWrAddress) == SlotAddress(p, Fill(old(flash.pages[p]))) ==>
                curWrAddress == SlotAddress(p, Fill(flash.pages[p]))
      ensures status == PageFull <==> old(Fill(flash.pages[p])) == PAGE_SLOTS && Latest(start[1 - p], u).Some?
      ensures status == FlashError ==>
                !old(flash.supply).Can(2) && supplied.FailsAfter? && CutCost(start, supplied.steps, flash.pages)
      ensures status == PageFull ==> flash.pages == old(flash.pages)
      ensures status != NoValidPage
    {
      ghost var before, left := flash.pages, flash.supply;
      ProgressMeans(1 - p, start, supplied, before, left, u - 1);
      status := CopyIfLive(1 - p, u);
      if status == Complete {
        RoundDone(1 - p, start, supplied, before, left, flash.pages, flash.supply, u);
      } else if status == FlashError {
        CutShort(1 - p, start, supplied, before, left, flash.pages, u);
      }
    }

    /** The same round, with what its end says of the slots and the power there were. */
    method CopyNext(p: nat, u: Half, ghost start: Pages, ghost supplied: Supply) returns (status: Status)
      requires p < 2 && InRange(u) && Placed()
      requires u != Addr(flash.pages[p], 1) && PhaseOf(start) == Moving(1 - p) && Sound(start)
      requires Progress(1 - p, start, supplied, flash.pages, flash.supply, u - 1)
      modifies this, flash
      ensures Placed() && status != NoValidPage
      ensures status == Complete ==> Progress(1 - p, start, supplied, flash.pages, flash.supply, u)
      ensures status != Complete ==>
                var c, free := Pending(start[1 - p], start[p]), PAGE_SLOTS - Fill(start[p]);
                var stopped :=
                  && PhaseOf(flash.pages) == Moving(1 - p) && Sound(flash.pages)
                  && Durable(flash.pages) == Durable(start) && flash.pages[1 - p] == start[1 - p]
                  && (if status == PageFull then free < c && supplied.Can(2 * free)
                      else !supplied.Can(2 * free) && !supplied.Can(2 * c) && CutCost(start, supplied.steps, flash.pages));
                stopped
    {
      CountMonotone(start[1 - p], Addr(start[p], 1), u, NB_OF_VAR);
      status := RecoverNext(p, u, start, supplied);
    }

    /** The copy loop of EE_Init while page p receives the variables of the other page. */
    method CopyPending(p: nat) returns (status: Status)
      requires p < 2 && Placed() && PhaseOf(flash.pages) == Moving(1 - p) && Sound(flash.pages)
      modifies this, flash
      ensures Placed() && PhaseOf(flash.pages) == Moving(1 - p) && Sound(flash.pages)
      ensures Durable(flash.pages) == old(Durable(flash.pages)) && flash.pages[1 - p] == old(flash.pages[1 - p])
      ensures var c := Pending(old(flash.pages[1 - p]), old(flash.pages[p]));
              var free := PAGE_SLOTS - Fill(old(flash.pages[p]));
              && status != NoValidPage
              && (status == Complete <==> c <= free && old(flash.supply).Can(2 * c))
              && (status == PageFull <==> free < c && old(flash.supply).Can(2 * free))
              && (status == Complete ==> flash.supply == old(flash.supply).Less(2 * c))
      ensures status == Complete ==> Contents(flash.pages[p]) == Durable(flash.pages)
      ensures status != PageFull ==>
                CutCost(old(flash.pages), if status == Complete then 2 * Pending(old(flash.pages[1 - p]), old(flash.pages[p]))
                                          else old(flash.supply).steps, flash.pages)
    {
      ghost var start, supplied := flash.pages, flash.supply;
      var x: int := -1;
      var varIdx := 0;
      while varIdx < NB_OF_VAR
        invariant varIdx <= NB_OF_VAR && x < varIdx && Placed()
        invariant Progress(1 - p, start, supplied, flash.pages, flash.supply, varIdx)
      {
        CellOfSlot(flash.pages, p, 1);
        if Cell(flash.pages, p * PAGE_HALVES + 3) == START_VIR_ADD + varIdx {
          x := varIdx;
        }
        if varIdx != x {
          status := CopyNext(p, START_VIR_ADD + varIdx, start, supplied);
          if status != Complete {
            return status;
          }
        } else {
          ProgressSkips(1 - p, start, supplied, flash.pages, flash.supply, varIdx);
        }
        varIdx := varIdx + 1;
      }
      CopiedAll(1 - p, start, supplied, flash.pages, flash.supply);
      return Complete;
    }

    /** EE_Init with page p receiving and the other valid: copy, mark p valid, erase the other.
        Between those last two steps both pages are valid. */
    method CompleteTransfer(p: nat) returns (status: Status)
      requires p < 2 && Placed() && PhaseOf(flash.pages) == Moving(1 - p) && Sound(flash.pages)
      modifies this, flash
      ensures Placed() && status != NoValidPage
      ensures status == Complete <==> Room(old(flash.pages)) && old(flash.supply).Can(RecoveryCost(old(flash.pages)))
      ensures status == PageFull ==> !Room(old(flash.pages))
      ensures status == Complete ==>
                && PhaseOf(flash.pages) == Stable(p) && IsLog(flash.pages[p]) && flash.pages[1 - p] == BlankPage()
                && Durable(flash.pages) == old(Durable(flash.pages))
      ensures status != Complete ==>
                if Fatal(old(flash.pages), old(flash.supply))
                then TwoValid(flash.pages) && IsLog(flash.pages[1]) && Contents(flash.pages[1]) == Back(old(flash.pages))
                else
                  && PhaseOf(flash.pages) == Moving(1 - p) && Sound(flash.pages)
                  && Durable(flash.pages) == old(Durable(flash.pages))
                  && (Room(old(flash.pages)) ==> CutCost(old(flash.pages), old(flash.supply).steps, flash.pages))
    {
      status := CopyPending(p);
      if status != Complete {
        return status;
      }
      Reheaded(flash.pages[p], VALID_PAGE);
      ProgramHeader(flash.pages, p, VALID_PAGE);
      status := flash.ProgramHalfWord(p * PAGE_HALVES, VALID_PAGE);
      if status != Complete {
        return status;
      }
      status := flash.EraseSector(1 - p);
    }

    /** EE_Format. */
    method Format() returns (status: Status)
      modifies flash
      ensures status == if old(flash.supply).Can(3) then Complete else FlashError
      ensures flash.pages == FormatSteps(old(flash.pages), old(flash.supply).Taken(3))
      ensures status == Complete ==>
                && PhaseOf(flash.pages) == Stable(0) && IsLog(flash.pages[0]) && flash.pages[1] == BlankPage()
                && Durable(flash.pages) == map[]
                && flash.pages[0][0] == 0x0000 && (forall a :: 0 < a < 0x1_0000 ==> flash.pages[0][a] == 0xFFFF)
                && (forall a :: 0 <= a < 0x1_0000 ==> flash.pages[1][a] == 0xFFFF)
      ensures old(PhaseOf(flash.pages).Fresh?) ==>
                && Sound(flash.pages) && !PhaseOf(flash.pages).Corrupt? && !PhaseOf(flash.pages).Moving?
                && Durable(flash.pages) == map[]
    {
      status := flash.EraseSector(0);
      if status != Complete {
        return status;
      }
      ProgramHeader(flash.pages, 0, VALID_PAGE);
      HeaderOnly(BlankPage()[0 := VALID_PAGE]);
      status := flash.ProgramHalfWord(0, VALID_PAGE);
      if status != Complete {
        return status;
      }
      status := flash.EraseSector(1);
    }

    /** Erases the page whose header says it is erased, beside valid page q. */
    method EraseOther(q: nat) returns (status: Status)
      requires q < 2 && PhaseOf(flash.pages) == Stable(q)
      modifies flash
      ensures status == if old(flash.supply).Can(1) then Complete else FlashError
      ensures PhaseOf(flash.pages) == Stable(q) && flash.pages[q] == old(flash.pages[q])
      ensures status == Complete ==> flash.pages[1 - q] == BlankPage()
    {
      status := flash.EraseSector(1 - q);
    }

    /** Erases the other page again and marks the receiving page p valid. */
    method FinishReceiving(p: nat) returns (status: Status)
      requires p < 2 && PhaseOf(flash.pages) == Moved(p) && Sound(flash.pages)
      modifies flash
      ensures status == if old(flash.supply).Can(2) then Complete else FlashError
      ensures status == Complete ==>
                PhaseOf(flash.pages) == Stable(p) && IsLog(flash.pages[p]) && flash.pages[1 - p] == BlankPage()
      ensures Sound(flash.pages) && Durable(flash.pages) == old(Durable(flash.pages))
      ensures !PhaseOf(flash.pages).Corrupt? && !PhaseOf(flash.pages).Moving?
    {
      Reheaded(flash.pages[p], VALID_PAGE);
      status := flash.EraseSector(1 - p);
      if status != Complete {
        return status;
      }
      ProgramHeader(flash.pages, p, VALID_PAGE);
      status := flash.ProgramHalfWord(p * PAGE_HALVES, VALID_PAGE);
    }

    /** EE_Init: brings the two pages back to one valid and one erased page. */
    method Init() returns (status: Status)
      requires Placed() && Sound(flash.pages)
      modifies this, flash
      ensures Placed() && status != NoValidPage
      ensures status == Complete <==> Room(old(flash.pages)) && old(flash.supply).Can(RecoveryCost(old(flash.pages)))
      ensures status == PageFull ==> !Room(old(flash.pages))
      ensures status == Complete ==>
                && PhaseOf(flash.pages).Stable? && IsLog(flash.pages[PhaseOf(flash.pages).valid])
                && flash.pages[1 - PhaseOf(flash.pages).valid] == BlankPage()
                && Durable(flash.pages) == old(Durable(flash.pages))
      ensures old(PhaseOf(flash.pages)).Corrupt? ==>
                flash.pages == FormatSteps(old(flash.pages), old(flash.supply).Taken(3))
      ensures status != Complete && !old(PhaseOf(flash.pages)).Corrupt? ==>
                if Fatal(old(flash.pages), old(flash.supply))
                then TwoValid(flash.pages) && IsLog(flash.pages[1]) && Contents(flash.pages[1]) == Back(old(flash.pages))
                else
                  && Sound(flash.pages) && !PhaseOf(flash.pages).Corrupt? && Durable(flash.pages) == old(Durable(flash.pages))
                  && (Room(old(flash.pages)) ==> CutCost(old(flash.pages), old(flash.supply).steps, flash.pages))
    {
      var pageStatus0, pageStatus1 := flash.pages[0][0], flash.pages[1][0];
      if pageStatus0 == ERASED {
        if pageStatus1 == VALID_PAGE {
          status := EraseOther(1);
        } else if pageStatus1 == RECEIVE_DATA {
          status := FinishReceiving(1);
        } else {
          status := Format();
        }
      } else if pageStatus0 == RECEIVE_DATA {
        if pageStatus1 == VALID_PAGE {
          status := CompleteTransfer(0);
        } else if pageStatus1 == ERASED {
          status := FinishReceiving(0);
        } else {
          status := Format();
        }
      } else if pageStatus0 == VALID_PAGE {
        if pageStatus1 == VALID_PAGE {
          status := Format();
        } else if pageStatus1 == ERASED {
          status := EraseOther(0);
        } else {
          status := CompleteTransfer(1);
        }
      } else {
        status := Format();
      }
    }

    /** EE_Initialize, from whatever this library left in the flash. */
    method Initialize()
      requires Placed() && Sound(flash.pages)
      modifies this, flash
      ensures Placed()
      ensures Room(old(flash.pages)) && old(flash.supply).Can(RecoveryCost(old(flash.pages))) ==>
                Ready() && Variables() == old(Variables())
      ensures old(PhaseOf(flash.pages)).Corrupt? ==>
                flash.pages == FormatSteps(old(flash.pages), old(flash.supply).Taken(3))
      ensures !old(PhaseOf(flash.pages)).Corrupt? ==>
                if Fatal(old(flash.pages), old(flash.supply))
                then
                  && TwoValid(flash.pages) && IsLog(flash.pages[1])
                  && Contents(flash.pages[1]) == Back(old(flash.pages)) && Variables() == map[]
                else Sound(flash.pages) && !PhaseOf(flash.pages).Corrupt? && Variables() == old(Variables())
      ensures !old(PhaseOf(flash.pages)).Corrupt? && !Fatal(old(flash.pages), old(flash.supply))
              && Room(old(flash.pages)) && !old(flash.supply).Can(RecoveryCost(old(flash.pages))) ==>
                CutCost(old(flash.pages), old(flash.supply).steps, flash.pages)
    {
      var _ := Init();
      var _ := InitCurrWrAddress();
      if PhaseOf(flash.pages).Stable? {
        var q := PhaseOf(flash.pages).valid;
        ghost var n: nat :| FirstBlankAt(flash.pages[q], n) && curWrAddress == SlotAddress(q, n);
        if IsLog(flash.pages[q]) {
          FirstBlankIsFill(flash.pages[q], n);
        }
      }
    }

    /** The start of EE_PageTransfer: marks the other page and writes (v, d) there. */
    method OpenTransfer(q: nat, v: Half, d: Half) returns (status: Status)
      requires q < 2 && Placed() && InRange(v)
      requires PhaseOf(flash.pages) == Stable(q) && IsLog(flash.pages[q]) && flash.pages[1 - q] == BlankPage()
      modifies this`curWrAddress, flash
      ensures Placed() && Sound(flash.pages) && flash.pages[q] == old(flash.pages[q])
      ensures status == if old(flash.supply).Can(3) then Complete else FlashError
      ensures Durable(flash.pages) == if status == Complete then old(Durable(flash.pages))[v := d] else old(Durable(flash.pages))
      ensures status == Complete ==>
                && PhaseOf(flash.pages) == Moving(q) && flash.supply == old(flash.supply).Less(3)
                && Fill(flash.pages[1 - q]) == 2 && Addr(flash.pages[1 - q], 1) == v
                && curWrAddress == SlotAddress(1 - q, 2)
      ensures status != Complete ==> Leftover(flash.pages, Count(flash.pages[q], v, NB_OF_VAR))
      ensures old(flash.supply) == FailsAfter(2) && d != ERASED ==>
                LeftBy(flash.pages, 2, Count(flash.pages[q], ERASED, NB_OF_VAR))
    {
      var p := 1 - q;
      ProgramHeader(flash.pages, p, RECEIVE_DATA);
      status := flash.ProgramHalfWord(p * PAGE_HALVES, RECEIVE_DATA);
      if status != Complete {
        return status;
      }
      OpenSteps(old(flash.pages), q, d, v, flash.supply.Taken(2));
      var _ := InitCurrWrAddress();
      status := VerifyPageFullWriteVariable(v, d);
    }

    /** One round of the copy loop of EE_PageTransfer: there is always a slot left. */
    method CopyOther(q: nat, u: Half, ghost start: Pages, ghost supplied: Supply) returns (status: Status)
      requires q < 2 && InRange(u) && Placed() && curWrAddress == SlotAddress(1 - q, Fill(flash.pages[1 - q]))
      requires PhaseOf(start) == Moving(q) && Sound(start) && Fill(start[1 - q]) == 2
      requires InRange(Addr(start[1 - q], 1)) && u != Addr(start[1 - q], 1)
      requires Progress(q, start, supplied, flash.pages, flash.supply, u - 1)
      modifies this, flash
      ensures Placed()
      ensures status == Complete ==>
                && Progress(q, start, supplied, flash.pages, flash.supply, u)
                && curWrAddress == SlotAddress(1 - q, Fill(flash.pages[1 - q]))
      ensures status != Complete ==>
                var cut :=
                  && status == FlashError && PhaseOf(flash.pages) == Moving(q) && Sound(flash.pages)
                  && Durable(flash.pages) == Durable(start) && flash.pages[q] == start[q]
                  && Addr(flash.pages[1 - q], 1) == Addr(start[1 - q], 1)
                  && !supplied.Can(2 * Count(start[q], Addr(start[1 - q], 1), NB_OF_VAR))
                  && Leftover(flash.pages, Count(start[q], Addr(start[1 - q], 1), NB_OF_VAR));
                cut
    {
      CountMonotone(start[q], Addr(start[1 - q], 1), u, NB_OF_VAR);
      status := RecoverNext(1 - q, u, start, supplied);
      if status != Complete {
        CutLeftover(start, supplied.steps, flash.pages);
      }
    }

    /** The copy loop of EE_PageTransfer: every live variable but v, which has slot 1. */
    method CopyOthers(q: nat, v: Half) returns (status: Status)
      requires q < 2 && Placed() && InRange(v) && PhaseOf(flash.pages) == Moving(q) && Sound(flash.pages)
      requires Fill(flash.pages[1 - q]) == 2 && Addr(flash.pages[1 - q], 1) == v && curWrAddress == SlotAddress(1 - q, 2)
      modifies this, flash
      ensures Placed() && PhaseOf(flash.pages) == Moving(q) && Sound(flash.pages) && flash.pages[q] == old(flash.pages[q])
      ensures Durable(flash.pages) == old(Durable(flash.pages)) && Addr(flash.pages[1 - q], 1) == v
      ensures var c := Count(flash.pages[q], v, NB_OF_VAR);
              var outcome :=
                && status == (if old(flash.supply).Can(2 * c) then Complete else FlashError)
                && (status != Complete ==> Leftover(flash.pages, c))
                && (status == Complete ==>
                      && Fill(flash.pages[1 - q]) == 2 + c && flash.supply == old(flash.supply).Less(2 * c)
                      && Contents(flash.pages[1 - q]) == Durable(flash.pages)
                      && curWrAddress == SlotAddress(1 - q, 2 + c));
              outcome
    {
      ghost var start, supplied := flash.pages, flash.supply;
      for varIdx := 0 to NB_OF_VAR
        invariant Placed() && curWrAddress == SlotAddress(1 - q, Fill(flash.pages[1 - q]))
        invariant Progress(q, start, supplied, flash.pages, flash.supply, varIdx)
      {
        if START_VIR_ADD + varIdx != v {
          status := CopyOther(q, START_VIR_ADD + varIdx, start, supplied);
          if status != Complete {
            return status;
          }
        } else {
          ProgressSkips(q, start, supplied, flash.pages, flash.supply, varIdx);
        }
      }
      CopiedAll(q, start, supplied, flash.pages, flash.supply);
      return Complete;
    }

    /** The end of EE_PageTransfer: the old page is erased before the new one is marked valid,
        so at no moment are both valid. */
    method CloseTransfer(q: nat) returns (status: Status)
      requires q < 2 && PhaseOf(flash.pages) == Moving(q) && Sound(flash.pages)
      requires Contents(flash.pages[1 - q]) == Durable(flash.pages)
      modifies flash
      ensures Sound(flash.pages) && Durable(flash.pages) == old(Durable(flash.pages))
      ensures status == if old(flash.supply).Can(2) then Complete else FlashError
      ensures !old(flash.supply).Can(1) ==> flash.pages == old(flash.pages)
      ensures old(flash.supply).Can(1) ==> !PhaseOf(flash.pages).Moving? && !PhaseOf(flash.pages).Corrupt?
      ensures status == Complete ==>
                && PhaseOf(flash.pages) == Stable(1 - q) && flash.pages[q] == BlankPage()
                && Fill(flash.pages[1 - q]) == Fill(old(flash.pages[1 - q]))
    {
      var p := 1 - q;
      Reheaded(flash.pages[p], VALID_PAGE);
      status := flash.EraseSector(q);
      if status != Complete {
        return status;
      }
      ProgramHeader(flash.pages, p, VALID_PAGE);
      status := flash.ProgramHalfWord(p * PAGE_HALVES, VALID_PAGE);
    }

    /** EE_PageTransfer from the commit on, with c other live variables. */
    method FinishTransfer(q: nat, v: Half) returns (status: Status)
      requires q < 2 && Placed() && InRange(v) && PhaseOf(flash.pages) == Moving(q) && Sound(flash.pages)
      requires Fill(flash.pages[1 - q]) == 2 && Addr(flash.pages[1 - q], 1) == v && curWrAddress == SlotAddress(1 - q, 2)
      modifies this, flash
      ensures Placed() && Sound(flash.pages) && Durable(flash.pages) == old(Durable(flash.pages))
      ensures var c := Count(old(flash.pages[q]), v, NB_OF_VAR);
              && status == (if old(flash.supply).Can(2 * c + 2) then Complete else FlashError)
              && (status == Complete ==> Ready() && Fill(flash.pages[PhaseOf(flash.pages).valid]) == 2 + c)
              && (status != Complete ==> Leftover(flash.pages, c))
              && (old(flash.supply) == FailsAfter(2 * c) ==> LeftBy(flash.pages, 2 + c, c))
    {
      status := CopyOthers(q, v);
      if status != Complete {
        return status;
      }
      status := CloseTransfer(q);
    }

    /** EE_PageTransfer.  With c live variables besides v it takes 2c + 5 flash steps, the third
        of which commits the write.  It never runs out of slots, and it leaves one slot per
        variable.  Cut just before the old page is erased, it leaves 2 + c used slots and the
        c variables to be copied again. */
    method PageTransfer(v: Half, d: Half) returns (status: Status)
      requires Placed() && InRange(v) && PhaseOf(flash.pages).Stable?
      requires IsLog(flash.pages[PhaseOf(flash.pages).valid]) && flash.pages[1 - PhaseOf(flash.pages).valid] == BlankPage()
      modifies this, flash
      ensures Placed() && Sound(flash.pages)
      ensures var c := Count(old(flash.pages[PhaseOf(flash.pages).valid]), v, NB_OF_VAR);
              && status == (if old(flash.supply).Can(2 * c + 5) then Complete else FlashError)
              && Durable(flash.pages) == (if old(flash.supply).Can(3) then old(Durable(flash.pages))[v := d] else old(Durable(flash.pages)))
              && (status == Complete ==> Ready() && Fill(flash.pages[PhaseOf(flash.pages).valid]) == 2 + c)
              && (status != Complete ==> Leftover(flash.pages, c))
              && (old(flash.supply) == FailsAfter(2 * c + 3) ==> LeftBy(flash.pages, 2 + c, c))
      ensures WorstLeft(flash.pages, old(flash.supply), v, d, old(Variables()).Keys)
    {
      var q := FindValidPage(flash.pages, ReadFromValidPage).value;
      SizeIsCount(flash.pages[q], v);
      status := OpenTransfer(q, v, d);
      if status != Complete {
        return status;
      }
      status := FinishTransfer(q, v);
    }

    /** A ready store: a page marked valid that holds the variables, the other page erased. */
    lemma ReadyMeans() returns (q: nat, other: nat)
      requires Ready()
      ensures q < 2 && other == 1 - q && flash.pages[q][0] == 0x0000
      ensures forall a :: 0 <= a < 0x1_0000 ==> flash.pages[other][a] == 0xFFFF
      ensures IsLog(flash.pages[q]) && Variables() == Contents(flash.pages[q])
      ensures curWrAddress == 0x1_0000 * q + 2 * Fill(flash.pages[q])
    {
      q := PhaseOf(flash.pages).valid;
      other := 1 - q;
    }

    /** EE_WriteVariable.  The value is stored durably at one particular flash step: cut before
        it, the variables are as they were; cut at any later step, the new value stands. */
    method WriteVariable(v: Half, d: Half) returns (status: Status)
      requires Ready() && InRange(v)
      modifies this, flash
      ensures Placed() && Sound(flash.pages)
      ensures var valid := old(flash.pages[PhaseOf(flash.pages).valid]);
              && status == (if old(flash.supply).Can(WriteCost(valid, v)) then Complete else FlashError)
              && Variables() == (if old(flash.supply).Can(CommitStep(valid)) then old(Variables())[v := d] else old(Variables()))
      ensures status == Complete ==> Ready()
      ensures status != Complete ==> Leftover(flash.pages, |old(Variables()).Keys + {v}| - 1)
      ensures Fill(old(flash.pages[PhaseOf(flash.pages).valid])) == PAGE_SLOTS ==>
                WorstLeft(flash.pages, old(flash.supply), v, d, old(Variables()).Keys)
    {
      ghost var q := PhaseOf(flash.pages).valid;
      SizeAfterWrite(flash.pages[q], v, d);
      if Fill(flash.pages[q]) < PAGE_SLOTS {
        AppendSteps(flash.pages, q, d, v, flash.supply.Taken(2));
      }
      status := VerifyPageFullWriteVariable(v, d);
      if status == PageFull {
        status := PageTransfer(v, d);
      }
    }

    /** EE_WriteVariableByte: the octets in memory order, low octet first. */
    method WriteVariableByte(v: Half, octets: array<Octet>) returns (status: Status)
      requires Ready() && InRange(v) && octets.Length >= 2
      modifies this, flash
      ensures Placed() && Sound(flash.pages)
      ensures var valid := old(flash.pages[PhaseOf(flash.pages).valid]);
              && status == (if old(flash.supply).Can(WriteCost(valid, v)) then Complete else FlashError)
              && if old(flash.supply).Can(CommitStep(valid))
                 then
                   && v in Variables() && Variables() == old(Variables())[v := Variables()[v]]
                   && Variables()[v] % 0x100 == old(octets[0]) && Variables()[v] / 0x100 == old(octets[1])
                 else Variables() == old(Variables())
      ensures status == Complete ==> Ready()
      ensures status != Complete ==> Leftover(flash.pages, |old(Variables()).Keys + {v}| - 1)
    {
      var halfWord: Half := HalfWord(octets[0], octets[1]);
      status := WriteVariable(v, halfWord);
    }

    /** EE_ReadVariableByte: always scans the whole page, and stores the same two octets once
        for each unit of `width`, so not at all when it is 0. */
    method ReadVariableByte(v: Half, octets: array<Octet>, width: nat) returns (r: ReadResult)
      requires Placed() && octets.Length >= 2
      modifies octets
      ensures flash.pages == old(flash.pages)
      ensures Ready() && InRange(v) ==> r == if v in Variables() then Found(Variables()[v]) else NotFound
      ensures r.Found? && width > 0 ==> octets[0] == r.data % 0x100 && octets[1] == r.data / 0x100
      ensures !r.Found? || width == 0 ==> octets[..] == old(octets[..])
      ensures octets[2..] == old(octets[2..])
    {
      if Ready() && InRange(v) {
        ScanIsLookup(flash.pages, PhaseOf(flash.pages).valid, v, PAGE_SLOTS);
      }
      var validPage := FindValidPage(flash.pages, ReadFromValidPage);
      if validPage.None? {
        return NoPage;
      }
      var q := validPage.value;
      var address := (1 + q) * PAGE_HALVES - 1;
      ghost var top := address;
      while address > q * PAGE_HALVES + 1
        invariant address < 2 * PAGE_HALVES
        invariant ScanBack(flash.pages, address, q * PAGE_HALVES + 1, v) == ScanBack(flash.pages, top, q * PAGE_HALVES + 1, v)
      {
        if Cell(flash.pages, address) == v {
          var data := Cell(flash.pages, address - 1);
          for byteCount := 0 to width
            invariant byteCount > 0 ==> octets[0] == data % 0x100 && octets[1] == data / 0x100
            invariant byteCount == 0 ==> octets[..] == old(octets[..])
            invariant octets[2..] == old(octets[2..])
          {
            octets[0] := data % 0x100;
            octets[1] := data / 0x100;
          }
          return Found(data);
        }
        address := address - 2;
      }
      return NotFound;
    }
  }
}
