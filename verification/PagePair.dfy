/** What the two page headers say, and the variables the pair of pages stands for.
    `Durable` is the abstract value of the flash: the map from variables to data that a
    completed EE_Initialize would leave, whatever moment power was lost at. */
module PagePair {
  import opened Arith
  import opened Flash
  import opened PageLog
  import opened Wrappers

  datatype Phase =
    | Fresh                 // both headers erased
    | Stable(valid: nat)    // one page valid, the other erased
    | Moving(valid: nat)    // one page valid, the other receiving
    | Moved(received: nat)  // one page receiving, the other erased
    | Corrupt               // anything else; EE_Init formats it

  function PhaseOf(pages: Pages): Phase {
    var h0, h1 := pages[0][0], pages[1][0];
    if h0 == ERASED && h1 == ERASED then Fresh
    else if h0 == VALID_PAGE && h1 == ERASED then Stable(0)
    else if h0 == ERASED && h1 == VALID_PAGE then Stable(1)
    else if h0 == VALID_PAGE && h1 == RECEIVE_DATA then Moving(0)
    else if h0 == RECEIVE_DATA && h1 == VALID_PAGE then Moving(1)
    else if h0 == RECEIVE_DATA && h1 == ERASED then Moved(0)
    else if h0 == ERASED && h1 == RECEIVE_DATA then Moved(1)
    else Corrupt
  }

  /** The old variables, overridden by the variable in slot 1 of the receiving page. */
  ghost function Merge(src: Page, dst: Page): map<Half, Half> {
    if Addr(dst, 1) == ERASED then Contents(src)
    else Contents(src)[Addr(dst, 1) := Data(dst, 1)]
  }

  ghost function Durable(pages: Pages): map<Half, Half> {
    match PhaseOf(pages)
    case Fresh => map[]
    case Stable(q) => Contents(pages[q])
    case Moving(q) => Merge(pages[q], pages[1 - q])
    case Moved(p) => Contents(pages[p])
    case Corrupt => map[]
  }

  /** By the first halfword of each page: valid pages hold 0x0000, receiving ones 0xEEEE and erased
      ones 0xFFFF.  Beside a valid page only slot 1 of the receiving one counts. */
  lemma DurableMeans(pages: Pages)
    ensures var h0, h1, m0, m1 := pages[0][0], pages[1][0], Contents(pages[0]), Contents(pages[1]);
            && (h0 == 0x0000 && h1 == 0xFFFF ==> Durable(pages) == m0)
            && (h0 == 0xFFFF && h1 == 0x0000 ==> Durable(pages) == m1)
            && (h0 == 0x0000 && h1 == 0xEEEE ==>
                  Durable(pages) == if pages[1][3] == 0xFFFF then m0 else m0[pages[1][3] := pages[1][2]])
            && (h0 == 0xEEEE && h1 == 0x0000 ==>
                  Durable(pages) == if pages[0][3] == 0xFFFF then m1 else m1[pages[0][3] := pages[0][2]])
            && (h0 == 0xEEEE && h1 == 0xFFFF ==> Durable(pages) == m0)
            && (h0 == 0xFFFF && h1 == 0xEEEE ==> Durable(pages) == m1)
            && (h0 == 0xFFFF && h1 == 0xFFFF ==> Durable(pages) == map[])
  {
  }

  /** Every slot after the first of the receiving page is a copy of the newest old data,
      of a variable other than the one in slot 1. */
  ghost predicate Copies(src: Page, dst: Page) {
    && (Addr(dst, 1) == ERASED || InRange(Addr(dst, 1)))
    && forall i: nat :: 2 <= i < PAGE_SLOTS && Addr(dst, i) != ERASED ==>
                          && Addr(dst, i) != Addr(dst, 1)
                          && Latest(src, Addr(dst, i)) == Some(Data(dst, i))
  }

  /** The flash is something this library can have left.  Headers that no completed or
      interrupted operation writes are fine too, except beside a valid page 0. */
  ghost predicate Sound(pages: Pages) {
    match PhaseOf(pages)
    case Fresh => true
    case Stable(q) => IsLog(pages[q])
    case Moving(q) => IsLog(pages[q]) && IsLog(pages[1 - q]) && Copies(pages[q], pages[1 - q])
    case Moved(p) => IsLog(pages[p])
    case Corrupt => pages[0][0] == VALID_PAGE ==> pages[1][0] == VALID_PAGE
  }

  /** Variables still to be copied when recovery meets this half-received page. */
  function Pending(src: Page, dst: Page): nat {
    Count(src, Addr(dst, 1), NB_OF_VAR)
  }

  /** Does the receiving page have a slot for each of them? */
  predicate Room(pages: Pages) {
    match PhaseOf(pages)
    case Moving(q) => Fill(pages[1 - q]) + Pending(pages[q], pages[1 - q]) <= PAGE_SLOTS
    case _ => true
  }

  /** Slot 1 of an empty receiving page takes the variable being written, and that alone
      commits the new value. */
  lemma CommitSlot(src: Page, dst: Page, d: Half, v: Half)
    requires IsLog(src) && IsLog(dst) && Fill(dst) == 1 && InRange(v)
    ensures Merge(src, dst) == Merge(src, PutData(dst, 1, d)) == Contents(src)
    ensures Merge(src, Put(dst, 1, d, v)) == Contents(src)[v := d]
    ensures Copies(src, dst) && Copies(src, PutData(dst, 1, d)) && Copies(src, Put(dst, 1, d, v))
  {
    BlankAbove(dst);
  }

  /** Copying a variable into the next free slot keeps the pair's meaning, whether both
      halves of the slot were written or only the first. */
  lemma CopySlot(src: Page, dst: Page, d: Half, u: Half)
    requires IsLog(src) && IsLog(dst) && Copies(src, dst) && Fill(dst) < PAGE_SLOTS
    requires InRange(u) && Latest(src, u) == Some(d) && u != Addr(dst, 1)
    ensures Merge(src, PutData(dst, Fill(dst), d)) == Merge(src, dst)
    ensures Merge(src, Put(dst, Fill(dst), d, u)) == Merge(src, dst)
    ensures Copies(src, PutData(dst, Fill(dst), d)) && Copies(src, Put(dst, Fill(dst), d, u))
  {
    BlankAbove(dst);
    var n := Fill(dst);
    if n == 1 {
      assert Addr(dst, 1) == ERASED;
      assert Contents(src)[u := d] == Contents(src);
    } else {
      assert Addr(Put(dst, n, d, u), 1) == Addr(PutData(dst, n, d), 1) == Addr(dst, 1);
    }
  }

  /** What a search of the receiving page can find. */
  lemma ReceivedIsMerged(src: Page, dst: Page, u: Half)
    requires Copies(src, dst) && InRange(u)
    ensures Latest(dst, u).Some? ==> u in Merge(src, dst) && Merge(src, dst)[u] == Latest(dst, u).value
  {
    LookupMeans(dst, u, PAGE_SLOTS);
  }

  /** Once every old variable has a copy, the receiving page alone stands for the pair. */
  lemma AllCopied(src: Page, dst: Page)
    requires Copies(src, dst)
    requires forall u: Half :: InRange(u) && Latest(src, u).Some? ==> Latest(dst, u).Some?
    ensures Contents(dst) == Merge(src, dst)
  {
    forall u: Half | InRange(u)
      ensures u in Contents(dst) <==> u in Merge(src, dst)
      ensures u in Contents(dst) ==> Contents(dst)[u] == Merge(src, dst)[u]
    {
      ReceivedIsMerged(src, dst, u);
      LookupMeans(dst, u, PAGE_SLOTS);
      assert Addr(dst, 1) == u ==> Latest(dst, u).Some?;
    }
  }

  /** A page with nothing but its header holds no variable. */
  lemma HeaderOnly(p: Page)
    requires p == BlankPage()[0 := p[0]] && p[0] != ERASED
    ensures IsLog(p) && Fill(p) == 1 && Contents(p) == map[]
  {
    forall i: nat | 1 <= i < PAGE_SLOTS ensures BlankSlot(p, i) {
      assert p[2 * i] == ERASED && p[2 * i + 1] == ERASED;
    }
    FillIs(p, 1);
    BlankAbove(p);
    forall u: Half | InRange(u) ensures Latest(p, u).None? {
      LookupMeans(p, u, PAGE_SLOTS);
    }
  }

  /** Changing a header from one mark to another leaves the log below it alone. */
  lemma Reheaded(p: Page, h: Half)
    requires IsLog(p) && h != ERASED
    ensures IsLog(p[0 := h]) && Fill(p[0 := h]) == Fill(p)
    ensures Contents(p[0 := h]) == Contents(p)
    ensures forall u: Half :: Latest(p[0 := h], u) == Latest(p, u)
    ensures forall i: nat :: 1 <= i < PAGE_SLOTS ==> Addr(p[0 := h], i) == Addr(p, i) && Data(p[0 := h], i) == Data(p, i)
  {
    var r := p[0 := h];
    BlankAbove(p);
    assert !BlankSlot(r, 0);
    forall i: nat | 1 <= i < PAGE_SLOTS
      ensures Addr(r, i) == Addr(p, i) && Data(r, i) == Data(p, i) && BlankSlot(r, i) == BlankSlot(p, i)
    {
    }
    FillIs(r, Fill(p));
    forall u: Half ensures Latest(r, u) == Latest(p, u) {
      LookupFrame(p, r, u, PAGE_SLOTS);
    }
  }

  /** The flash steps EE_Init takes. */
  function RecoveryCost(pages: Pages): nat {
    match PhaseOf(pages)
    case Fresh => 3
    case Stable(_) => 1
    case Moving(q) => 2 * Pending(pages[q], pages[1 - q]) + 2
    case Moved(_) => 2
    case Corrupt => 3
  }

  /** Power fails just when EE_Init has marked the new page valid and not yet erased the old
      one: the only cut of a recovery that loses anything. */
  predicate Fatal(pages: Pages, supply: Supply) {
    PhaseOf(pages).Moving? && Room(pages) && supply == FailsAfter(RecoveryCost(pages) - 1)
  }

  /** What page 1 holds after that cut. */
  ghost function Back(pages: Pages): map<Half, Half> {
    if PhaseOf(pages) == Moving(0) then Durable(pages) else Contents(pages[1])
  }

  predicate TwoValid(pages: Pages) {
    pages[0][0] == pages[1][0] == VALID_PAGE
  }

  /** The pages after k steps of EE_Format: erase page 0, mark it valid, erase page 1. */
  function FormatSteps(pages: Pages, k: nat): Pages {
    if k == 0 then pages
    else if k == 1 then pages[0 := BlankPage()]
    else
      var marked := pages[0 := BlankPage()[0 := VALID_PAGE]];
      if k == 2 then marked else marked[1 := BlankPage()]
  }

  lemma FormatStepsMean(pages: Pages, a: nat)
    requires a < 0x1_0000
    ensures FormatSteps(pages, 0) == pages
    ensures FormatSteps(pages, 1)[0][a] == 0xFFFF && FormatSteps(pages, 1)[1] == pages[1]
    ensures FormatSteps(pages, 2)[0][a] == (if a == 0 then 0x0000 else 0xFFFF) && FormatSteps(pages, 2)[1] == pages[1]
    ensures FormatSteps(pages, 3)[0][a] == (if a == 0 then 0x0000 else 0xFFFF) && FormatSteps(pages, 3)[1][a] == 0xFFFF
  {
  }

  /** The steps of a recovery by the first halfword of each page: with page q valid and the other one
      receiving, two for each variable to copy and two more, and the fatal cut is the one before the
      last of them. */
  lemma RecoveryMeans(pages: Pages, q: nat, supply: Supply)
    requires q < 2
    ensures var h, g, other := pages[q][0], pages[1 - q][0], pages[1 - q];
            var live := |Contents(pages[q]).Keys - {other[3]}|;
            && (h == 0x0000 && g == 0xFFFF ==> RecoveryCost(pages) == 1)
            && (h == 0xEEEE && g == 0xFFFF ==> RecoveryCost(pages) == 2)
            && (h == g == 0xFFFF || h == g == 0x0000 ==> RecoveryCost(pages) == 3)
            && (h == 0x0000 && g == 0xEEEE ==>
                  && RecoveryCost(pages) == 2 * live + 2 && (Room(pages) <==> Fill(other) + live <= 0x8000)
                  && (Fatal(pages, supply) <==> Room(pages) && supply == FailsAfter(2 * live + 1)))
            && (Fatal(pages, supply) ==> (h == 0x0000 && g == 0xEEEE) || (h == 0xEEEE && g == 0x0000))
            && (TwoValid(pages) <==> h == 0x0000 && g == 0x0000)
  {
    CountIsSize(pages[q], Addr(pages[1 - q], 1));
    assert q == 0 || q == 1;
  }

  /** The slots that k flash steps of a copy loop use up: one for every two, and one more for a
      data halfword without its address, unless that data is 0xFFFF and leaves the slot blank. */
  function SlotsTaken(src: Page, skip: int, k: nat): nat {
    k / 2 + if k % 2 == 1 && Nth(src, skip, k / 2, NB_OF_VAR) != Some(ERASED) then 1 else 0
  }

  /** What a recovery cut after k steps, and not at the fatal one, has cost. */
  ghost predicate CutCost(before: Pages, k: nat, now: Pages) {
    match PhaseOf(before)
    case Moving(q) =>
      && PhaseOf(now) == Moving(q) && now[q] == before[q]
      && Fill(now[1 - q]) == Fill(before[1 - q]) + SlotsTaken(before[q], Addr(before[1 - q], 1), k)
      && Pending(now[q], now[1 - q]) <= Pending(before[q], before[1 - q])
      && (Fill(before[1 - q]) > 1 ==> Pending(now[q], now[1 - q]) == Pending(before[q], before[1 - q]))
    case _ => !PhaseOf(now).Moving?
  }

  /** Room for a recovery after j more that are cut. */
  predicate RoomFor(pages: Pages, j: nat) {
    match PhaseOf(pages)
    case Moving(q) => Fill(pages[1 - q]) + (j + 1) * Pending(pages[q], pages[1 - q]) <= PAGE_SLOTS
    case _ => true
  }

  lemma CutLeavesRoom(before: Pages, k: nat, now: Pages, j: nat)
    requires CutCost(before, k, now) && RoomFor(before, j + 1)
    requires PhaseOf(before).Moving? ==> k < RecoveryCost(before) - 1
    ensures RoomFor(now, j)
  {
    if PhaseOf(before).Moving? {
      var q := PhaseOf(before).valid;
      var p, p' := Pending(before[q], before[1 - q]), Pending(now[q], now[1 - q]);
      Monotone(j + 1, p', p);
      assert (j + 2) * p == (j + 1) * p + p;
    }
  }

  lemma RoomForMore(pages: Pages, j: nat)
    requires RoomFor(pages, j)
    ensures Room(pages)
  {
    if PhaseOf(pages).Moving? {
      var q := PhaseOf(pages).valid;
      ScaledUp(j + 1, Pending(pages[q], pages[1 - q]));
    }
  }

  /** What an interrupted write leaves beside c other live variables. */
  ghost predicate Leftover(pages: Pages, c: nat) {
    match PhaseOf(pages)
    case Moving(q) =>
      var n, p := Fill(pages[1 - q]), Pending(pages[q], pages[1 - q]);
      (n <= 2 && p <= c + 1) || (n <= 2 + c && p <= c)
    case Corrupt => false
    case _ => true
  }

  /** A transfer to a page with n used slots, and p variables still to be copied. */
  ghost predicate LeftBy(pages: Pages, n: nat, p: nat) {
    && PhaseOf(pages).Moving?
    && Fill(pages[1 - PhaseOf(pages).valid]) == n
    && Pending(pages[PhaseOf(pages).valid], pages[1 - PhaseOf(pages).valid]) == p
  }

  /** A copy loop cut short leaves no more than that. */
  lemma CutLeftover(before: Pages, k: nat, now: Pages)
    requires PhaseOf(before).Moving? && CutCost(before, k, now)
    requires var q := PhaseOf(before).valid;
             Fill(before[1 - q]) == 2 && k < 2 * Pending(before[q], before[1 - q])
    ensures Leftover(now, Pending(before[PhaseOf(before).valid], before[1 - PhaseOf(before).valid]))
  {
  }

  /** Room among c other variables for a recovery after j that are cut, whatever the moment the
      write was cut at. */
  predicate Budget(c: nat, j: nat) {
    2 + (j + 1) * (c + 1) <= PAGE_SLOTS && 2 + c + (j + 1) * c <= PAGE_SLOTS
  }

  lemma LeftoverFits(pages: Pages, c: nat, j: nat)
    requires Leftover(pages, c) && Budget(c, j)
    ensures RoomFor(pages, j)
  {
    if PhaseOf(pages).Moving? {
      var q := PhaseOf(pages).valid;
      var p := Pending(pages[q], pages[1 - q]);
      if p <= c {
        Monotone(j + 1, p, c);
        Monotone(j + 1, p, c + 1);
      } else {
        Monotone(j + 1, p, c + 1);
      }
    }
  }

  /** Without cut recoveries the budget is 16384 variables. */
  lemma PlainBudget(c: nat)
    ensures Budget(c, 0) <==> c < 16384
  {
  }

  /** The flash steps EE_WriteVariable takes, and the one among them that makes the new
      value durable. */
  function WriteCost(valid: Page, v: Half): nat {
    if Fill(valid) < PAGE_SLOTS then 2 else 2 * Count(valid, v, NB_OF_VAR) + 5
  }

  function CommitStep(valid: Page): nat {
    if Fill(valid) < PAGE_SLOTS then 2 else 3
  }

  /** Two steps for an append; two for each other variable and five more for a transfer, the third of
      which commits. */
  lemma CostsAre(valid: Page, v: Half)
    ensures WriteCost(valid, v) == if Fill(valid) < 0x8000 then 2 else 2 * |Contents(valid).Keys - {v}| + 5
    ensures CommitStep(valid) == if Fill(valid) < 0x8000 then 2 else 3
  {
    CountIsSize(valid, v);
  }
}
