/** Whole histories of the EEPROM emulation: writes, power cuts at any flash step of any of
    them, and the re-initialization that follows each cut. */
module EepromRuns {
  import opened Arith
  import opened Flash
  import opened PageLog
  import opened PagePair
  import opened Eeprom
  import opened Wrappers

  /** A write, how much power it is going to have, and how much the recoveries after it have
      that are cut in their turn. */
  datatype Request = Request(v: Half, d: Half, supply: Supply, cuts: seq<Supply>)

  /** No recovery is cut at the fatal step. */
  ghost predicate Spared(states: seq<Pages>, cuts: seq<Supply>) {
    forall k :: 0 <= k < |states| && k < |cuts| ==> !Fatal(states[k], cuts[k])
  }

  /** What recoveries make of two valid pages, of which page 1 holds `back`: nothing yet, or page 1
      alone once one is cut after its first step, or no variables once one is completed. */
  ghost function AfterFatal(back: map<Half, Half>, cuts: seq<Supply>): Option<map<Half, Half>> {
    if cuts == [] then None
    else
      var n := |cuts| - 1;
      match AfterFatal(back, cuts[..n])
      case Some(m) => Some(m)
      case None => if cuts[n] == FailsAfter(1) then Some(back) else if cuts[n].Can(3) then Some(map[]) else None
  }

  /** In the end nothing is left of two valid pages unless page 1 has come back. */
  ghost function Rest(back: map<Half, Half>, cuts: seq<Supply>): map<Half, Half> {
    match AfterFatal(back, cuts)
    case Some(m) => m
    case None => map[]
  }

  /** A cut that leaves both pages valid. */
  predicate Idle(cut: Supply) {
    cut == FailsAfter(0) || cut == FailsAfter(2)
  }

  /** The first recovery that is not idle is the one cut after its first step. */
  predicate ComesBack(cuts: seq<Supply>, k: nat) {
    k < |cuts| && cuts[k] == FailsAfter(1) && forall i :: 0 <= i < k ==> Idle(cuts[i])
  }

  ghost predicate BackLater(cuts: seq<Supply>) {
    exists k: nat :: ComesBack(cuts, k)
  }

  /** Page 1 comes back if and only if there is such a one. */
  lemma {:induction false} BackExactly(back: map<Half, Half>, cuts: seq<Supply>)
    ensures AfterFatal(back, cuts).None? <==> forall k :: 0 <= k < |cuts| ==> Idle(cuts[k])
    ensures if BackLater(cuts) then Rest(back, cuts) == back else Rest(back, cuts) == map[]
  {
    if cuts != [] {
      var n := |cuts| - 1;
      var before := cuts[..n];
      BackExactly(back, before);
      assert forall k :: 0 <= k < n ==> before[k] == cuts[k];
      if k: nat :| ComesBack(before, k) {
        assert ComesBack(cuts, k);
      }
      if k: nat :| ComesBack(cuts, k) {
        assert k < n ==> ComesBack(before, k);
      }
      if AfterFatal(back, before).None? && cuts[n] == FailsAfter(1) {
        assert ComesBack(cuts, n);
      }
    }
  }

  ghost predicate FatalAt(states: seq<Pages>, cuts: seq<Supply>, f: nat) {
    f < |states| && f < |cuts| && Fatal(states[f], cuts[f])
  }

  /** What is left of the variables m by recoveries that met these states and were cut there. */
  ghost function Survivors(m: map<Half, Half>, states: seq<Pages>, cuts: seq<Supply>): map<Half, Half> {
    if f: nat :| FatalAt(states, cuts, f) then Rest(Back(states[f]), cuts[f + 1..]) else m
  }

  /** The fatal cut happens once at most, and there what was to be kept was still there. */
  ghost predicate Chain(m: map<Half, Half>, states: seq<Pages>, cuts: seq<Supply>) {
    && |states| <= |cuts|
    && (forall f: nat :: FatalAt(states, cuts, f) ==> Durable(states[f]) == m)
    && (forall f: nat, g: nat :: FatalAt(states, cuts, f) && FatalAt(states, cuts, g) ==> f == g)
  }

  /** Nothing is lost if and only if no recovery is cut at the fatal step, or page 1 comes back
      later and was the receiving page, or held the same variables before. */
  lemma SurvivesExactly(m: map<Half, Half>, states: seq<Pages>, cuts: seq<Supply>)
    requires Chain(m, states, cuts) && m != map[]
    ensures Survivors(m, states, cuts) == m <==>
              forall f: nat :: FatalAt(states, cuts, f) ==>
                (PhaseOf(states[f]) == Moving(0) || Contents(states[f][1]) == m) && BackLater(cuts[f + 1..])
  {
    if f: nat :| FatalAt(states, cuts, f) {
      BackExactly(Back(states[f]), cuts[f + 1..]);
    }
  }

  lemma SurvivorsAmong(m: map<Half, Half>, states: seq<Pages>, cuts: seq<Supply>)
    requires Chain(m, states, cuts)
    ensures Survivors(m, states, cuts).Keys <= m.Keys
  {
    if f: nat :| FatalAt(states, cuts, f) {
      BackExactly(Back(states[f]), cuts[f + 1..]);
    }
  }

  /** The variables after those requests that took effect, and what recoveries left of them. */
  ghost function Replay(m: map<Half, Half>, rs: seq<Request>, done: seq<bool>, states: seq<seq<Pages>>): map<Half, Half>
    requires |done| == |states| == |rs|
  {
    if rs == [] then m
    else
      var n := |rs| - 1;
      var before := Replay(m, rs[..n], done[..n], states[..n]);
      Survivors(if done[n] then before[rs[n].v := rs[n].d] else before, states[n], rs[n].cuts)
  }

  /** A replayed variable has the data of the last request for it that took effect. */
  lemma {:induction false} LastWriteWins(m: map<Half, Half>, rs: seq<Request>, done: seq<bool>, states: seq<seq<Pages>>, a: Half, i: nat)
    requires |done| == |states| == |rs| && i < |rs|
    requires done[i] && rs[i].v == a
    requires forall j :: i < j < |rs| && done[j] ==> rs[j].v != a
    requires forall j :: i <= j < |rs| ==> Spared(states[j], rs[j].cuts)
    ensures a in Replay(m, rs, done, states) && Replay(m, rs, done, states)[a] == rs[i].d
  {
    var n := |rs| - 1;
    assert Spared(states[n], rs[n].cuts);
    if i < n {
      LastWriteWins(m, rs[..n], done[..n], states[..n], a, i);
    }
  }

  /** A variable no request touched is as it was, and missing if it was missing. */
  lemma {:induction false} NeverWritten(m: map<Half, Half>, rs: seq<Request>, done: seq<bool>, states: seq<seq<Pages>>, a: Half)
    requires |done| == |states| == |rs|
    requires forall j :: 0 <= j < |rs| && done[j] ==> rs[j].v != a
    requires forall j :: 0 <= j < |rs| ==> Spared(states[j], rs[j].cuts)
    ensures a in Replay(m, rs, done, states) <==> a in m
    ensures a in m ==> Replay(m, rs, done, states)[a] == m[a]
  {
    if rs != [] {
      var n := |rs| - 1;
      assert Spared(states[n], rs[n].cuts);
      NeverWritten(m, rs[..n], done[..n], states[..n], a);
    }
  }

  /** Where the pages are after a fatal cut and these cuts since. */
  ghost predicate Later(pages: Pages, back: map<Half, Half>, cuts: seq<Supply>) {
    match AfterFatal(back, cuts)
    case None => TwoValid(pages) && IsLog(pages[1]) && Contents(pages[1]) == back
    case Some(m) => Settled(pages) && Durable(pages) == m
  }

  /** No transfer is under way, and EE_Init has nothing to format but blank headers. */
  ghost predicate Settled(pages: Pages) {
    Sound(pages) && !PhaseOf(pages).Moving? && !PhaseOf(pages).Corrupt?
  }

  /** A fatal cut, by what page 1 held, and the cuts since. */
  datatype Loss = Loss(back: map<Half, Half>, past: seq<Supply>)

  /** How the pages stand for the variables m, with room for so many recoveries that are cut. */
  ghost predicate Stands(pages: Pages, m: map<Half, Half>, loss: Option<Loss>, more: nat) {
    match loss
    case None => Sound(pages) && !PhaseOf(pages).Corrupt? && RoomFor(pages, more) && Durable(pages) == m
    case Some(l) => Later(pages, l.back, l.past)
  }

  ghost function Next(loss: Option<Loss>, pages: Pages, cut: Supply): Option<Loss> {
    match loss
    case None => if Fatal(pages, cut) then Some(Loss(Back(pages), [])) else None
    case Some(l) => Some(Loss(l.back, l.past + [cut]))
  }

  /** One of many recoveries. */
  method RecoverOnce(store: Store, cut: Supply, ghost m: map<Half, Half>, ghost loss: Option<Loss>, ghost more: nat)
    requires store.Placed() && Stands(store.flash.pages, m, loss, more + 1)
    modifies store, store.flash
    ensures store.Placed() && Stands(store.flash.pages, m, Next(loss, old(store.flash.pages), cut), more)
  {
    ghost var before := store.flash.pages;
    store.flash.supply := cut;
    if loss.None? {
      RoomForMore(before, more + 1);
    }
    store.Initialize();
    if loss.None? && !Fatal(before, cut) && !cut.Can(RecoveryCost(before)) {
      CutLeavesRoom(before, cut.steps, store.flash.pages, more);
    } else if loss.Some? {
      assert (loss.value.past + [cut])[..|loss.value.past|] == loss.value.past;
      HeaderOnly(BlankPage()[0 := VALID_PAGE]);
    }
  }

  /** Any number of recoveries, each cut wherever its supply says, and what they leave.  With room
      for them all there is room for one more. */
  method Recover(store: Store, cuts: seq<Supply>) returns (ghost states: seq<Pages>)
    requires store.Placed() && Sound(store.flash.pages) && !PhaseOf(store.flash.pages).Corrupt?
    requires RoomFor(store.flash.pages, |cuts|)
    modifies store, store.flash
    ensures store.Placed() && Sound(store.flash.pages) && Room(store.flash.pages)
    ensures |states| == |cuts| && Chain(old(store.Variables()), states, cuts)
    ensures store.Variables() == Survivors(old(store.Variables()), states, cuts)
  {
    states := [];
    ghost var m, f, loss: Option<Loss> := store.Variables(), 0, None;
    for n := 0 to |cuts|
      invariant |states| == n && store.Placed() && Stands(store.flash.pages, m, loss, |cuts| - n)
      invariant loss.None? ==> forall g: nat :: !FatalAt(states, cuts, g)
      invariant loss.Some? ==>
                  && FatalAt(states, cuts, f) && Durable(states[f]) == m && loss == Some(Loss(Back(states[f]), cuts[f + 1..n]))
                  && forall g: nat :: FatalAt(states, cuts, g) ==> g == f
    {
      ghost var before := store.flash.pages;
      RecoverOnce(store, cuts[n], m, loss, |cuts| - n - 1);
      assert forall g: nat :: FatalAt(states + [before], cuts, g) <==> FatalAt(states, cuts, g) || (g == n && Fatal(before, cuts[n]));
      states := states + [before];
      if loss.None? {
        f := n;
      }
      assert cuts[f + 1..n + 1] == if f < n then cuts[f + 1..n] + [cuts[n]] else [];
      loss := Next(loss, before, cuts[n]);
    }
    if loss.None? {
      RoomForMore(store.flash.pages, 0);
    } else {
      assert cuts[f + 1..|cuts|] == cuts[f + 1..];
    }
  }

  /** A write followed, if it was cut, by these recoveries; it took effect if it had power for
      three steps, and not if it had power for one. */
  ghost predicate Served(m: map<Half, Half>, r: Request, done: bool, states: seq<Pages>) {
    && (states == [] || |states| == |r.cuts|)
    && Chain(if done then m[r.v := r.d] else m, states, r.cuts)
    && (r.supply.Can(3) ==> done) && (done ==> r.supply.Can(2))
  }

  /** One write, cut wherever its supply says, followed after a cut by recoveries that are cut as
      well and then by one that is not.  It takes effect exactly if its power lasts for the step
      that commits it. */
  method Perform(store: Store, r: Request, ghost names: set<Half>) returns (done: bool, ghost states: seq<Pages>)
    requires store.Ready() && store.Variables().Keys <= names
    requires InRange(r.v) && r.v in names && (r.supply.Can(2 * |names| + 3) || Budget(|names| - 1, |r.cuts|))
    modifies store, store.flash
    ensures store.Ready() && store.Variables().Keys <= names
    ensures done == r.supply.Can(old(CommitStep(store.flash.pages[PhaseOf(store.flash.pages).valid])))
    ensures Served(old(store.Variables()), r, done, states)
    ensures store.Variables() == Survivors(if done then old(store.Variables())[r.v := r.d] else old(store.Variables()), states, r.cuts)
  {
    states := [];
    store.flash.supply := r.supply;
    var valid := store.flash.pages[PhaseOf(store.flash.pages).valid];
    done := r.supply.Can(CommitStep(valid));
    ghost var keys := store.Variables().Keys + {r.v};
    SubsetSize(keys, names);
    SizeAfterWrite(valid, r.v, r.d);
    var status := store.WriteVariable(r.v, r.d);
    if status != Complete {
      WithinBudget(store.flash.pages, |keys| - 1, |names| - 1, |r.cuts|);
      states := Recover(store, r.cuts);
      store.flash.supply := Steady;
      store.Initialize();
    }
    SurvivorsAmong(if done then old(store.Variables())[r.v := r.d] else old(store.Variables()), states, r.cuts);
  }

  lemma WithinBudget(pages: Pages, c: nat, m: nat, j: nat)
    requires Leftover(pages, c) && c <= m && Budget(m, j)
    ensures RoomFor(pages, j)
  {
    Monotone(j + 1, c, m);
    Monotone(j + 1, c + 1, m + 1);
    LeftoverFits(pages, c, j);
  }

  /** Each of a sequence of writes was served, from what was left before it. */
  ghost predicate AllServed(m: map<Half, Half>, rs: seq<Request>, done: seq<bool>, states: seq<seq<Pages>>)
    requires |done| == |states| == |rs|
  {
    rs == [] ||
    var n := |rs| - 1;
    && AllServed(m, rs[..n], done[..n], states[..n])
    && Served(Replay(m, rs[..n], done[..n], states[..n]), rs[n], done[n], states[n])
  }

  lemma OneMoreServed(m: map<Half, Half>, rs: seq<Request>, done: seq<bool>, states: seq<seq<Pages>>, now: bool, met: seq<Pages>)
    requires |done| == |states| < |rs|
    requires AllServed(m, rs[..|done|], done, states)
    requires Served(Replay(m, rs[..|done|], done, states), rs[|done|], now, met)
    ensures AllServed(m, rs[..|done| + 1], done + [now], states + [met])
    ensures var before, r := Replay(m, rs[..|done|], done, states), rs[|done|];
            Replay(m, rs[..|done| + 1], done + [now], states + [met])
            == Survivors(if now then before[r.v := r.d] else before, met, r.cuts)
  {
    var n := |done|;
    assert rs[..n + 1][..n] == rs[..n] && (done + [now])[..n] == done && (states + [met])[..n] == states;
  }

  lemma {:induction false} EffectNeedsPower(m: map<Half, Half>, rs: seq<Request>, done: seq<bool>, states: seq<seq<Pages>>)
    requires |done| == |states| == |rs| && AllServed(m, rs, done, states)
    ensures forall i :: 0 <= i < |done| ==> (rs[i].supply.Can(3) ==> done[i]) && (done[i] ==> rs[i].supply.Can(2))
  {
    if rs != [] {
      EffectNeedsPower(m, rs[..|rs| - 1], done[..|rs| - 1], states[..|rs| - 1]);
    }
  }

  /** Any sequence of writes to these names that have the power to be completed, or else room for all
      their recoveries.  After each of them and its recoveries the store is ready, and
      in the end its variables are what the writes that took effect and the cuts make of them. */
  method Run(store: Store, rs: seq<Request>, ghost names: set<Half>)
    returns (done: seq<bool>, ghost states: seq<seq<Pages>>)
    requires store.Ready() && store.Variables().Keys <= names
    requires forall r :: r in rs ==>
               InRange(r.v) && r.v in names && (r.supply.Can(2 * |names| + 3) || Budget(|names| - 1, |r.cuts|))
    modifies store, store.flash
    ensures forall i :: 0 <= i < |done| == |rs| ==> (rs[i].supply.Can(3) ==> done[i]) && (done[i] ==> rs[i].supply.Can(2))
    ensures store.Ready() && |states| == |done| == |rs| && AllServed(old(store.Variables()), rs, done, states)
    ensures store.Variables() == Replay(old(store.Variables()), rs, done, states)
  {
    done, states := [], [];
    ghost var m := store.Variables();
    while |done| < |rs|
      invariant store.Ready() && |states| == |done| <= |rs| && AllServed(m, rs[..|done|], done, states)
      invariant store.Variables() == Replay(m, rs[..|done|], done, states)
      invariant store.Variables().Keys <= names
      decreases |rs| - |done|
    {
      var r := rs[|done|];
      var now;
      ghost var met;
      now, met := Perform(store, r, names);
      OneMoreServed(m, rs, done, states, now, met);
      done, states := done + [now], states + [met];
    }
    assert rs[..|rs|] == rs;
    EffectNeedsPower(m, rs, done, states);
  }

  /** A recovery that is cut when all is copied and nothing is marked yet. */
  method ExhaustOnce(store: Store, ghost fill: nat, p: nat)
    requires store.Placed() && Sound(store.flash.pages) && fill > 1
    requires LeftBy(store.flash.pages, fill, p) && Room(store.flash.pages)
    modifies store, store.flash
    ensures store.Placed() && Sound(store.flash.pages) && LeftBy(store.flash.pages, fill + p, p)
    ensures store.Variables() == old(store.Variables())
  {
    store.flash.supply := FailsAfter(2 * p);
    store.Initialize();
  }

  /** After j recoveries like that there is room for one more just when there was room for all of
      them, and the first to find none would be the last. */
  method Exhaust(store: Store, ghost fill: nat, p: nat, j: nat) returns (n: nat)
    requires store.Placed() && Sound(store.flash.pages) && fill > 1 && LeftBy(store.flash.pages, fill, p)
    modifies store, store.flash
    ensures n <= j && Sound(store.flash.pages) && store.Variables() == old(store.Variables())
    ensures Room(store.flash.pages) <==> fill + (j + 1) * p <= PAGE_SLOTS
  {
    n := 0;
    ghost var used := fill;
    while n < j && Room(store.flash.pages)
      invariant n <= j && store.Placed() && Sound(store.flash.pages) && store.Variables() == old(store.Variables())
      invariant used > 1 && LeftBy(store.flash.pages, used, p) && used == fill + n * p
    {
      ExhaustOnce(store, used, p);
      assert (n + 1) * p == n * p + p;
      used := used + p;
      n := n + 1;
    }
    RoomLeft(store.flash.pages, used, fill, n, j, p);
  }

  lemma RoomLeft(pages: Pages, used: nat, fill: nat, n: nat, j: nat, p: nat)
    requires LeftBy(pages, used, p) && used == fill + n * p && n <= j && (n < j ==> !Room(pages))
    ensures Room(pages) <==> fill + (j + 1) * p <= PAGE_SLOTS
  {
    Monotone(p, n + 1, j + 1);
    assert (n + 1) * p == n * p + p && p * (n + 1) == (n + 1) * p && p * (j + 1) == (j + 1) * p;
  }

  /** The budget is needed: when the page is full and the names are those of the variables there
      are, some cut of a write and j or fewer cut recoveries, none of them fatal, leave no room if
      it does not hold. */
  method BudgetIsNeeded(store: Store, v: Half, d: Half, j: nat) returns (n: nat)
    requires store.Ready() && v in store.Variables().Keys && d != ERASED
    requires Fill(store.flash.pages[PhaseOf(store.flash.pages).valid]) == PAGE_SLOTS
    requires !Budget(|store.Variables().Keys| - 1, j)
    modifies store, store.flash
    ensures n <= j && Sound(store.flash.pages) && !Room(store.flash.pages)
    ensures store.Variables() in {old(store.Variables()), old(store.Variables())[v := d]}
  {
    var valid := store.flash.pages[PhaseOf(store.flash.pages).valid];
    var c := Count(valid, v, NB_OF_VAR);
    SizeIsCount(valid, v);
    if 2 + (j + 1) * (c + 1) > PAGE_SLOTS {
      store.flash.supply := FailsAfter(2);
      var _ := store.WriteVariable(v, d);
      n := Exhaust(store, 2, c + 1, j);
    } else {
      store.flash.supply := FailsAfter(2 * c + 3);
      var _ := store.WriteVariable(v, d);
      n := Exhaust(store, 2 + c, c, j);
    }
  }
}
