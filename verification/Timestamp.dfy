/** The 64-bit timestamp that cpu_core.c keeps from a timer that wraps around. */
module Timestamp {
  import opened Arith
  import opened Words

  const WORD64: nat := 0x1_0000_0000_0000_0000

  /** The timer after a number of ticks: the low 32 - shifts bits of their number, moved to the
      top of a 32-bit word. */
  function TmrRd(ticks: nat, shifts: nat): (r: nat)
    requires shifts < 32
    ensures r < WORD32
  {
    ticks * Pow2(shifts) % WORD32
  }

  /** How many ticks the timer counts before it wraps around. */
  function Range(shifts: nat): nat
    requires shifts < 32
  {
    Pow2(32 - shifts)
  }

  lemma {:induction false} PowerSplits(i: nat, n: nat)
    requires i <= n
    ensures Pow2(n) == Pow2(i) * Pow2(n - i)
  {
    if i > 0 {
      PowerSplits(i - 1, n - 1);
      Associate(2, Pow2(i - 1), Pow2(n - i));
    }
  }

  lemma Pow2Of32()
    ensures Pow2(32) == WORD32
  {
    assert Pow2(4) == 0x10 && Pow2(8) == 0x100 && Pow2(12) == 0x1000 && Pow2(16) == 0x1_0000;
    assert Pow2(20) == 0x10_0000 && Pow2(24) == 0x100_0000 && Pow2(28) == 0x1000_0000;
  }

  lemma DifferenceMod(a: int, b: int, d: int, m: int)
    requires m > 0 && d == a - b
    ensures (a % m - b % m) % m == d % m
  {
    MultipleMod(a / m - b / m, m, a % m - b % m);
    Quotients(a, b, m);
  }

  lemma Quotients(a: int, b: int, m: int)
    requires m > 0
    ensures m * (a / m - b / m) + (a % m - b % m) == a - b
  {
  }

  lemma TimesDifference(x: int, y: int, p: int)
    ensures (x - y) * p == x * p - y * p
  {
  }

  lemma ScaledMod(x: int, p: int, q: int)
    requires p > 0 && q > 0
    ensures x * p % (p * q) == x % q * p
  {
    var r := x % q;
    NonNegative(p, r);
    Monotone(p, r, q - 1);
    assert p * (q - 1) == p * q - p;
    Reassociate(x / q, r, p, q);
    DivModUnique(x * p, p * q, x / q, r * p);
  }

  lemma Reassociate(k: int, r: int, p: int, q: int)
    ensures (q * k + r) * p == (p * q) * k + r * p
  {
  }

  lemma ReadingsApart(now: int, last: int, p: int, q: int, w: int)
    requires p > 0 && q > 0 && w == p * q && w > 0
    ensures (now * p % w - last * p % w) % w == (now - last) % q * p
  {
    TimesDifference(now, last, p);
    DifferenceMod(now * p, last * p, (now - last) * p, w);
    ScaledMod(now - last, p, q);
  }

  /** The difference of two readings, shifted back, is the number of ticks between them, as far
      as the timer can tell. */
  lemma ReadingsDiffer(last: nat, now: nat, shifts: nat)
    requires last <= now && shifts < 32
    ensures (TmrRd(now, shifts) - TmrRd(last, shifts)) % WORD32 / Pow2(shifts) == (now - last) % Range(shifts)
  {
    Pow2Of32();
    PowerSplits(shifts, 32);
    ReadingsApart(now, last, Pow2(shifts), Range(shifts), WORD32);
    Unscaled((now - last) % Range(shifts), Pow2(shifts));
  }

  lemma Unscaled(x: int, p: int)
    requires p > 0
    ensures x * p / p == x
  {
    DivModUnique(x * p, p, x, 0);
  }

  /** The carry into the upper half, found by comparing the sum with an operand. */
  lemma CarryIsExact(lo: nat, hi: nat, delta: nat)
    requires lo < WORD32 && hi < WORD32 && delta < WORD32
    ensures var lo' := (lo + delta) % WORD32;
            var hi' := if lo' < delta then (hi + 1) % WORD32 else hi;
            hi' * WORD32 + lo' == (hi * WORD32 + lo + delta) % WORD64
  {
  }

  /** The ticks counted at the times of the updates. */
  function Counted(start: nat, times: seq<nat>, shifts: nat): nat
    requires shifts < 32
  {
    if times == [] then 0
    else
      var n := |times| - 1;
      Counted(start, times[..n], shifts) + (times[n] - Last(start, times[..n])) % Range(shifts)
  }

  function Last(start: nat, times: seq<nat>): nat {
    if times == [] then start else times[|times| - 1]
  }

  predicate Ascending(start: nat, times: seq<nat>) {
    forall i :: 0 <= i < |times| ==> Last(start, times[..i]) <= times[i]
  }

  lemma AscendingMeans(start: nat, times: seq<nat>)
    ensures Ascending(start, times) <==> forall i :: 0 <= i < |times| ==> (if i == 0 then start else times[i - 1]) <= times[i]
  {
    assert forall i :: 0 <= i < |times| ==> Last(start, times[..i]) == if i == 0 then start else times[i - 1];
  }

  /** Every update comes before the timer has wrapped around. */
  predicate InTime(start: nat, times: seq<nat>, shifts: nat)
    requires shifts < 32
  {
    forall i :: 0 <= i < |times| ==> times[i] - Last(start, times[..i]) < Range(shifts)
  }

  lemma CountOneMore(start: nat, times: seq<nat>, i: nat, shifts: nat)
    requires shifts < 32 && i < |times| && Ascending(start, times)
    ensures var last := Last(start, times[..i]);
            && last <= times[i] == Last(start, times[..i + 1])
            && Counted(start, times[..i + 1], shifts) % WORD64
               == (Counted(start, times[..i], shifts) % WORD64 + (times[i] - last) % Range(shifts)) % WORD64
  {
    assert times[..i + 1][..i] == times[..i];
    AddMod(Counted(start, times[..i], shifts), (times[i] - Last(start, times[..i])) % Range(shifts));
  }

  lemma AddMod(a: int, b: int)
    ensures (a % WORD64 + b) % WORD64 == (a + b) % WORD64
  {
    MultipleMod(a / WORD64, WORD64, a % WORD64 + b);
  }

  /** No time is lost if and only if every update is in time. */
  lemma {:induction false} NoTimeIsLost(start: nat, times: seq<nat>, shifts: nat)
    requires shifts < 32 && Ascending(start, times)
    ensures start + Counted(start, times, shifts) <= Last(start, times)
    ensures start + Counted(start, times, shifts) == Last(start, times) <==> InTime(start, times, shifts)
  {
    if times != [] {
      var n := |times| - 1;
      var t := times[..n];
      assert forall i :: 0 <= i < n ==> t[..i] == times[..i];
      assert Last(start, times[..n]) <= times[n];
      NoTimeIsLost(start, t, shifts);
      RemainderIsLess(times[n] - Last(start, t), Range(shifts));
    }
  }

  class Clock {
    var tsLo: nat
    var tsHi: nat
    var tsPrev: nat
    var tmrNbrShifts: nat

    predicate Valid()
      reads this
    {
      tsLo < WORD32 && tsHi < WORD32 && tmrNbrShifts < 32
    }

    function Time(): nat
      reads this
    {
      tsHi * WORD32 + tsLo
    }

    /** CPU_TS_Init. */
    constructor (shifts: nat, start: nat)
      requires shifts < 32
      ensures Valid() && tmrNbrShifts == shifts && tsLo == 0 && tsHi == 0 && tsPrev == TmrRd(start, shifts)
    {
      tmrNbrShifts := shifts;
      tsLo := 0;
      tsHi := 0;
      tsPrev := TmrRd(start, shifts);
    }

    /** CPU_TS_UpdateHandler, as one step: lower and upper half of the time that was, plus the ticks
        since the last update as far as the timer can tell, in 64 bits. */
    method Update(now: nat, ghost last: nat) returns (lo: nat, hi: nat)
      requires Valid() && last <= now && tsPrev == TmrRd(last, tmrNbrShifts)
      modifies this
      ensures Valid() && tmrNbrShifts == old(tmrNbrShifts) && tsPrev == TmrRd(now, tmrNbrShifts)
      ensures lo < 0x1_0000_0000 && hi < 0x1_0000_0000 && lo == tsLo && hi == tsHi
      ensures hi * 0x1_0000_0000 + lo
              == (old(tsHi) * 0x1_0000_0000 + old(tsLo) + (now - last) % Pow2(32 - tmrNbrShifts)) % 0x1_0000_0000_0000_0000
    {
      ReadingsDiffer(last, now, tmrNbrShifts);
      var cur := TmrRd(now, tmrNbrShifts);
      var delta := (cur - tsPrev) % WORD32;
      delta := delta / Pow2(tmrNbrShifts);
      ShiftedDown((cur - tsPrev) % WORD32, Pow2(tmrNbrShifts));
      CarryIsExact(tsLo, tsHi, delta);
      tsLo := (tsLo + delta) % WORD32;
      if tsLo < delta {
        tsHi := (tsHi + 1) % WORD32;
      }
      tsPrev := cur;
      lo, hi := tsLo, tsHi;
    }

    /** Any run of updates: the timestamp is the number of ticks counted, modulo 2^64, and its halves
        are those of the time elapsed if every update comes in time. */
    method Run(start: nat, times: seq<nat>) returns (lo: nat, hi: nat)
      requires Valid() && tsLo == 0 && tsHi == 0 && tsPrev == TmrRd(start, tmrNbrShifts)
      requires Ascending(start, times)
      modifies this
      ensures Valid() && tmrNbrShifts == old(tmrNbrShifts)
      ensures hi * 0x1_0000_0000 + lo == Counted(start, times, tmrNbrShifts) % 0x1_0000_0000_0000_0000
      ensures InTime(start, times, tmrNbrShifts) ==>
                var elapsed := (if times == [] then start else times[|times| - 1]) - start;
                lo == elapsed % 0x1_0000_0000 && hi == elapsed / 0x1_0000_0000 % 0x1_0000_0000
    {
      lo, hi := tsLo, tsHi;
      var i := 0;
      while i < |times|
        invariant 0 <= i <= |times| && Valid() && tmrNbrShifts == old(tmrNbrShifts)
        invariant tsPrev == TmrRd(Last(start, times[..i]), tmrNbrShifts)
        invariant lo == tsLo && hi == tsHi && Time() == Counted(start, times[..i], tmrNbrShifts) % WORD64
      {
        CountOneMore(start, times, i, tmrNbrShifts);
        lo, hi := Update(times[i], Last(start, times[..i]));
        i := i + 1;
      }
      assert times[..i] == times;
      NoTimeIsLost(start, times, tmrNbrShifts);
      if InTime(start, times, tmrNbrShifts) {
        Halves(Last(start, times) - start, lo, hi);
      }
    }
  }

  lemma Halves(x: nat, lo: nat, hi: nat)
    requires lo < WORD32 && hi < WORD32 && hi * WORD32 + lo == x % WORD64
    ensures lo == x % WORD32 && hi == x / WORD32 % WORD32
  {
    var q := x / WORD64;
    assert x == WORD32 * (WORD32 * q + hi) + lo;
    DivModUnique(x, WORD32, WORD32 * q + hi, lo);
    DivModUnique(x / WORD32, WORD32, q, hi);
  }

  lemma ShiftedDown(x: nat, p: nat)
    requires p > 0
    ensures x / p <= x
  {
    ScaledUp(p, x / p);
    assert x == p * (x / p) + x % p;
  }
}
