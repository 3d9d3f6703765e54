/** Page-wise writing of stm322xg_eval_i2c_ee.c, to a device that rolls over inside a page. */
module I2cEeprom {
  import opened Words

  const PAGE_SIZE := 32

  type Memory = m: seq<Octet> | |m| == WORD16 witness seq(WORD16, _ => 0)

  /** Where octet k of a page write goes: past the end of the page it starts over. */
  function PageCell(addr: nat, k: nat): (a: nat)
    requires addr < WORD16
    ensures a / PAGE_SIZE == addr / PAGE_SIZE
    ensures addr % PAGE_SIZE + k < PAGE_SIZE ==> a == addr + k
  {
    addr - addr % PAGE_SIZE + (addr % PAGE_SIZE + k) % PAGE_SIZE
  }

  /** The device: what one page write does. */
  function PageWritten(m: Memory, addr: nat, data: seq<Octet>): Memory
    requires addr < WORD16
  {
    if data == [] then m
    else
      var n := |data| - 1;
      PageWritten(m, addr, data[..n])[PageCell(addr, n) := data[n]]
  }

  /** How far a is past addr, going round the 16-bit addresses. */
  function Past(a: int, addr: int): nat {
    (a - addr) % WORD16
  }

  /** What the caller wants: the octets one after the other. */
  function Splice(m: Memory, addr: nat, data: seq<Octet>): (s: Memory)
    ensures forall a :: 0 <= a < WORD16 ==> s[a] == if Past(a, addr) < |data| then data[Past(a, addr)] else m[a]
  {
    seq(WORD16, a requires 0 <= a < WORD16 => if Past(a, addr) < |data| then data[Past(a, addr)] else m[a])
  }

  /** Within one page a page write is what the caller wants. */
  lemma {:induction false} WithinPage(m: Memory, addr: nat, data: seq<Octet>)
    requires addr < WORD16 && addr % PAGE_SIZE + |data| <= PAGE_SIZE
    ensures PageWritten(m, addr, data) == Splice(m, addr, data)
  {
    if data == [] {
      assert Splice(m, addr, data) == m;
    } else {
      var n := |data| - 1;
      WithinPage(m, addr, data[..n]);
      AddCell(m, addr, data);
    }
  }

  lemma AddCell(m: Memory, addr: nat, data: seq<Octet>)
    requires data != [] && addr + |data| <= WORD16
    ensures Splice(m, addr, data) == Splice(m, addr, data[..|data| - 1])[addr + |data| - 1 := data[|data| - 1]]
  {
  }

  /** In any case only cells of that page change. */
  lemma {:induction false} OnlyThisPage(m: Memory, addr: nat, data: seq<Octet>, a: nat)
    requires addr < WORD16 && a < WORD16 && a / PAGE_SIZE != addr / PAGE_SIZE
    ensures PageWritten(m, addr, data)[a] == m[a]
  {
    if data != [] {
      OnlyThisPage(m, addr, data[..|data| - 1], a);
    }
  }

  lemma SpliceOn(m: Memory, addr: nat, d: seq<Octet>, e: seq<Octet>)
    requires |d| + |e| <= WORD16
    ensures Splice(Splice(m, addr, d), (addr + |d|) % WORD16, e) == Splice(m, addr, d + e)
  {
    forall a: nat | a < WORD16
      ensures Splice(Splice(m, addr, d), (addr + |d|) % WORD16, e)[a] == Splice(m, addr, d + e)[a]
    {
      PastOn(a, addr, |d|);
    }
  }

  lemma PastOn(a: int, addr: int, n: int)
    requires 0 <= n <= WORD16
    ensures Past(a, (addr + n) % WORD16) == if Past(a, addr) >= n then Past(a, addr) - n else Past(a, addr) - n + WORD16
  {
  }

  /** The last octet of a splice that stops short is as it was. */
  lemma LastUntouched(m: Memory, writeAddr: nat, data: seq<Octet>, at: nat)
    requires at < |data| < WORD16 && writeAddr < WORD16
    ensures var last := (writeAddr + |data| - 1) % WORD16; Splice(m, writeAddr, data[..at])[last] == m[last]
  {
  }

  lemma SecondFits(m: Memory, memory: Memory, writeAddr: nat, data: seq<Octet>, count: nat)
    requires count < |data| < PAGE_SIZE && writeAddr < WORD16 && (writeAddr + count) % PAGE_SIZE == 0
    requires memory == Splice(m, writeAddr, data[..count])
    ensures (|data| - count) % 0x100 == |data| - count
    ensures PageWritten(memory, (writeAddr + count) % WORD16, data[count..]) == Splice(m, writeAddr, data)
  {
    WithinPage(memory, (writeAddr + count) % WORD16, data[count..]);
    SpliceOn(m, writeAddr, data[..count], data[count..]);
    assert data[..count] + data[count..] == data;
  }

  lemma SecondIsCut(m: Memory, memory: Memory, writeAddr: nat, data: seq<Octet>, count: nat)
    requires count < PAGE_SIZE && 8191 < |data| < WORD16 && writeAddr < WORD16 && (writeAddr + count) % PAGE_SIZE == 0
    requires memory == Splice(m, writeAddr, data[..count]) && |data| < WORD16 - 2 * PAGE_SIZE
    ensures var last, rest := (writeAddr + |data| - 1) % WORD16, (|data| - count) % 0x100;
            PageWritten(memory, (writeAddr + count) % WORD16, data[count..count + rest])[last] == m[last]
  {
    var last, rest := (writeAddr + |data| - 1) % WORD16, (|data| - count) % 0x100;
    LastUntouched(m, writeAddr, data, count);
    AnotherPage(writeAddr + count, |data| - 1 - count);
    assert writeAddr + count + (|data| - 1 - count) == writeAddr + |data| - 1;
    OnlyThisPage(memory, (writeAddr + count) % WORD16, data[count..count + rest], last);
  }

  lemma AnotherPage(a: nat, n: nat)
    requires PAGE_SIZE <= n < WORD16 - PAGE_SIZE
    ensures (a + n) % WORD16 / PAGE_SIZE != a % WORD16 / PAGE_SIZE
  {
  }

  lemma NoFullPage(n: nat)
    requires n / PAGE_SIZE % 0x100 == 0 && n < WORD16
    ensures n < PAGE_SIZE || 8191 < n < WORD16 - 2 * PAGE_SIZE
  {
  }

  class Device {
    var memory: Memory

    /** sEE_WritePage. */
    method WritePage(data: seq<Octet>, addr: nat)
      requires addr < WORD16
      modifies this
      ensures memory == PageWritten(old(memory), addr, data)
    {
      var i := 0;
      while i < |data|
        invariant 0 <= i <= |data| && memory == PageWritten(old(memory), addr, data[..i])
      {
        memory := memory[PageCell(addr, i) := data[i]];
        assert data[..i + 1][..i] == data[..i];
        i := i + 1;
      }
      assert data[..i] == data;
    }

    /** Writes from position at up to position next of the buffer, without leaving the page. */
    method WritePart(ghost m: Memory, writeAddr: nat, data: seq<Octet>, at: nat, next: nat, addr: nat)
      requires at <= next <= |data| <= WORD16 && writeAddr < WORD16
      requires addr == (writeAddr + at) % WORD16 && addr % PAGE_SIZE + next - at <= PAGE_SIZE
      requires memory == Splice(m, writeAddr, data[..at])
      modifies this
      ensures memory == Splice(m, writeAddr, data[..next])
    {
      WithinPage(memory, addr, data[at..next]);
      SpliceOn(m, writeAddr, data[..at], data[at..next]);
      assert data[..at] + data[at..next] == data[..next];
      WritePage(data[at..next], addr);
    }

    /** The two loops of sEE_WriteBuffer that write full pages. */
    method WritePages(ghost m: Memory, writeAddr: nat, data: seq<Octet>, start: nat, pages: nat)
      returns (addr: nat, at: nat)
      requires start + PAGE_SIZE * pages <= |data| < WORD16 && writeAddr < WORD16
      requires (writeAddr + start) % PAGE_SIZE == 0
      requires memory == Splice(m, writeAddr, data[..start])
      modifies this
      ensures at == start + PAGE_SIZE * pages && addr == (writeAddr + at) % WORD16 && addr % PAGE_SIZE == 0
      ensures memory == Splice(m, writeAddr, data[..at])
    {
      addr, at := (writeAddr + start) % WORD16, start;
      var left := pages;
      while left > 0
        invariant 0 <= left <= pages && at == start + PAGE_SIZE * (pages - left)
        invariant addr == (writeAddr + at) % WORD16 && addr % PAGE_SIZE == 0
        invariant memory == Splice(m, writeAddr, data[..at])
      {
        WritePart(m, writeAddr, data, at, at + PAGE_SIZE, addr);
        addr := (addr + PAGE_SIZE) % WORD16;
        at := at + PAGE_SIZE;
        left := left - 1;
      }
    }

    /** sEE_WriteBuffer.  The page counter has eight bits: up to 8191 octets arrive exactly where
        they should, and of anything longer the last octet is never written. */
    method WriteBuffer(data: seq<Octet>, writeAddr: nat)
      requires 1 <= |data| < WORD16 && writeAddr < WORD16
      modifies this
      ensures |data| <= 8191 ==>
                forall a :: 0 <= a < 0x1_0000 ==>
                  var past := (a - writeAddr) % 0x1_0000;
                  memory[a] == if past < |data| then data[past] else old(memory)[a]
      ensures |data| > 8191 ==>
                var last := (writeAddr + |data| - 1) % 0x1_0000; memory[last] == old(memory)[last]
    {
      ghost var m := memory;
      var n := |data|;
      var offset := writeAddr % PAGE_SIZE;
      var count := PAGE_SIZE - offset;
      var numOfPage, numOfSingle := n / PAGE_SIZE % 0x100, n % PAGE_SIZE;
      assert data[..n] == data && memory == Splice(m, writeAddr, data[..0]);
      if offset == 0 && numOfPage == 0 {
        WritePart(m, writeAddr, data, 0, numOfSingle, writeAddr);
        if n > 8191 {
          LastUntouched(m, writeAddr, data, numOfSingle);
        }
      } else if offset == 0 {
        WriteRest(m, writeAddr, data, 0, numOfPage, numOfSingle);
      } else if numOfPage == 0 {
        if n > count {
          WritePart(m, writeAddr, data, 0, count, writeAddr);
          NoFullPage(n);
          WriteSecond(m, writeAddr, data, count);
        } else {
          WritePart(m, writeAddr, data, 0, numOfSingle, writeAddr);
        }
      } else {
        numOfPage, numOfSingle := (n - count) / PAGE_SIZE % 0x100, (n - count) % PAGE_SIZE;
        WritePart(m, writeAddr, data, 0, count, writeAddr);
        WriteRest(m, writeAddr, data, count, numOfPage, numOfSingle);
      }
    }

    /** Full pages and the single octets after them, from the start of a page on. */
    method WriteRest(ghost m: Memory, writeAddr: nat, data: seq<Octet>, start: nat, numOfPage: nat, numOfSingle: nat)
      requires start <= |data| < WORD16 && 1 <= |data| && writeAddr < WORD16 && (writeAddr + start) % PAGE_SIZE == 0
      requires numOfPage == (|data| - start) / PAGE_SIZE % 0x100 && numOfSingle == (|data| - start) % PAGE_SIZE
      requires memory == Splice(m, writeAddr, data[..start])
      modifies this
      ensures |data| - start <= 8191 ==> memory == Splice(m, writeAddr, data)
      ensures |data| - start > 8191 ==> var last := (writeAddr + |data| - 1) % WORD16; memory[last] == m[last]
    {
      var n := |data| - start;
      var addr, at := WritePages(m, writeAddr, data, start, numOfPage);
      if numOfSingle != 0 {
        WritePart(m, writeAddr, data, at, at + numOfSingle, addr);
        at := at + numOfSingle;
      }
      if n <= 8191 {
        assert data[..at] == data;
      } else {
        LastUntouched(m, writeAddr, data, at);
      }
    }

    /** The second of two page writes; its length is cut to the eight bits of sEEDataNum. */
    method WriteSecond(ghost m: Memory, writeAddr: nat, data: seq<Octet>, count: nat)
      requires count < |data| < WORD16 && writeAddr < WORD16 && count < PAGE_SIZE && (writeAddr + count) % PAGE_SIZE == 0
      requires |data| < PAGE_SIZE || 8191 < |data| < WORD16 - 2 * PAGE_SIZE
      requires memory == Splice(m, writeAddr, data[..count])
      modifies this
      ensures |data| <= 8191 ==> memory == Splice(m, writeAddr, data)
      ensures |data| > 8191 ==> var last := (writeAddr + |data| - 1) % WORD16; memory[last] == m[last]
    {
      var addr := (writeAddr + count) % WORD16;
      var rest := (|data| - count) % 0x100;
      if |data| <= 8191 {
        SecondFits(m, memory, writeAddr, data, count);
        assert data[count..count + rest] == data[count..];
      } else {
        SecondIsCut(m, memory, writeAddr, data, count);
      }
      WritePage(data[count..count + rest], addr);
    }
  }
}
