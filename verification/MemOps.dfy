/** Mem_Set, Mem_Copy and Mem_Cmp of lib_mem.c: loops over words that do what loops over octets
    would.  Addresses are indices into one array; address 0 is the null pointer. */
module MemOps {
  import opened Arith
  import opened Words

  const ALIGN_SIZE: nat := 4      // sizeof(CPU_ALIGN)

  function WordOf(b0: Octet, b1: Octet, b2: Octet, b3: Octet): (w: int)
    ensures 0 <= w < WORD32
  {
    b0 + 0x100 * (b1 as int) + 0x1_0000 * (b2 as int) + 0x100_0000 * (b3 as int)
  }

  lemma WordIsItsOctets(a: seq<Octet>, b: seq<Octet>)
    requires |a| == |b| == 4
    ensures WordOf(a[0], a[1], a[2], a[3]) == WordOf(b[0], b[1], b[2], b[3]) <==> a == b
  {
    if WordOf(a[0], a[1], a[2], a[3]) == WordOf(b[0], b[1], b[2], b[3]) {
      SameDigit(a[0], a[1] + 0x100 * (a[2] as int) + 0x1_0000 * (a[3] as int), b[0], b[1] + 0x100 * (b[2] as int) + 0x1_0000 * (b[3] as int));
      SameDigit(a[1], a[2] + 0x100 * (a[3] as int), b[1], b[2] + 0x100 * (b[3] as int));
      SameDigit(a[2], a[3], b[2], b[3]);
    }
  }

  lemma SameDigit(a: Octet, x: int, b: Octet, y: int)
    requires a + 0x100 * x == b + 0x100 * y
    ensures a == b && x == y
  {
  }

  /** A word is read at aligned addresses only. */
  method LoadWord(mem: array<Octet>, addr: nat) returns (w: int)
    requires addr % ALIGN_SIZE == 0 && addr + 4 <= mem.Length
    ensures w == WordOf(mem[addr], mem[addr + 1], mem[addr + 2], mem[addr + 3])
  {
    w := WordOf(mem[addr], mem[addr + 1], mem[addr + 2], mem[addr + 3]);
  }

  /** A word is written at aligned addresses only. */
  method StoreWord(mem: array<Octet>, addr: nat, w: int, ghost b: seq<Octet>)
    requires addr % ALIGN_SIZE == 0 && addr + 4 <= mem.Length
    requires |b| == 4 && w == WordOf(b[0], b[1], b[2], b[3])
    modifies mem
    ensures forall a :: 0 <= a < mem.Length ==> mem[a] == if addr <= a < addr + 4 then b[a - addr] else old(mem[a])
  {
    var b0, b1, b2, b3 := OctetsOf(w, b);
    mem[addr] := b0;
    mem[addr + 1] := b1;
    mem[addr + 2] := b2;
    mem[addr + 3] := b3;
  }

  /** The octets of a word, the lowest first. */
  method OctetsOf(w: int, ghost b: seq<Octet>) returns (b0: Octet, b1: Octet, b2: Octet, b3: Octet)
    requires |b| == 4 && w == WordOf(b[0], b[1], b[2], b[3])
    ensures [b0, b1, b2, b3] == b
  {
    Digit(b[0], b[1] + 0x100 * (b[2] as int) + 0x1_0000 * (b[3] as int));
    Digit(b[1], b[2] + 0x100 * (b[3] as int));
    Digit(b[2], b[3]);
    b0 := w % 0x100;
    var rest := w / 0x100;
    b1 := rest % 0x100;
    rest := rest / 0x100;
    b2 := rest % 0x100;
    b3 := rest / 0x100;
  }

  lemma Digit(b: Octet, x: int)
    ensures (b + 0x100 * x) % 0x100 == b && (b + 0x100 * x) / 0x100 == x
  {
  }

  // ----- Mem_Set -----

  /** The octets from addr on that were set. */
  ghost predicate Filled(before: seq<Octet>, after: seq<Octet>, addr: nat, size: nat, val: Octet) {
    |after| == |before|
    && forall a :: 0 <= a < |after| ==> after[a] == if addr <= a < addr + size then val else before[a]
  }

  /** The word whose octets are all val. */
  method Repeated(val: Octet) returns (w: int)
    ensures w == WordOf(val, val, val, val)
  {
    w := 0;
    var i := 0;
    while i < ALIGN_SIZE
      invariant 0 <= i <= 4
      invariant w == if i == 0 then 0 else if i == 1 then val else if i == 2 then 0x101 * (val as int)
                     else if i == 3 then 0x1_0101 * (val as int) else 0x101_0101 * (val as int)
    {
      w := (0x100 * w + val) % WORD32;
      i := i + 1;
    }
  }

  /** Mem_Set. */
  method Set(mem: array<Octet>, pmem: nat, val: Octet, size: nat)
    requires pmem != 0 ==> pmem + size <= mem.Length
    modifies mem
    ensures forall a :: 0 <= a < mem.Length ==>
              mem[a] == if pmem != 0 && pmem <= a < pmem + size then val else old(mem[a])
  {
    if size < 1 || pmem == 0 {
      return;
    }
    var word := Repeated(val);
    var rest, p := size, pmem;
    var i := p % ALIGN_SIZE;
    ghost var base := p - i;
    if i != 0 {
      while rest > 0 && i < ALIGN_SIZE
        invariant 0 <= rest && p + rest == pmem + size && i <= ALIGN_SIZE && p == base + i
        invariant Filled(old(mem[..]), mem[..], pmem, p - pmem, val)
      {
        mem[p] := val;
        p, rest, i := p + 1, rest - 1, i + 1;
      }
    }
    while rest >= ALIGN_SIZE
      invariant 0 <= rest && p + rest == pmem + size && (rest > 0 ==> p % ALIGN_SIZE == 0)
      invariant Filled(old(mem[..]), mem[..], pmem, p - pmem, val)
    {
      StoreWord(mem, p, word, [val, val, val, val]);
      p, rest := p + ALIGN_SIZE, rest - ALIGN_SIZE;
    }
    while rest > 0
      invariant 0 <= rest && p + rest == pmem + size
      invariant Filled(old(mem[..]), mem[..], pmem, p - pmem, val)
    {
      mem[p] := val;
      p, rest := p + 1, rest - 1;
    }
  }

  // ----- Mem_Copy -----

  /** Copying octet by octet, upwards. */
  function Copied(m: seq<Octet>, dest: nat, src: nat, n: nat): (r: seq<Octet>)
    requires dest + n <= |m| && src + n <= |m|
    ensures |r| == |m|
    ensures forall a :: 0 <= a < |m| && !(dest <= a < dest + n) ==> r[a] == m[a]
  {
    if n == 0 then m
    else
      var r := Copied(m, dest, src, n - 1);
      r[dest + n - 1 := r[src + n - 1]]
  }

  /** Unless the destination begins inside the source, the source arrives as it was. */
  lemma {:induction false} CopyArrives(m: seq<Octet>, dest: nat, src: nat, n: nat)
    requires dest + n <= |m| && src + n <= |m| && (dest <= src || src + n <= dest)
    ensures Copied(m, dest, src, n)[dest..dest + n] == m[src..src + n]
  {
    if n > 0 {
      CopyArrives(m, dest, src, n - 1);
      var r := Copied(m, dest, src, n - 1);
      assert r[src + n - 1] == m[src + n - 1];
      assert m[src..src + n] == m[src..src + n - 1] + [m[src + n - 1]];
      assert Copied(m, dest, src, n)[dest..dest + n] == r[dest..dest + n - 1] + [m[src + n - 1]];
    }
  }

  /** If it does, the octets before it are repeated throughout. */
  lemma {:induction false} OverlapRepeats(m: seq<Octet>, dest: nat, src: nat, n: nat, i: nat)
    requires src < dest && dest + n <= |m| && i < n
    ensures (i % (dest - src)) < |m| - src && Copied(m, dest, src, n)[dest + i] == m[src + i % (dest - src)]
  {
    var d := dest - src;
    if i < n - 1 {
      OverlapRepeats(m, dest, src, n - 1, i);
    } else if i >= d {
      OverlapRepeats(m, dest, src, n - 1, i - d);
      MultipleMod(-1, d, i);
    } else {
      DivModUnique(i, d, 0, i);
    }
  }

  /** Either way, what is found where the destination was. */
  lemma CopiedMeans(m: seq<Octet>, dest: nat, src: nat, n: nat)
    requires dest + n <= |m| && src + n <= |m|
    ensures forall a :: dest <= a < dest + n ==>
              Copied(m, dest, src, n)[a] == m[if src < dest < src + n then src + (a - dest) % (dest - src) else src + (a - dest)]
  {
    forall a | dest <= a < dest + n
      ensures Copied(m, dest, src, n)[a] == m[if src < dest < src + n then src + (a - dest) % (dest - src) else src + (a - dest)]
    {
      if src < dest < src + n {
        OverlapRepeats(m, dest, src, n, a - dest);
      } else {
        CopyArrives(m, dest, src, n);
        assert Copied(m, dest, src, n)[dest..dest + n][a - dest] == m[src..src + n][a - dest];
      }
    }
  }

  lemma CopiedStep(m: seq<Octet>, dest: nat, src: nat, n: nat)
    requires dest + n < |m| && src + n < |m|
    ensures Copied(m, dest, src, n + 1) == Copied(m, dest, src, n)[dest + n := Copied(m, dest, src, n)[src + n]]
  {
  }

  /** Four octets read before any of them is written. */
  function WordMoved(r: seq<Octet>, d: nat, s: nat): seq<Octet>
    requires d + 4 <= |r| && s + 4 <= |r|
  {
    r[d := r[s]][d + 1 := r[s + 1]][d + 2 := r[s + 2]][d + 3 := r[s + 3]]
  }

  method MoveWord(mem: array<Octet>, d: nat, s: nat)
    requires d + 4 <= mem.Length && s + 4 <= mem.Length && d % ALIGN_SIZE == 0 && s % ALIGN_SIZE == 0
    modifies mem
    ensures mem[..] == WordMoved(old(mem[..]), d, s)
  {
    ghost var b := mem[s..s + 4];
    var w := LoadWord(mem, s);
    StoreWord(mem, d, w, b);
  }

  /** Four octets at once are the same as four in turn, for any overlap of buffers that are a
      multiple of four apart. */
  lemma WordAtOnce(m: seq<Octet>, dest: nat, src: nat, n: nat)
    requires dest + n + 4 <= |m| && src + n + 4 <= |m| && dest % ALIGN_SIZE == src % ALIGN_SIZE
    ensures Copied(m, dest, src, n + 4) == WordMoved(Copied(m, dest, src, n), dest + n, src + n)
  {
    CopiedStep(m, dest, src, n);
    CopiedStep(m, dest, src, n + 1);
    CopiedStep(m, dest, src, n + 2);
    CopiedStep(m, dest, src, n + 3);
    assert src - dest != -1 && src - dest != -2 && src - dest != -3;
  }

  method CopyOctet(mem: array<Octet>, d: nat, s: nat, ghost m: seq<Octet>, ghost pdest: nat, ghost psrc: nat, ghost n: nat)
    requires d == pdest + n < mem.Length == |m| && s == psrc + n < mem.Length && mem[..] == Copied(m, pdest, psrc, n)
    modifies mem
    ensures mem[..] == Copied(m, pdest, psrc, n + 1)
  {
    CopiedStep(m, pdest, psrc, n);
    mem[d] := mem[s];
  }

  lemma NextWord(addr: nat)
    requires addr % ALIGN_SIZE == 0
    ensures (addr + ALIGN_SIZE) % ALIGN_SIZE == 0
  {
  }

  method CopyWord(mem: array<Octet>, d: nat, s: nat, ghost m: seq<Octet>, ghost pdest: nat, ghost psrc: nat, ghost n: nat)
    requires d == pdest + n <= mem.Length - 4 && s == psrc + n <= mem.Length - 4 && mem.Length == |m|
    requires d % ALIGN_SIZE == 0 && s % ALIGN_SIZE == 0 && pdest % ALIGN_SIZE == psrc % ALIGN_SIZE
    requires mem[..] == Copied(m, pdest, psrc, n)
    modifies mem
    ensures mem[..] == Copied(m, pdest, psrc, n + 4)
  {
    WordAtOnce(m, pdest, psrc, n);
    MoveWord(mem, d, s);
  }

  /** Mem_Copy up to the next word boundary. */
  method CopyLeading(mem: array<Octet>, pdest: nat, psrc: nat, size: nat) returns (rest: nat)
    requires size >= 1 && pdest + size <= mem.Length && psrc + size <= mem.Length
    modifies mem
    ensures rest <= size && (rest > 0 ==> (pdest + size - rest) % ALIGN_SIZE == 0)
    ensures mem[..] == Copied(old(mem[..]), pdest, psrc, size - rest)
  {
    rest := size;
    var d, s, i := pdest, psrc, pdest % ALIGN_SIZE;
    ghost var base := d - i;
    if i != 0 {
      while rest > 0 && i < ALIGN_SIZE
        invariant 0 <= rest <= size && d == pdest + size - rest && s == psrc + size - rest
        invariant i <= ALIGN_SIZE && d == base + i
        invariant mem[..] == Copied(old(mem[..]), pdest, psrc, size - rest)
      {
        CopyOctet(mem, d, s, old(mem[..]), pdest, psrc, size - rest);
        d, s, rest, i := d + 1, s + 1, rest - 1, i + 1;
      }
    }
  }

  /** ... then word by word. */
  method CopyWords(mem: array<Octet>, ghost m: seq<Octet>, pdest: nat, psrc: nat, size: nat, before: nat) returns (rest: nat)
    requires before <= size && pdest + size <= mem.Length == |m| && psrc + size <= mem.Length
    requires pdest % ALIGN_SIZE == psrc % ALIGN_SIZE
    requires before > 0 ==> (pdest + size - before) % ALIGN_SIZE == 0 && (psrc + size - before) % ALIGN_SIZE == 0
    requires mem[..] == Copied(m, pdest, psrc, size - before)
    modifies mem
    ensures rest <= before && mem[..] == Copied(m, pdest, psrc, size - rest)
  {
    rest := before;
    var d, s := pdest + size - rest, psrc + size - rest;
    while rest >= ALIGN_SIZE
      invariant 0 <= rest <= before && d == pdest + size - rest && s == psrc + size - rest
      invariant rest > 0 ==> d % ALIGN_SIZE == 0 && s % ALIGN_SIZE == 0
      invariant mem[..] == Copied(m, pdest, psrc, size - rest)
    {
      CopyWord(mem, d, s, m, pdest, psrc, size - rest);
      NextWord(d);
      NextWord(s);
      d, s, rest := d + ALIGN_SIZE, s + ALIGN_SIZE, rest - ALIGN_SIZE;
    }
  }

  /** ... and the rest by octets. */
  method CopyTrailing(mem: array<Octet>, ghost m: seq<Octet>, pdest: nat, psrc: nat, size: nat, before: nat)
    requires before <= size && pdest + size <= mem.Length == |m| && psrc + size <= mem.Length
    requires mem[..] == Copied(m, pdest, psrc, size - before)
    modifies mem
    ensures mem[..] == Copied(m, pdest, psrc, size)
  {
    var rest := before;
    var d, s := pdest + size - rest, psrc + size - rest;
    while rest > 0
      invariant 0 <= rest <= size && d == pdest + size - rest && s == psrc + size - rest
      invariant mem[..] == Copied(m, pdest, psrc, size - rest)
    {
      CopyOctet(mem, d, s, m, pdest, psrc, size - rest);
      d, s, rest := d + 1, s + 1, rest - 1;
    }
  }

  /** Mem_Copy, for buffers that may overlap. */
  method Copy(mem: array<Octet>, pdest: nat, psrc: nat, size: nat)
    requires pdest != 0 && psrc != 0 ==> pdest + size <= mem.Length && psrc + size <= mem.Length
    modifies mem
    ensures mem[..] == if pdest == 0 || psrc == 0 then old(mem[..]) else Copied(old(mem[..]), pdest, psrc, size)
    ensures forall a :: 0 <= a < mem.Length && !(pdest != 0 && psrc != 0 && pdest <= a < pdest + size) ==> mem[a] == old(mem[a])
    ensures pdest != 0 && psrc != 0 ==>
              forall a :: pdest <= a < pdest + size ==>
                mem[a] == old(mem[..])[if psrc < pdest < psrc + size then psrc + (a - pdest) % (pdest - psrc) else psrc + (a - pdest)]
  {
    if pdest != 0 && psrc != 0 {
      CopiedMeans(mem[..], pdest, psrc, size);
    }
    if size < 1 || pdest == 0 || psrc == 0 {
      return;
    }
    var rest := size;
    if pdest % ALIGN_SIZE == psrc % ALIGN_SIZE {
      rest := CopyLeading(mem, pdest, psrc, size);
      SameAlignment(pdest, psrc, 0, size - rest);
      rest := CopyWords(mem, old(mem[..]), pdest, psrc, size, rest);
    }
    CopyTrailing(mem, old(mem[..]), pdest, psrc, size, rest);
  }

  // ----- Mem_Cmp -----

  /** Positions from and beyond hold the same octets. */
  predicate Same(m: seq<Octet>, p1: nat, p2: nat, from: nat, size: nat)
    requires p1 + size <= |m| && p2 + size <= |m| && from <= size
  {
    m[p1 + from..p1 + size] == m[p2 + from..p2 + size]
  }

  lemma SameBefore(m: seq<Octet>, p1: nat, p2: nat, from: nat, mid: nat, size: nat)
    requires p1 + size <= |m| && p2 + size <= |m| && from <= mid <= size
    ensures Same(m, p1, p2, from, size) <==> m[p1 + from..p1 + mid] == m[p2 + from..p2 + mid] && Same(m, p1, p2, mid, size)
  {
    var a, b := m[p1 + from..p1 + size], m[p2 + from..p2 + size];
    var k := mid - from;
    assert a[..k] == m[p1 + from..p1 + mid] && a[k..] == m[p1 + mid..p1 + size];
    assert b[..k] == m[p2 + from..p2 + mid] && b[k..] == m[p2 + mid..p2 + size];
    assert a == a[..k] + a[k..] && b == b[..k] + b[k..];
  }

  /** One octet further back. */
  method CmpOctet(mem: array<Octet>, e1: nat, e2: nat, ghost p1: nat, ghost p2: nat, ghost rest: nat, ghost size: nat)
    returns (same: bool)
    requires p1 + size <= mem.Length && p2 + size <= mem.Length && rest < size && e1 == p1 + rest && e2 == p2 + rest
    requires Same(mem[..], p1, p2, rest + 1, size)
    ensures same <==> Same(mem[..], p1, p2, rest, size)
  {
    SameBefore(mem[..], p1, p2, rest, rest + 1, size);
    assert mem[..][e1..e1 + 1] == [mem[e1]] && mem[..][e2..e2 + 1] == [mem[e2]];
    same := mem[e1] == mem[e2];
  }

  /** One word further back. */
  method CmpWord(mem: array<Octet>, e1: nat, e2: nat, ghost p1: nat, ghost p2: nat, ghost rest: nat, ghost size: nat)
    returns (same: bool)
    requires p1 + size <= mem.Length && p2 + size <= mem.Length && rest + 4 <= size && e1 == p1 + rest && e2 == p2 + rest
    requires e1 % ALIGN_SIZE == 0 && e2 % ALIGN_SIZE == 0 && Same(mem[..], p1, p2, rest + 4, size)
    ensures same <==> Same(mem[..], p1, p2, rest, size)
  {
    SameBefore(mem[..], p1, p2, rest, rest + 4, size);
    var w1 := LoadWord(mem, e1);
    var w2 := LoadWord(mem, e2);
    WordIsItsOctets(mem[..][e1..e1 + 4], mem[..][e2..e2 + 4]);
    same := w1 == w2;
  }

  /** Mem_Cmp back to a word boundary. */
  method CmpTrailing(mem: array<Octet>, p1: nat, p2: nat, size: nat) returns (same: bool, rest: nat)
    requires size >= 1 && p1 + size <= mem.Length && p2 + size <= mem.Length
    ensures rest <= size && (same && rest > 0 ==> (p1 + rest) % ALIGN_SIZE == 0)
    ensures same <==> Same(mem[..], p1, p2, rest, size)
  {
    same, rest := true, size;
    var e1, e2 := p1 + size, p2 + size;
    var i := e1 % ALIGN_SIZE;
    ghost var base := e1 - i;
    if i != 0 {
      while same && rest > 0 && i > 0
        invariant 0 <= rest <= size && e1 == p1 + rest && e2 == p2 + rest
        invariant 0 <= i < ALIGN_SIZE && e1 == base + i
        invariant same <==> Same(mem[..], p1, p2, rest, size)
      {
        e1, e2, rest, i := e1 - 1, e2 - 1, rest - 1, i - 1;
        same := CmpOctet(mem, e1, e2, p1, p2, rest, size);
      }
    }
  }

  /** ... then word by word. */
  method CmpWords(mem: array<Octet>, p1: nat, p2: nat, size: nat, before: nat) returns (same: bool, rest: nat)
    requires before <= size && p1 + size <= mem.Length && p2 + size <= mem.Length
    requires before > 0 ==> (p1 + before) % ALIGN_SIZE == 0 && (p2 + before) % ALIGN_SIZE == 0
    requires Same(mem[..], p1, p2, before, size)
    ensures rest <= before && (same <==> Same(mem[..], p1, p2, rest, size))
  {
    same, rest := true, before;
    var e1, e2 := p1 + before, p2 + before;
    while same && rest >= ALIGN_SIZE
      invariant 0 <= rest <= before && e1 == p1 + rest && e2 == p2 + rest
      invariant rest > 0 ==> e1 % ALIGN_SIZE == 0 && e2 % ALIGN_SIZE == 0
      invariant same <==> Same(mem[..], p1, p2, rest, size)
    {
      e1, e2, rest := e1 - ALIGN_SIZE, e2 - ALIGN_SIZE, rest - ALIGN_SIZE;
      same := CmpWord(mem, e1, e2, p1, p2, rest, size);
    }
  }

  /** Mem_Cmp, from the ends of the buffers backwards. */
  method Cmp(mem: array<Octet>, p1: nat, p2: nat, size: nat) returns (same: bool)
    requires p1 != 0 && p2 != 0 ==> p1 + size <= mem.Length && p2 + size <= mem.Length
    ensures size == 0 ==> same
    ensures size > 0 && (p1 == 0 || p2 == 0) ==> !same
    ensures size > 0 && p1 != 0 && p2 != 0 ==> (same <==> mem[p1..p1 + size] == mem[p2..p2 + size])
  {
    if size < 1 {
      return true;
    }
    if p1 == 0 || p2 == 0 {
      return false;
    }
    same := true;
    var rest := size;
    if (p1 + size) % ALIGN_SIZE == (p2 + size) % ALIGN_SIZE {
      same, rest := CmpTrailing(mem, p1, p2, size);
      if same {
        SameAlignment(p1, p2, size, rest);
        same, rest := CmpWords(mem, p1, p2, size, rest);
      }
    }
    var e1, e2 := p1 + rest, p2 + rest;
    while same && rest > 0
      invariant 0 <= rest <= size && e1 == p1 + rest && e2 == p2 + rest
      invariant same <==> Same(mem[..], p1, p2, rest, size)
    {
      e1, e2, rest := e1 - 1, e2 - 1, rest - 1;
      same := CmpOctet(mem, e1, e2, p1, p2, rest, size);
    }
    SameBefore(mem[..], p1, p2, 0, rest, size);
    assert mem[..][p1..p1 + size] == mem[p1..p1 + size] && mem[..][p2..p2 + size] == mem[p2..p2 + size];
  }

  lemma SameAlignment(p1: nat, p2: nat, size: nat, rest: nat)
    requires (p1 + size) % ALIGN_SIZE == (p2 + size) % ALIGN_SIZE
    ensures (p1 + rest) % ALIGN_SIZE == 0 <==> (p2 + rest) % ALIGN_SIZE == 0
  {
  }
}
