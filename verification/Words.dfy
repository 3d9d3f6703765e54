/** Machine words: arithmetic modulo a power of two. */
module Words {
  import opened Arith

  const WORD16: nat := 0x1_0000
  const WORD32: nat := 0x1_0000_0000

  type Octet = x: int | 0 <= x < 0x100

  type Word = x: int | 0 <= x < WORD32

  function Pow2(k: nat): (p: nat)
    ensures p > 0
  {
    if k == 0 then 1 else 2 * Pow2(k - 1)
  }

  /** A 16-bit pattern read as a signed number. */
  function Signed16(v: int): (r: int)
    ensures -0x8000 <= r < 0x8000
    ensures -0x8000 <= v < 0x8000 ==> r == v
  {
    var u := v % WORD16;
    if u >= 0x8000 then u - WORD16 else u
  }

  /** A 32-bit pattern read as a signed number. */
  function Signed32(v: int): (r: int)
    ensures -0x8000_0000 <= r < 0x8000_0000
    ensures -0x8000_0000 <= v < 0x8000_0000 ==> r == v
  {
    var u := v % WORD32;
    if u >= 0x8000_0000 then u - WORD32 else u
  }

  /** They differ from the patterns by multiples of 2^16 and 2^32. */
  lemma SignedMeans(v: int)
    ensures (v - Signed16(v)) % 0x1_0000 == 0 && (v - Signed32(v)) % 0x1_0000_0000 == 0
  {
  }
}
