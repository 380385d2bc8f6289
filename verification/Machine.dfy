/** Word-addressed memory and the 64-bit arithmetic the C sources rely on. */
module Machine {
  /** The code as it stands, or with the smallest repairs of the defects found in it. */
  datatype Build = Shipped | Repaired

  /** Memory maps the byte address of an 8-byte word to its value; a word never written reads as 0. */
  type Memory = map<int, int>

  /** 2^64: every `uint64` expression is taken modulo this. */
  const W64: int := 0x1_0000_0000_0000_0000

  const PAGE_SIZE: int := 4096

  /** 2^52: the page entry format holds no physical address at or beyond this. */
  const MAX_PADDR: int := 0x10_0000_0000_0000

  function Rd(m: Memory, a: int): int {
    if a in m then m[a] else 0
  }

  /** The memories agree outside [from, to). */
  ghost predicate Within(m: Memory, m': Memory, from: int, to: int) {
    forall w {:trigger Rd(m', w)} | w < from || to <= w :: Rd(m', w) == Rd(m, w)
  }

  function Add64(a: int, b: int): int {
    (a + b) % W64
  }

  function Sub64(a: int, b: int): int {
    (a - b) % W64
  }

  /** PAGE_SIZE_ALIGN, for an address that does not wrap. */
  function PageSizeAlign(n: int): int {
    n + 4095 - (n + 4095) % 4096
  }

  /** PAGE_ALIGN */
  function PageAlign(n: int): int {
    n - n % 4096
  }

  /** The memory all C code reads and writes through pointers. */
  class Ram {
    var m: Memory

    constructor (m: Memory)
      ensures this.m == m
    {
      this.m := m;
    }
  }
}
