/**
 * Address arithmetic of the mmap region: the C integer widths the
 * kernel computes in, page rounding, and the 16 fixed 1 MiB windows
 * starting at MMAP_START, one per mapping slot.
 */
module Layout {

  const U64_LIMIT: int := 0x1_0000_0000_0000_0000
  const I32_LIMIT: int := 0x8000_0000

  /** A C `uint64`. */
  type u64 = x: int | 0 <= x < 0x1_0000_0000_0000_0000

  /** A C `int` (32 bits, two's complement). */
  type i32 = x: int | -0x8000_0000 <= x < 0x8000_0000

  /** Page size of the RISC-V Sv39 MMU that xv6 uses. */
  const PGSIZE: int := 4096

  /** Base of the mapping windows: 2^37. */
  const MMAP_START: int := 0x20_0000_0000

  /** Size of one mapping window: 2^20 bytes. */
  const MMAP_SIZE: int := 0x10_0000

  /** Number of mapping slots per process. */
  const NVMA: int := 16

  /** Reduction of a mathematical integer to `uint64`, as C's unsigned arithmetic does. */
  function U64(x: int): (r: u64)
    ensures 0 <= x < U64_LIMIT ==> r == x
    ensures (x - r) % U64_LIMIT == 0
  {
    x % U64_LIMIT
  }

  /** Conversion of an integer to a 32-bit `int` by keeping its low 32 bits (what gcc does on RISC-V). */
  function Int32(x: int): (r: i32)
    ensures -I32_LIMIT <= x < I32_LIMIT ==> r == x
    ensures (x - r) % (2 * I32_LIMIT) == 0
  {
    var m := x % (2 * I32_LIMIT);
    if m < I32_LIMIT then m else m - 2 * I32_LIMIT
  }

  /** PGROUNDDOWN: the base of the page holding `a`. */
  function PgRoundDown(a: u64): (r: u64)
    ensures r % PGSIZE == 0
    ensures r <= a < r + PGSIZE
  {
    a - a % PGSIZE
  }

  /**
   * PGROUNDUP: the least page boundary at or above `a`, computed in
   * `uint64`, so that it wraps to 0 in the topmost page.
   */
  function PgRoundUp(a: u64): (r: u64)
    ensures r % PGSIZE == 0
    ensures a + PGSIZE - 1 < U64_LIMIT ==> a <= r < a + PGSIZE
    ensures a + PGSIZE - 1 >= U64_LIMIT ==> r == 0
  {
    PgRoundDown(U64(a + PGSIZE - 1))
  }

  /** Base address of slot `i`'s window: MMAP_START + i * MMAP_SIZE. */
  function WindowBase(i: int): u64
    requires 0 <= i < NVMA
  {
    MMAP_START + i * MMAP_SIZE
  }

  /** Address `a` lies in slot `i`'s window. */
  predicate InWindow(i: int, a: int)
    requires 0 <= i < NVMA
  {
    WindowBase(i) <= a < WindowBase(i) + MMAP_SIZE
  }

  /**
   * The slot index munmap derives from an address:
   * (PGROUNDDOWN(addr) - MMAP_START) / MMAP_SIZE in `uint64`, stored in an `int`.
   */
  function SlotIndex(addr: u64): (r: i32)
    ensures MMAP_START <= addr < MMAP_START + NVMA * MMAP_SIZE ==> 0 <= r < NVMA && InWindow(r, addr)
  {
    var off := U64(PgRoundDown(addr) - MMAP_START);
    assert MMAP_START <= addr < MMAP_START + NVMA * MMAP_SIZE ==>
             off == PgRoundDown(addr) - MMAP_START && off / MMAP_SIZE == (addr - MMAP_START) / MMAP_SIZE;
    Int32(off / MMAP_SIZE)
  }

  /** Every window starts on a page boundary. */
  lemma WindowAligned(i: int)
    requires 0 <= i < NVMA
    ensures WindowBase(i) % PGSIZE == 0
  {
    assert WindowBase(i) == PGSIZE * (0x200_0000 + 256 * i);
  }

  /** The windows of two distinct slots share no address. */
  lemma WindowsDisjoint(i: int, j: int, a: int)
    requires 0 <= i < NVMA && 0 <= j < NVMA && i != j
    ensures !(InWindow(i, a) && InWindow(j, a))
  {
  }

  /** Every address of slot `i`'s window resolves to slot `i`. */
  lemma SlotIndexOfWindow(i: int, a: u64)
    requires 0 <= i < NVMA && InWindow(i, a)
    ensures SlotIndex(a) == i
  {
    if SlotIndex(a) != i {
      WindowsDisjoint(i, SlotIndex(a), a);
    }
  }
}
