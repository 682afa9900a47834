/**
 * Defects of sys_munmap, each shown on a concrete input against the
 * as-written definitions of module Vma, next to a corrected definition
 * with the property the code evidently intends. The syscall model in
 * module Sysproc keeps the as-written behaviour.
 */
module Findings {
  import opened Wrappers
  import opened Layout
  import opened Vma

  // ---------------------------------------------------------------------
  // The slot index is neither bounds-checked nor checked for use.

  /** An address 2^52 bytes above the windows resolves to slot 0, and one just below them to slot -1. */
  lemma SlotIndexAliases(i: int)
    requires 0 <= i < NVMA
    ensures SlotIndex(MMAP_START + 0x10_0000_0000_0000) == 0
    ensures !InWindow(i, MMAP_START + 0x10_0000_0000_0000)
    ensures SlotIndex(MMAP_START - MMAP_SIZE) == -1
  {
    assert U64(0x10_0000_0000_0000) == 0x10_0000_0000_0000;
    assert 0x10_0000_0000_0000 / MMAP_SIZE == 0x1_0000_0000;
    assert U64(-MMAP_SIZE) == U64_LIMIT - MMAP_SIZE;
    assert (U64_LIMIT - MMAP_SIZE) / MMAP_SIZE == 0xFFF_FFFF_FFFF;
  }

  /**
   * The checked lookup: the used slot whose window holds `a`, or None
   * when no used slot's window does.
   */
  function ResolveSlot(vs: seq<VMA>, a: u64): (r: Option<nat>)
    requires |vs| == NVMA
    ensures r.Some? ==> r.value < NVMA && InWindow(r.value, a) && vs[r.value].used
    ensures r.None? ==> forall i :: 0 <= i < NVMA && InWindow(i, a) ==> !vs[i].used
  {
    if MMAP_START <= a < MMAP_START + NVMA * MMAP_SIZE then
      var i := (a - MMAP_START) / MMAP_SIZE;
      assert InWindow(i, a);
      if vs[i].used then Some(i)
      else
        assert forall m :: 0 <= m < NVMA && m != i ==> !InWindow(m, a) by {
          forall m | 0 <= m < NVMA && m != i
            ensures !InWindow(m, a)
          {
            WindowsDisjoint(i, m, a);
          }
        }
        None
    else None
  }

  // ---------------------------------------------------------------------
  // The page walk: end included, and over the whole record, not the request.

  /** A full 1 MiB mapping in slot `i` has the walk unmap the first page of slot `i + 1`. */
  lemma TeardownReachesNextWindow(i: int, prot: bv32, flags: bv32, f: nat)
    requires 0 <= i < NVMA - 1
    ensures var t := Mapped(i, MMAP_SIZE, prot, flags, f);
            Covered(t.addr, TeardownEnd(t), WindowBase(i + 1)) && InWindow(i + 1, WindowBase(i + 1))
  {
    WindowAligned(i);
    WindowAligned(i + 1);
    assert U64(WindowBase(i) + MMAP_SIZE) == WindowBase(i + 1);
  }

  /**
   * On a two-page mapping, unmapping the first page also unmaps the
   * second, though it lies outside the request and the record keeps it.
   */
  lemma TeardownBeyondRequest(prot: bv32, flags: bv32, f: nat)
    ensures var t := Mapped(0, 2 * PGSIZE, prot, flags, f);
            var second := WindowBase(0) + PGSIZE;
            && Covered(t.addr, TeardownEnd(t), second)
            && !(WindowBase(0) <= second < WindowBase(0) + PGSIZE)
            && UnmapRecord(t, WindowBase(0), PGSIZE).used
  {
    var t := Mapped(0, 2 * PGSIZE, prot, flags, f);
    assert TeardownEnd(t) == WindowBase(0) + 2 * PGSIZE;
    assert PgRoundUp(U64(WindowBase(0) + PGSIZE)) == WindowBase(0) + PGSIZE;
  }

  /**
   * The corrected walk: the pages that meet both the requested range
   * [addr, addr + length) and the live range, both half-open.
   */
  predicate FixedCovered(t: VMA, addr: int, length: int, pg: int)
  {
    && pg % PGSIZE == 0
    && t.addr < pg + PGSIZE && pg < t.addr + t.length
    && addr < pg + PGSIZE && pg < addr + length
  }

  /** The corrected walk over a record inside its window stays inside that window. */
  lemma FixedTeardownInWindow(i: int, t: VMA, addr: int, length: int, pg: int)
    requires 0 <= i < NVMA
    requires WindowBase(i) <= t.addr && t.addr + t.length <= WindowBase(i) + MMAP_SIZE
    requires FixedCovered(t, addr, length, pg)
    ensures InWindow(i, pg)
  {
    WindowAligned(i);
    assert pg > WindowBase(i) - PGSIZE;
  }

  /** The corrected walk touches only pages from the one holding `addr` up to the end of the request. */
  lemma FixedTeardownInRequest(t: VMA, addr: u64, length: int, pg: int)
    requires FixedCovered(t, addr, length, pg)
    ensures PgRoundDown(addr) <= pg < addr + length
  {
  }

  /** On the two-page example, the corrected walk unmaps the first page only. */
  lemma FixedTeardownSparesRest(prot: bv32, flags: bv32, f: nat)
    ensures var t := Mapped(0, 2 * PGSIZE, prot, flags, f);
            && FixedCovered(t, WindowBase(0), PGSIZE, WindowBase(0))
            && !FixedCovered(t, WindowBase(0), PGSIZE, WindowBase(0) + PGSIZE)
  {
    WindowAligned(0);
  }

  // ---------------------------------------------------------------------
  // The record update: front trim, back trim and holes.

  /** Unmapping the first page of a two-page mapping moves its start but keeps its length, so it now ends a page beyond where it did. */
  lemma FrontTrimOverrunsMapping(prot: bv32, flags: bv32, f: nat)
    ensures var t := Mapped(0, 2 * PGSIZE, prot, flags, f);
            var r := UnmapRecord(t, WindowBase(0), PGSIZE);
            && r.used && r.addr == WindowBase(0) + PGSIZE && r.length == 2 * PGSIZE
            && r.addr + r.length == t.addr + t.length + PGSIZE
  {
    var t := Mapped(0, 2 * PGSIZE, prot, flags, f);
    assert TeardownEnd(t) == WindowBase(0) + 2 * PGSIZE;
    assert PgRoundUp(U64(WindowBase(0) + PGSIZE)) == WindowBase(0) + PGSIZE;
  }

  /** Unmapping the last page of a two-page mapping sets its length to minus one page. */
  lemma BackTrimNegativeLength(prot: bv32, flags: bv32, f: nat)
    ensures var t := Mapped(0, 2 * PGSIZE, prot, flags, f);
            var r := UnmapRecord(t, WindowBase(0) + PGSIZE, PGSIZE);
            r.used && r.addr == t.addr && r.length == -PGSIZE
  {
    var t := Mapped(0, 2 * PGSIZE, prot, flags, f);
    assert TeardownEnd(t) == WindowBase(0) + 2 * PGSIZE;
    assert PgRoundUp(U64(WindowBase(0) + 2 * PGSIZE)) == WindowBase(0) + 2 * PGSIZE;
    assert U64(t.addr - (WindowBase(0) + PGSIZE)) == U64_LIMIT - PGSIZE;
    assert (U64_LIMIT - PGSIZE) % (2 * I32_LIMIT) == 2 * I32_LIMIT - PGSIZE;
  }

  /**
   * Unmapping the middle page of a three-page mapping leaves the record
   * as it was, while the walk unmaps all three pages.
   */
  lemma HoleKeepsRecord(prot: bv32, flags: bv32, f: nat)
    ensures var t := Mapped(0, 3 * PGSIZE, prot, flags, f);
            && UnmapRecord(t, WindowBase(0) + PGSIZE, PGSIZE) == t
            && forall k :: 0 <= k < 3 ==> Covered(t.addr, TeardownEnd(t), WindowBase(0) + k * PGSIZE)
  {
    var t := Mapped(0, 3 * PGSIZE, prot, flags, f);
    WindowAligned(0);
    assert TeardownEnd(t) == WindowBase(0) + 3 * PGSIZE;
    assert PgRoundUp(U64(WindowBase(0) + 2 * PGSIZE)) == WindowBase(0) + 2 * PGSIZE;
  }

  /**
   * A request strictly inside the live range whose rounded end reaches
   * an unaligned live end takes the back trim instead: unmapping
   * [base + 4096, base + 8292) from a mapping of 12278 bytes sets its
   * length to minus one page.
   */
  lemma HoleTakesBackTrim(prot: bv32, flags: bv32, f: nat)
    ensures var t := Mapped(0, 3 * PGSIZE - 10, prot, flags, f);
            var addr := WindowBase(0) + PGSIZE;
            && t.addr < addr && addr + 4196 < t.addr + t.length
            && UnmapRecord(t, addr, 4196) == t.(length := -PGSIZE)
  {
    var t := Mapped(0, 3 * PGSIZE - 10, prot, flags, f);
    var addr := WindowBase(0) + PGSIZE;
    assert TeardownEnd(t) == WindowBase(0) + 3 * PGSIZE - 10;
    assert PgRoundUp(U64(addr + 4196)) == WindowBase(0) + 3 * PGSIZE;
    assert U64(t.addr - addr) == U64_LIMIT - PGSIZE;
    assert (U64_LIMIT - PGSIZE) % (2 * I32_LIMIT) == 2 * I32_LIMIT - PGSIZE;
  }

  /**
   * The same happens with a page-aligned live end when the request ends
   * inside the last page: unmapping [base + 4096, base + 8193) from a
   * three-page mapping sets its length to minus one page.
   */
  lemma HoleInLastPageTakesBackTrim(prot: bv32, flags: bv32, f: nat)
    ensures var t := Mapped(0, 3 * PGSIZE, prot, flags, f);
            var addr := WindowBase(0) + PGSIZE;
            && t.addr < addr && addr + 4097 < t.addr + t.length
            && UnmapRecord(t, addr, 4097) == t.(length := -PGSIZE)
  {
    var t := Mapped(0, 3 * PGSIZE, prot, flags, f);
    var addr := WindowBase(0) + PGSIZE;
    assert TeardownEnd(t) == WindowBase(0) + 3 * PGSIZE;
    assert PgRoundUp(U64(addr + 4097)) == WindowBase(0) + 3 * PGSIZE;
    assert U64(t.addr - addr) == U64_LIMIT - PGSIZE;
    assert (U64_LIMIT - PGSIZE) % (2 * I32_LIMIT) == 2 * I32_LIMIT - PGSIZE;
  }

  /** Why a corrected unmap refuses a request. */
  datatype UnmapError = InvalidRegion | Unsupported

  /** Address `x` is in the live range of record `v`. */
  predicate Live(v: VMA, x: int)
  {
    v.used && v.addr <= x < v.addr + v.length
  }

  /**
   * The corrected record update for unmapping [addr, addr + length):
   * an empty request is refused, a request that misses the record
   * changes nothing, one that covers it removes it, one that covers a
   * prefix or a suffix trims it to the rest, and one strictly inside it
   * (which would split it in two) is refused.
   */
  function UnmapFixed(t: VMA, addr: int, length: int): Result<VMA, UnmapError>
    requires t.used && 0 < t.length && t.addr + t.length < U64_LIMIT
  {
    var lo, hi := t.addr, t.addr + t.length;
    var rhi := addr + length;
    if length <= 0 then Err(InvalidRegion)
    else if rhi <= lo || hi <= addr then Ok(t)
    else if addr <= lo && hi <= rhi then Ok(t.(used := false))
    else if addr <= lo then Ok(t.(addr := rhi, length := hi - rhi))
    else if hi <= rhi then Ok(t.(length := addr - lo))
    else Err(Unsupported)
  }

  /**
   * The corrected update removes exactly the requested addresses from
   * the live range, keeps the window, permissions, flags and file, and
   * refuses only empty requests and holes.
   */
  lemma FixedUnmapExact(t: VMA, addr: int, length: int, x: int)
    requires t.used && 0 < t.length && t.addr + t.length < U64_LIMIT
    ensures UnmapFixed(t, addr, length) == Err(InvalidRegion) <==> length <= 0
    ensures UnmapFixed(t, addr, length) == Err(Unsupported) <==>
              0 < length && t.addr < addr && addr + length < t.addr + t.length
    ensures UnmapFixed(t, addr, length).Ok? ==>
              var r := UnmapFixed(t, addr, length).value;
              && (Live(r, x) <==> Live(t, x) && !(addr <= x < addr + length))
              && r.start == t.start && r.perm == t.perm && r.flags == t.flags && r.fp == t.fp
  {
  }

  /** Corrected front trim: unmapping the first `n` bytes of a fresh mapping of `len` bytes leaves the other `len - n`. */
  lemma FixedFrontTrim(i: int, len: i32, n: int, prot: bv32, flags: bv32, f: nat)
    requires 0 <= i < NVMA && 0 < n < len
    ensures var r := UnmapFixed(Mapped(i, len, prot, flags, f), WindowBase(i), n);
            r.Ok? && r.value.used && r.value.addr == WindowBase(i) + n && r.value.length == len - n
  {
  }

  /** Corrected back trim: unmapping the last `n` bytes of a fresh mapping of `len` bytes keeps its start and `len - n` bytes. */
  lemma FixedBackTrim(i: int, len: i32, n: int, prot: bv32, flags: bv32, f: nat)
    requires 0 <= i < NVMA && 0 < n < len
    ensures var r := UnmapFixed(Mapped(i, len, prot, flags, f), WindowBase(i) + len - n, n);
            r.Ok? && r.value.used && r.value.addr == WindowBase(i) && r.value.length == len - n
  {
  }
}
