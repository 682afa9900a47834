# xv6 mmap / munmap: a Dafny model of the mapping table

This project models the memory-mapped-file bookkeeping of an xv6 kernel
(`sys_mmap` and `sys_munmap` in `xv6/kernel/sysproc.c`). Each process owns
16 mapping records (`struct VMA`). Slot `i` owns the fixed 1 MiB window
starting at `MMAP_START + i * MMAP_SIZE`, with `MMAP_START = 2^37` and
`MMAP_SIZE = 2^20`.

- `sys_mmap` checks the caller's descriptor. It must be non-null and
  inode-backed, and it must be writable when the request is both
  `MAP_SHARED` and `PROT_WRITE`. It then takes the lowest free slot,
  fills in the record, takes one more reference to the file with
  `filedup`, and returns the window base.
- `sys_munmap` computes the slot from the address and walks the record's
  pages. Each page that has a translation is written back if the mapping
  is shared, then unmapped. Finally the record is removed (with
  `fileclose`), trimmed at the front, trimmed at the back, or left as it
  is.

Modules:

- `Layout` (layout.dfy): the C widths the kernel computes in (`uint64`
  wrap-around, 32-bit `int` truncation), page rounding, the windows, and
  the slot index munmap derives from an address.
- `Files` (files.dfy): the kernel's file-table entries. Each entry has a
  kind, a writable bit and a reference count. `filedup` and `fileclose`
  are the methods `Dup` and `Close` on the table.
- `Vma` (vma.dfy): the record type and the pure definitions of what the
  two calls do: the slot scan, the record update, the page walk and its
  write-backs. It also holds the table invariant: every file's reference
  count covers the descriptors and the mappings that refer to it.
- `Sysproc` (sysproc.dfy): the class `Proc`. It holds the 16-record
  array, the descriptor array, the page table (the set of page addresses
  that have a translation) and the log of write-backs. `SysMmap` and
  `SysMunmap` update these in place. Each is proved against the `Vma`
  definitions and keeps `Valid`. The constructor builds a process with
  no mappings that satisfies `Valid`, and
  `MapThenUnmapInFreshProcess` calls `MapThenUnmap` on such a process and
  proves that the mapping lands at `MMAP_START` and every slot is free
  afterwards.
- `Findings` (findings.dfy): the defects listed below, each shown on a
  concrete input. Next to each is a corrected definition with its
  intended property proved.

The model follows the code as written, including its defects:

- A free slot is a precondition of `SysMmap` (on a full table the code
  writes through a null record).
- A slot index in range whose slot is used is a precondition of
  `SysMunmap` (the code checks neither).
- The page walk includes its end and covers the whole record.
- Both trims are literal: the front trim keeps `length`, and the back
  trim stores `tmp->addr - addr`, which is negative.

Three behaviours of the code worth noting:

- A request strictly inside the live range whose rounded end
  `PGROUNDUP(addr + length)` lies below the live end
  `tmp->addr + tmp->length` changes no record: the code takes none of
  the three branches. Whenever the rounded end is at or above the live
  end, the same kind of request takes the back trim: with an unaligned
  live end (`Findings.HoleTakesBackTrim`), or with a request that ends
  inside the last page (`Findings.HoleInLastPageTakesBackTrim`).
- An unused or out-of-range slot is not reported as a failure. The code
  never checks it.
- The page walk ends at `tmp->addr + tmp->length` inclusive, and it runs
  over the record's live range, not the requested range.

The fields of `struct VMA` are inferred from their use. `start` and
`addr` are `uint64`, `length` is `int`, and `perm` and `flags` are
`int`, modelled as `bv32`. `proc.h` is not part of this model. The values
`PROT_WRITE = 0x2` and `MAP_SHARED = 0x01` come from the mmap interface
of xv6's `fcntl.h`, which is not part of this model. `PGSIZE = 4096`, and
`PGROUNDUP` / `PGROUNDDOWN` have their usual xv6 definitions (`riscv.h`
is not part of this model).

## Model

| member | source | states |
|---|---|---|
| `Layout.U64` | xv6/kernel/sysproc.c:169 | The `uint64` value of an integer: in range, congruent to it modulo 2^64, and equal to it when it already fits. |
| `Layout.Int32` | xv6/kernel/sysproc.c:185 | Storing into an `int` keeps the low 32 bits: the result is in range, congruent modulo 2^32, and unchanged when it fits. |
| `Layout.PgRoundDown` | xv6/kernel/sysproc.c:169 | The result is page-aligned and is the base of the page holding the address. |
| `Layout.PgRoundUp` | xv6/kernel/sysproc.c:180 | The result is the least page boundary at or above the address, or 0 when the address lies above the base of the topmost page (`uint64` wrap). |
| `Layout.WindowAligned` | xv6/kernel/sysproc.c:144 | Every slot window starts on a page boundary. |
| `Layout.WindowsDisjoint` | xv6/kernel/sysproc.c:17-18 | The windows of two distinct slots share no address. |
| `Layout.SlotIndexOfWindow` | xv6/kernel/sysproc.c:169 | Every address in slot `i`'s window resolves to index `i` (address-to-slot inversion of line 144). |
| `Layout.SlotIndex` | xv6/kernel/sysproc.c:169 | The index `(PGROUNDDOWN(addr) - MMAP_START) / MMAP_SIZE`, computed in `uint64` and stored in an `int`: an address inside the band of the 16 windows resolves to an index in 0..15 whose window holds it. |
| `Vma.MmapCheckAccepts` | xv6/kernel/sysproc.c:134-139 | `MmapCheck`, the two refusals of sys_mmap in order: the request is accepted exactly when the descriptor is non-null and inode-backed and, for a shared mapping with write permission, writable. `NotWritable` is reported exactly for a shared writable request on a non-writable inode. |
| `Vma.FirstFreeFrom` | xv6/kernel/sysproc.c:141-148 | The scan yields an unused slot with every lower slot used, or none when every slot is used. |
| `Vma.ReleasedWalkInRequest` | xv6/kernel/sysproc.c:171-180 | `Releases` is the removal test of line 180. When the record is removed, every page the walk visited lies between the page of `addr` and the rounded request end, that end included. |
| `Vma.UnmapRecord` | xv6/kernel/sysproc.c:180-185 | `used` is cleared exactly when the whole live range lies in the rounded request, and then nothing else changes. Otherwise a record starting at or after `addr` gets `addr + length` (in `uint64`) as its new start and keeps its length; a record starting before `addr` whose end lies in the rounded request gets `tmp->addr - addr` (in `uint64`, stored in an `int`) as its length; any other record is unchanged. The window, permissions, flags and file never change. |
| `Vma.UnmapOfFreshMappingReleases` | xv6/kernel/sysproc.c:180-183 | Unmapping a fresh mapping with the returned base and its own length always takes the removal branch, for every `int` length. |
| `Vma.WriteBacksMember` | xv6/kernel/sysproc.c:171-179 | Munmap logs a write-back exactly for each visited address `a + k*PGSIZE` whose page had a translation, and it goes to the mapping's own file. |
| `Vma.WriteBacksAscending` | xv6/kernel/sysproc.c:171-179 | Write-backs go out in strictly increasing address order, so no page is written twice. |
| `Vma.TeardownWithinWindow` | xv6/kernel/sysproc.c:171 | A walk that starts in slot `i`'s window and ends before the window's end unmaps only pages of that window. |
| `Vma.RefsCoverAfterMap` | xv6/kernel/sysproc.c:150-155 | Filling a free slot with a record that owns file `j`, and adding one reference to `j`, keeps every file's count covering its holders. |
| `Vma.RefsCoverAfterUnmap` | xv6/kernel/sysproc.c:180-183 | The record being unmapped guarantees its file has a reference to drop. Removal with `fileclose`, or a trim that keeps the file, keeps every count covering its holders. |
| `Files.Closed` | xv6/kernel/sysproc.c:181 | The entry after `fileclose`: one reference fewer, the writable bit kept, and the entry freed (kind `FD_NONE`) when the last reference goes. |
| `Files.FileTable.Dup` | xv6/kernel/sysproc.c:155 | `filedup` raises the entry's reference count by exactly one and changes nothing else. |
| `Files.FileTable.Close` | xv6/kernel/sysproc.c:181 | `fileclose` drops one reference, frees the entry on the last one, and changes nothing else. |
| `Sysproc.Proc.SysMmap` | xv6/kernel/sysproc.c:109-157 | These failures return -1 and change no slot and no count: a null or non-inode descriptor, or shared+write on an unwritable file. On success it takes the lowest free slot `i` and returns `MMAP_START + i*MMAP_SIZE`. The slot gets `used`, `start = addr` = that base, and the length, prot, flags and file of the call. No other slot changes, the file's count rises by exactly one, and hint and offset have no effect. Keeps `Valid`. |
| `Sysproc.Proc.MapFile` | xv6/kernel/sysproc.c:140-156 | Once the checks have passed: the lowest free slot `i` gets `used`, `start = addr` = its window base, and the length, prot, flags and file of the call; no other slot changes; the file's count rises by exactly one; the window base is returned. Keeps `Valid`. |
| `Sysproc.Proc.UnmapPages` | xv6/kernel/sysproc.c:171-179 | After the loop, no page the walk visits (up to `addr + length` inclusive) has a translation, and every other page keeps its own. The log gains one write-back per visited translated page if and only if the mapping is shared. |
| `Sysproc.Proc.SysMunmap` | xv6/kernel/sysproc.c:159-187 | Returns 0. Only the targeted slot changes, as `UnmapRecord` says. Pages and write-backs change as `UnmapPages` says. `fileclose` runs exactly once when the record is removed, and no count changes otherwise. Keeps `Valid`. |
| `Sysproc.MapThenUnmap` | xv6/kernel/sysproc.c:109-187 | `munmap(base, L)` right after `mmap(.., L, ..)` returned `base` frees the slot again and leaves every other slot as it was. The file's count is back to its value before the map. |
| `Sysproc.MapThenUnmapInFreshProcess` | xv6/kernel/sysproc.c:109-187 | A fresh process (no mappings) whose descriptor 0 is the only reference to a writable inode maps 8 KiB shared and writable at `MMAP_START`; unmapping it frees every slot and leaves the file's count at one. |

## Findings

| source | as written | input that shows it | evidently intended | confidence | as-written member | corrected member |
|---|---|---|---|---|---|---|
| xv6/kernel/sysproc.c:169-170 | The slot index is computed in `uint64`, truncated to `int`, and used unchecked. | Address `2^37 + 2^52` lies in no window but resolves to slot 0. `2^37 - 2^20` resolves to slot -1. | Only an address in a used slot's window finds a record. | high (not executed) | `Findings.SlotIndexAliases` | `Findings.ResolveSlot` |
| xv6/kernel/sysproc.c:171 | The walk runs while `i <= tmp->addr + tmp->length`. | A 1 MiB mapping in slot `i`: the walk visits the first page of slot `i+1`'s window. When that page has a translation (slot `i+1`'s mapping has touched it), the walk unmaps it, and writes it back to slot `i`'s file if shared. | A half-open range that stays inside the record's window. | high (not executed) | `Findings.TeardownReachesNextWindow` | `Findings.FixedTeardownInWindow` |
| xv6/kernel/sysproc.c:171-179 | The walk covers the record's whole live range, not the requested range. | `munmap(base, 4096)` on a two-page mapping also unmaps the second page, which the record keeps. A private mapping loses its changes to that page. | Only pages that hold requested addresses are unmapped. | high (not executed) | `Findings.TeardownBeyondRequest` | `Findings.FixedTeardownInRequest` |
| xv6/kernel/sysproc.c:184 | The front trim moves `addr` to `addr + length` and keeps `length`. | `munmap(base, 4096)` on a two-page mapping leaves a record that ends one page past the original end. | `length` shrinks by what was removed. | high (not executed) | `Findings.FrontTrimOverrunsMapping` | `Findings.FixedFrontTrim` |
| xv6/kernel/sysproc.c:185 | The back trim stores `tmp->addr - addr`. That is negative in this branch, because `tmp->addr < addr`. | `munmap(base + 4096, 4096)` on a two-page mapping sets `length` to -4096. | `length = addr - tmp->addr`. | high (not executed) | `Findings.BackTrimNegativeLength` | `Findings.FixedBackTrim` |
| xv6/kernel/sysproc.c:180-185 | A request strictly inside the live range takes no branch when its rounded end lies below the live end, and the back trim when its rounded end is at or above the live end. | `munmap(base + 4096, 4096)` on a three-page mapping keeps the record unchanged, while the walk unmaps all three pages (`Findings.HoleTakesBackTrim` and `Findings.HoleInLastPageTakesBackTrim` show the back-trim case). | Refuse the request (or split the record); otherwise remove exactly the requested addresses. | medium (not executed) | `Findings.HoleKeepsRecord` | `Findings.FixedUnmapExact` |

`Sysproc` keeps the as-written behaviour. The corrected definitions
(`ResolveSlot`, `FixedCovered`, `UnmapFixed`) stand beside it, and their
properties are proved in `Findings`.

## Left out

- Sysproc.Proc.SysMmap: requires `0 <= fd < NOFILE`. The source indexes `p->ofile[fd]` without a bounds check.
- Sysproc.Proc.SysMmap: requires a free slot whenever the descriptor checks pass. With all 16 slots used, the source dereferences a null record (sysproc.c:141-150).
- Sysproc.Proc.SysMunmap: requires the computed slot index to be in 0..15 and the slot to be used. The source checks neither (sysproc.c:169-170); `Findings.SlotIndexAliases` shows what else it would do.
- Sysproc.Proc.SysMunmap: requires the walk's end to lie below `2^64 - PGSIZE`. The C loop ends only when the last address it visits at or below the end is itself below `2^64 - PGSIZE`; otherwise `i += PGSIZE` wraps to a small value and the loop never ends. Ends at or above `2^64 - PGSIZE` whose loop does end are not modelled.
- Sysproc.Proc.UnmapPages: `walkaddr` and `uvmunmap` act on the page that holds the visited address. The model leaves out `uvmunmap`'s panic on an unaligned address, which a front trim to an unaligned address makes reachable.
- `argaddr` / `argint` argument fetching and its failure returns: the arguments are method parameters.
- `sys_exit`, `sys_getpid`, `sys_fork`, `sys_wait`, `sys_kill` and `sys_sbrk` forward to process-table code that is not part of this model.
- `sys_sleep` and `sys_uptime`: their tick lock and sleep/wakeup are concurrency and timer state.
- The internals of `walkaddr`, `uvmunmap`, `filewrite`, `filedup` and `fileclose`. The page table is the set of translated page addresses; `walkaddr`'s MAXVA and PTE_U checks and the freeing of physical frames are not modelled. `filewrite` is a log entry (file, user address); its use of the file's current offset and its return value are not modelled. `fileclose` only drops the count and frees the entry; releasing the inode or pipe is not modelled.
- The file-table lock taken by `filedup` and `fileclose`: each of them is one atomic step on the table. The file table is shared by all processes, and another process holding the same `struct file` (a forked child, say) can `filedup` or `fileclose` it at any time. The model assumes that no other process changes the file table during a call, or between the two calls of `MapThenUnmap`; the exact counts stated by `SysMmap`, `MapFile`, `SysMunmap` and `MapThenUnmap` hold only under that assumption.
- References held by other processes: the invariant says each count is at least the number of this process's holders.
- The page-fault servicer that fills mapped pages, and the copying or release of mappings on fork and exit: they are not in `sysproc.c`.
