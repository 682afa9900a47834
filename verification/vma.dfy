/**
 * The per-process mapping records (struct VMA) and the pure
 * definitions that say what sys_mmap and sys_munmap do to them: which
 * slot mmap picks, how munmap rewrites a record, which pages munmap's
 * walk visits and which write-backs it issues, and how many file
 * references the table holds.
 */
module Vma {
  import opened Wrappers
  import opened Layout
  import opened Files

  /** PROT_WRITE and MAP_SHARED, as the mmap system-call interface numbers them. */
  const PROT_WRITE: bv32 := 0x2
  const MAP_SHARED: bv32 := 0x01

  /** The value sys_mmap returns on failure: -1 as a `uint64`. */
  const MMAP_FAILED: u64 := 0xFFFF_FFFF_FFFF_FFFF

  /**
   * One mapping record. `start` is the base of the slot's window, `addr`
   * and `length` the live range, `perm` and `flags` the caller's bits,
   * `fp` the file reference the mapping owns while `used`.
   */
  datatype VMA = VMA(used: bool, start: u64, addr: u64, length: i32,
                     perm: bv32, flags: bv32, fp: Option<FileRef>)

  predicate Shared(flags: bv32) { flags & MAP_SHARED != 0 }

  predicate WantsWrite(prot: bv32) { prot & PROT_WRITE != 0 }

  /** Why sys_mmap refuses a request. */
  datatype MapError = BadHandle | NotWritable

  /**
   * The checks sys_mmap makes on the caller's open file `h` (None for a
   * null descriptor), in the order it makes them.
   */
  function MmapCheck(h: Option<OpenFile>, prot: bv32, flags: bv32): Option<MapError>
  {
    if h.None? || h.value.kind != FdInode then Some(BadHandle)
    else if Shared(flags) && WantsWrite(prot) && !h.value.writable then Some(NotWritable)
    else None
  }

  /**
   * sys_mmap accepts a request exactly when the descriptor is an open
   * inode that is writable if the mapping is shared and writable, and
   * it reports an unwritable file only for such a mapping.
   */
  lemma MmapCheckAccepts(h: Option<OpenFile>, prot: bv32, flags: bv32)
    ensures MmapCheck(h, prot, flags).None? <==>
              h.Some? && h.value.kind == FdInode && (Shared(flags) && WantsWrite(prot) ==> h.value.writable)
    ensures MmapCheck(h, prot, flags) == Some(NotWritable) <==>
              h.Some? && h.value.kind == FdInode && Shared(flags) && WantsWrite(prot) && !h.value.writable
  {
  }

  /** The lowest unused slot at or after `k`, if there is one. */
  function FirstFreeFrom(s: seq<VMA>, k: nat): (r: Option<nat>)
    requires k <= |s|
    ensures r.Some? ==> k <= r.value < |s| && !s[r.value].used
    ensures r.Some? ==> forall m :: k <= m < r.value ==> s[m].used
    ensures r.None? ==> forall m :: k <= m < |s| ==> s[m].used
    decreases |s| - k
  {
    if k == |s| then None
    else if !s[k].used then Some(k)
    else FirstFreeFrom(s, k + 1)
  }

  /** The slot sys_mmap's scan picks. */
  function FirstFree(s: seq<VMA>): Option<nat>
  {
    FirstFreeFrom(s, 0)
  }

  /** The record sys_mmap writes into slot `i`. */
  function Mapped(i: int, length: i32, prot: bv32, flags: bv32, f: FileRef): VMA
    requires 0 <= i < NVMA
  {
    VMA(true, WindowBase(i), WindowBase(i), length, prot, flags, Some(f))
  }

  // ---------------------------------------------------------------------
  // The record update at the end of sys_munmap

  /** The inclusive upper bound of munmap's page walk: tmp->addr + tmp->length in `uint64`. */
  function TeardownEnd(t: VMA): u64
  {
    U64(t.addr + t.length)
  }

  /** munmap's test for removing the whole record (and closing its file). */
  predicate Releases(t: VMA, addr: u64, length: i32)
  {
    t.addr >= addr && TeardownEnd(t) <= PgRoundUp(U64(addr + length))
  }

  /**
   * When munmap removes a record, every page its walk visited lies
   * between the page of `addr` and the rounded end of the request, that
   * end included.
   */
  lemma ReleasedWalkInRequest(t: VMA, addr: u64, length: i32, pg: int)
    requires Releases(t, addr, length) && Covered(t.addr, TeardownEnd(t), pg)
    ensures PgRoundDown(addr) <= pg <= PgRoundUp(U64(addr + length))
  {
  }

  /** The record after sys_munmap(addr, length): removed, front-trimmed, back-trimmed or kept. */
  function UnmapRecord(t: VMA, addr: u64, length: i32): (r: VMA)
    ensures r.used == (t.used && !Releases(t, addr, length))
    ensures r.start == t.start && r.perm == t.perm && r.flags == t.flags && r.fp == t.fp
    ensures r.addr == t.addr || r.length == t.length
    ensures t.addr < addr ==> r.addr == t.addr
    ensures Releases(t, addr, length) ==> r.addr == t.addr && r.length == t.length
    ensures !Releases(t, addr, length) && t.addr >= addr ==> r == t.(addr := U64(addr + length))
    ensures t.addr < addr && TeardownEnd(t) <= PgRoundUp(U64(addr + length)) ==>
              r == t.(length := Int32(U64(t.addr - addr)))
    ensures t.addr < addr && TeardownEnd(t) > PgRoundUp(U64(addr + length)) ==> r == t
  {
    if Releases(t, addr, length) then t.(used := false)
    else if t.addr >= addr then t.(addr := U64(addr + length))
    else if TeardownEnd(t) <= PgRoundUp(U64(addr + length)) then t.(length := Int32(U64(t.addr - addr)))
    else t
  }

  /**
   * Unmapping a freshly mapped record with the base and length mmap
   * returned and was given removes it, whatever the length.
   */
  lemma UnmapOfFreshMappingReleases(i: int, length: i32, prot: bv32, flags: bv32, f: FileRef)
    requires 0 <= i < NVMA
    ensures Releases(Mapped(i, length, prot, flags, f), WindowBase(i), length)
    ensures !UnmapRecord(Mapped(i, length, prot, flags, f), WindowBase(i), length).used
  {
    var e := WindowBase(i) + length;
    assert 0 <= e < U64_LIMIT - PGSIZE;
    assert U64(e) == e;
  }

  // ---------------------------------------------------------------------
  // The page walk of sys_munmap

  /**
   * Page `pg` is one whose translation the walk i = a, a + PGSIZE, ...,
   * while i <= e, queries and removes.
   */
  predicate Covered(a: u64, e: int, pg: int)
  {
    pg % PGSIZE == 0 && PgRoundDown(a) <= pg && pg + a % PGSIZE <= e
  }

  /** How many addresses the walk from `a` up to `e` (inclusive) visits. */
  function Visits(a: u64, e: int): nat
  {
    if e < a then 0 else (e - a) / PGSIZE + 1
  }

  /** One `filewrite(f, va, PGSIZE)` issued by munmap. */
  datatype WriteBack = WriteBack(file: FileRef, va: int)

  /**
   * The write-backs of the first `n` steps of the walk from `a`, for a
   * shared mapping of file `f`, given the translated pages `pages`.
   */
  function WriteBacks(pages: set<int>, f: FileRef, a: u64, n: nat): seq<WriteBack>
    requires a + n * PGSIZE <= U64_LIMIT
  {
    if n == 0 then []
    else
      var v := a + (n - 1) * PGSIZE;
      WriteBacks(pages, f, a, n - 1) + (if PgRoundDown(v) in pages then [WriteBack(f, v)] else [])
  }

  /**
   * A write-back is issued exactly for each visited address whose page
   * was translated, and it goes to the mapping's file.
   */
  lemma {:induction false} WriteBacksMember(pages: set<int>, f: FileRef, a: u64, n: nat, w: WriteBack)
    requires a + n * PGSIZE <= U64_LIMIT
    ensures w in WriteBacks(pages, f, a, n) <==>
              w.file == f && a <= w.va < a + n * PGSIZE && (w.va - a) % PGSIZE == 0
              && PgRoundDown(w.va) in pages
  {
    if n > 0 {
      WriteBacksMember(pages, f, a, n - 1, w);
      var v := a + (n - 1) * PGSIZE;
      assert (v - a) % PGSIZE == 0;
      if a <= w.va < a + n * PGSIZE && (w.va - a) % PGSIZE == 0 && w.va != v {
        assert w.va < v;
      }
    }
  }

  /** The write-backs go out in increasing address order, so no page is written twice. */
  lemma {:induction false} WriteBacksAscending(pages: set<int>, f: FileRef, a: u64, n: nat, p: nat, q: nat)
    requires a + n * PGSIZE <= U64_LIMIT
    requires p < q < |WriteBacks(pages, f, a, n)|
    ensures WriteBacks(pages, f, a, n)[p].va < WriteBacks(pages, f, a, n)[q].va
  {
    var ws := WriteBacks(pages, f, a, n - 1);
    var v := a + (n - 1) * PGSIZE;
    var tail := if PgRoundDown(v) in pages then [WriteBack(f, v)] else [];
    assert WriteBacks(pages, f, a, n) == ws + tail;
    WriteBacksMember(pages, f, a, n - 1, ws[p]);
    if q < |ws| {
      WriteBacksAscending(pages, f, a, n - 1, p, q);
    }
  }

  /** A walk that starts and ends inside slot `i`'s window touches only that window's pages. */
  lemma TeardownWithinWindow(i: int, a: u64, e: int, pg: int)
    requires 0 <= i < NVMA && InWindow(i, a) && e < WindowBase(i) + MMAP_SIZE
    requires Covered(a, e, pg)
    ensures InWindow(i, pg)
  {
    WindowAligned(i);
  }

  /** The page of the walk's `n`-th address is `n` pages above the page of its first. */
  lemma PageOfStep(a: u64, n: nat)
    requires a + n * PGSIZE < U64_LIMIT
    ensures PgRoundDown(a + n * PGSIZE) == PgRoundDown(a) + n * PGSIZE
    ensures (a + n * PGSIZE) % PGSIZE == a % PGSIZE
  {
  }

  /** One more step of the walk adds exactly the page of the address it visits. */
  lemma CoveredStep(a: u64, n: nat, pg: int)
    requires a + n * PGSIZE < U64_LIMIT
    ensures Covered(a, a + n * PGSIZE, pg) <==>
              Covered(a, a + n * PGSIZE - PGSIZE, pg) || pg == PgRoundDown(a + n * PGSIZE)
  {
    PageOfStep(a, n);
  }

  /** When the walk stops after `n` steps, it has covered the pages up to `e`. */
  lemma CoveredAtExit(a: u64, n: nat, e: int, pg: int)
    requires a + n * PGSIZE > e
    requires n == 0 || a + n * PGSIZE - PGSIZE <= e
    ensures Covered(a, a + n * PGSIZE - PGSIZE, pg) <==> Covered(a, e, pg)
    ensures Visits(a, e) == n
  {
  }

  // ---------------------------------------------------------------------
  // File references held by a process

  /** Slot record `v` owns a reference to file `j`. */
  predicate Holds(v: VMA, j: FileRef)
  {
    v.used && v.fp == Some(j)
  }

  /** The number of records in `s` that own a reference to file `j`. */
  function VmaRefs(s: seq<VMA>, j: FileRef): nat
  {
    if s == [] then 0 else (if Holds(s[0], j) then 1 else 0) + VmaRefs(s[1..], j)
  }

  /** The number of descriptors in `s` that refer to file `j`. */
  function OfileRefs(s: seq<Option<FileRef>>, j: FileRef): nat
  {
    if s == [] then 0 else (if s[0] == Some(j) then 1 else 0) + OfileRefs(s[1..], j)
  }

  /** Replacing one record changes the count of `j`'s owners by what the two records own. */
  lemma {:induction false} VmaRefsUpdate(s: seq<VMA>, i: nat, v: VMA, j: FileRef)
    requires i < |s|
    ensures VmaRefs(s[i := v], j)
            == VmaRefs(s, j) - (if Holds(s[i], j) then 1 else 0) + (if Holds(v, j) then 1 else 0)
  {
    if i == 0 {
      assert s[i := v][1..] == s[1..];
    } else {
      assert s[i := v][1..] == s[1..][i - 1 := v];
      VmaRefsUpdate(s[1..], i - 1, v, j);
    }
  }

  /** A record that owns `j` is counted among `j`'s owners. */
  lemma {:induction false} VmaRefsHolder(s: seq<VMA>, i: nat, j: FileRef)
    requires i < |s| && Holds(s[i], j)
    ensures VmaRefs(s, j) >= 1
  {
    if i > 0 {
      VmaRefsHolder(s[1..], i - 1, j);
    }
  }

  /** A descriptor that refers to `j` is counted among `j`'s referrers. */
  lemma {:induction false} OfileRefsHolder(s: seq<Option<FileRef>>, fd: nat, j: FileRef)
    requires fd < |s| && s[fd] == Some(j)
    ensures OfileRefs(s, j) >= 1
  {
    if fd > 0 {
      OfileRefsHolder(s[1..], fd - 1, j);
    }
  }

  /** A table without a used record owns no reference. */
  lemma {:induction false} VmaRefsNone(s: seq<VMA>, j: FileRef)
    requires forall m :: 0 <= m < |s| ==> !s[m].used
    ensures VmaRefs(s, j) == 0
  {
    if s != [] {
      VmaRefsNone(s[1..], j);
    }
  }

  /** Null descriptors refer to no file. */
  lemma {:induction false} OfileRefsNone(s: seq<Option<FileRef>>, j: FileRef)
    requires forall fd :: 0 <= fd < |s| ==> s[fd].None?
    ensures OfileRefs(s, j) == 0
  {
    if s != [] {
      OfileRefsNone(s[1..], j);
    }
  }

  // ---------------------------------------------------------------------
  // The table invariant, on the contents of the arrays

  /** Every used record sits at its own slot's window and owns an entry of a file table of `nfile` entries. */
  ghost predicate SlotsPlaced(s: seq<VMA>, nfile: nat)
  {
    forall i :: 0 <= i < |s| && i < NVMA && s[i].used ==>
      s[i].start == WindowBase(i) && s[i].fp.Some? && s[i].fp.value < nfile
  }

  /** Filling slot `i` with a fresh record for an entry of the file table keeps every record placed. */
  lemma SlotsPlacedAfterMap(s: seq<VMA>, nfile: nat, i: int, length: i32, prot: bv32, flags: bv32, j: FileRef)
    requires SlotsPlaced(s, nfile) && 0 <= i < NVMA && i < |s| && j < nfile
    ensures SlotsPlaced(s[i := Mapped(i, length, prot, flags, j)], nfile)
  {
  }

  /** Every non-null descriptor names an entry of a file table of `nfile` entries. */
  ghost predicate DescriptorsOpen(ofs: seq<Option<FileRef>>, nfile: nat)
  {
    forall fd :: 0 <= fd < |ofs| && ofs[fd].Some? ==> ofs[fd].value < nfile
  }

  /** Each file's reference count covers this process's descriptors and mappings of it. */
  ghost predicate RefsCover(files: seq<OpenFile>, ofs: seq<Option<FileRef>>, vs: seq<VMA>)
  {
    forall j :: 0 <= j < |files| ==> files[j].ref >= OfileRefs(ofs, j) + VmaRefs(vs, j)
  }

  /**
   * mmap keeps the counts covered: a free slot becomes a record owning
   * `j`, and `j` gains one reference.
   */
  lemma RefsCoverAfterMap(files: seq<OpenFile>, ofs: seq<Option<FileRef>>, vs: seq<VMA>,
                          i: nat, v: VMA, j: FileRef)
    requires RefsCover(files, ofs, vs)
    requires i < |vs| && !vs[i].used && Holds(v, j) && j < |files|
    ensures RefsCover(files[j := files[j].(ref := files[j].ref + 1)], ofs, vs[i := v])
  {
    var files' := files[j := files[j].(ref := files[j].ref + 1)];
    forall q | 0 <= q < |files'|
      ensures files'[q].ref >= OfileRefs(ofs, q) + VmaRefs(vs[i := v], q)
    {
      VmaRefsUpdate(vs, i, v, q);
    }
  }

  /**
   * munmap keeps the counts covered: the record in slot `k`, which owns
   * `j`, is replaced by one with the same file that is still used
   * exactly when `j` is not closed.
   */
  lemma RefsCoverAfterUnmap(files: seq<OpenFile>, ofs: seq<Option<FileRef>>, vs: seq<VMA>,
                            k: nat, v: VMA, j: FileRef, release: bool)
    requires RefsCover(files, ofs, vs)
    requires k < |vs| && Holds(vs[k], j) && j < |files|
    requires v.fp == vs[k].fp && v.used == !release
    ensures files[j].ref >= 1
    ensures RefsCover(if release then files[j := Closed(files[j])] else files, ofs, vs[k := v])
  {
    VmaRefsHolder(vs, k, j);
    var files' := if release then files[j := Closed(files[j])] else files;
    forall q | 0 <= q < |files'|
      ensures files'[q].ref >= OfileRefs(ofs, q) + VmaRefs(vs[k := v], q)
    {
      VmaRefsUpdate(vs, k, v, q);
    }
  }
}
