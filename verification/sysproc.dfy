/**
 * The mmap and munmap system calls over a process's mapping table.
 * The process holds its 16 mapping records in an array, its open-file
 * descriptors, its page table (reduced to the set of page addresses
 * that have a translation) and the log of pages munmap wrote back to
 * files. The kernel's file table is a separate object shared by all
 * processes.
 */
module Sysproc {
  import opened Wrappers
  import opened Layout
  import opened Files
  import opened Vma

  /** Open files per process. */
  const NOFILE: int := 16

  class Proc {
    var vm: array<VMA>
    var ofile: array<Option<FileRef>>
    var pages: set<int>
    var writes: seq<WriteBack>

    /**
     * The table invariant: every used slot sits at its own window and
     * owns a reference to a file-table entry, every translated page is
     * page-aligned, and every entry's reference count covers the
     * descriptors and the mappings of this process that refer to it.
     */
    ghost predicate Valid(ft: FileTable)
      reads this, vm, ofile, ft, ft.file
    {
      && vm.Length == NVMA
      && ofile.Length == NOFILE
      && (forall pg :: pg in pages ==> pg % PGSIZE == 0)
      && SlotsPlaced(vm[..], ft.file.Length)
      && DescriptorsOpen(ofile[..], ft.file.Length)
      && RefsCover(ft.file[..], ofile[..], vm[..])
    }

    /**
     * A process with the descriptors `fds` and no mappings, translated
     * pages or write-backs. Each file's count must already cover the
     * descriptors that refer to it.
     */
    constructor (ft: FileTable, fds: seq<Option<FileRef>>)
      requires |fds| == NOFILE && DescriptorsOpen(fds, ft.file.Length)
      requires forall j :: 0 <= j < ft.file.Length ==> ft.file[j].ref >= OfileRefs(fds, j)
      ensures Valid(ft)
      ensures fresh(vm) && fresh(ofile)
      ensures ofile[..] == fds && pages == {} && writes == []
      ensures forall m :: 0 <= m < NVMA ==> !vm[m].used
    {
      vm := new VMA[NVMA](_ => VMA(false, 0, 0, 0, 0, 0, None));
      ofile := new Option<FileRef>[NOFILE](fd requires 0 <= fd < NOFILE => fds[fd]);
      pages := {};
      writes := [];
      new;
      assert ofile[..] == fds;
      forall j | 0 <= j < ft.file.Length
        ensures ft.file[j].ref >= OfileRefs(ofile[..], j) + VmaRefs(vm[..], j)
      {
        VmaRefsNone(vm[..], j);
      }
    }

    /** The open file behind descriptor `fd`, None when the descriptor is null. */
    function Handle(ft: FileTable, fd: int): Option<OpenFile>
      reads this, ofile, ft, ft.file
      requires 0 <= fd < ofile.Length && (ofile[fd].Some? ==> ofile[fd].value < ft.file.Length)
    {
      if ofile[fd].None? then None else Some(ft.file[ofile[fd].value])
    }

    /**
     * sys_mmap(hint, length, prot, flags, fd, offset). A null or
     * non-inode descriptor, or a shared writable mapping of a file not
     * opened for writing, fails with no change. Otherwise the lowest free
     * slot gets a record for its own window, the file gains one
     * reference, and the window base is returned. The hint and the offset
     * are not used.
     */
    method SysMmap(ft: FileTable, hint: u64, length: i32, prot: bv32, flags: bv32, fd: int, offset: i32)
      returns (r: u64)
      requires Valid(ft)
      requires 0 <= fd < NOFILE
      requires MmapCheck(Handle(ft, fd), prot, flags).None? ==> FirstFree(vm[..]).Some?
      modifies vm, ft.file
      ensures Valid(ft)
      ensures old(MmapCheck(Handle(ft, fd), prot, flags)).Some? ==>
                r == MMAP_FAILED && vm[..] == old(vm[..]) && ft.file[..] == old(ft.file[..])
      ensures old(MmapCheck(Handle(ft, fd), prot, flags)).None? ==>
                var i := FirstFree(old(vm[..])).value;
                var j := ofile[fd].value;
                && r == WindowBase(i)
                && vm[..] == old(vm[..])[i := Mapped(i, length, prot, flags, j)]
                && ft.file[..] == old(ft.file[..])[j := old(ft.file[j]).(ref := old(ft.file[j].ref) + 1)]
    {
      if MmapCheck(Handle(ft, fd), prot, flags).Some? {
        return MMAP_FAILED;
      }
      var j := ofile[fd].value;
      OfileRefsHolder(ofile[..], fd, j);
      r := MapFile(ft, j, length, prot, flags);
    }

    /**
     * The second half of sys_mmap, once the checks have passed: the
     * first unused slot gets a record of file `j` for its own window,
     * `filedup` takes one more reference to `j`, and the window base is
     * returned.
     */
    method MapFile(ft: FileTable, j: FileRef, length: i32, prot: bv32, flags: bv32) returns (r: u64)
      requires Valid(ft)
      requires j < ft.file.Length && ft.file[j].ref >= 1 && FirstFree(vm[..]).Some?
      modifies vm, ft.file
      ensures Valid(ft)
      ensures var i := FirstFree(old(vm[..])).value;
              && r == WindowBase(i)
              && vm[..] == old(vm[..])[i := Mapped(i, length, prot, flags, j)]
              && ft.file[..] == old(ft.file[..])[j := old(ft.file[j]).(ref := old(ft.file[j].ref) + 1)]
    {
      ghost var vs0, fs0, ofs := vm[..], ft.file[..], ofile[..];
      // Find the first unused slot and place the mapping at its window.
      var slot := -1;
      var i := 0;
      while i < NVMA
        invariant 0 <= i <= NVMA
        invariant forall m :: 0 <= m < i ==> vm[m].used
        invariant vm[..] == vs0
      {
        if !vm[i].used {
          slot := i;
          vm[i] := vm[i].(start := WindowBase(i), addr := WindowBase(i));
          break;
        }
        i := i + 1;
      }
      if slot < 0 {
        assert false;
      }
      assert FirstFree(vs0) == Some(slot);
      vm[slot] := vm[slot].(fp := Some(j), perm := prot, length := length, flags := flags, used := true);
      ft.Dup(j);
      assert ft.file[..] == fs0[j := fs0[j].(ref := fs0[j].ref + 1)];
      r := vm[slot].addr;
      ghost var v := Mapped(slot, length, prot, flags, j);
      assert vm[..] == vs0[slot := v];
      assert ofile[..] == ofs;
      RefsCoverAfterMap(fs0, ofs, vs0, slot, v, j);
      SlotsPlacedAfterMap(vs0, ft.file.Length, slot, length, prot, flags, j);
    }

    /**
     * The page loop of sys_munmap over record `t`, whose file is `j`:
     * for i = t.addr, t.addr + PGSIZE, ... while i <= tmp->addr +
     * tmp->length, a translated page is written back when the mapping is
     * shared and then unmapped. Afterwards no visited page has a
     * translation, every other page keeps its own, and the log holds one
     * write-back per visited translated page, in address order.
     */
    method UnmapPages(t: VMA, j: FileRef)
      requires forall pg :: pg in pages ==> pg % PGSIZE == 0
      requires TeardownEnd(t) < U64_LIMIT - PGSIZE
      modifies this`pages, this`writes
      ensures forall pg :: pg in pages ==> pg % PGSIZE == 0
      ensures pages == (set pg | pg in old(pages) && !Covered(t.addr, TeardownEnd(t), pg))
      ensures writes == old(writes) + (if Shared(t.flags)
                                       then WriteBacks(old(pages), j, t.addr, Visits(t.addr, TeardownEnd(t)))
                                       else [])
    {
      var end := U64(t.addr + t.length);
      var i: int := t.addr;
      ghost var n: nat := 0;
      while i <= end
        invariant i == t.addr + n * PGSIZE
        invariant n == 0 || i - PGSIZE <= end
        invariant pages == (set pg | pg in old(pages) && !Covered(t.addr, i - PGSIZE, pg))
        invariant writes == old(writes) + (if Shared(t.flags) then WriteBacks(old(pages), j, t.addr, n) else [])
        decreases end + PGSIZE - i
      {
        CoveredStep(t.addr, n, PgRoundDown(i));
        var pa := PgRoundDown(i);
        if pa in pages {
          if Shared(t.flags) {
            writes := writes + [WriteBack(j, i)];
          }
          pages := pages - {pa};
        }
        forall pg
          ensures (pg in old(pages) && !Covered(t.addr, i, pg))
                  <==> (pg in old(pages) && !Covered(t.addr, i - PGSIZE, pg) && pg != pa)
        {
          CoveredStep(t.addr, n, pg);
        }
        i := i + PGSIZE;
        n := n + 1;
      }
      forall pg
        ensures Covered(t.addr, i - PGSIZE, pg) <==> Covered(t.addr, end, pg)
      {
        CoveredAtExit(t.addr, n, end, pg);
      }
      CoveredAtExit(t.addr, n, end, 0);
    }

    /**
     * sys_munmap(addr, length). The slot is computed from the address
     * alone. Every page of the record's live range, its end included,
     * that has a translation is written back first when the mapping is
     * shared and then unmapped; other pages keep their translations. The
     * record is then removed (and its file closed once), trimmed at the
     * front, trimmed at the back, or kept, as UnmapRecord says.
     */
    method SysMunmap(ft: FileTable, addr: u64, length: i32) returns (r: u64)
      requires Valid(ft)
      requires 0 <= SlotIndex(addr) < NVMA && vm[SlotIndex(addr)].used
      requires TeardownEnd(vm[SlotIndex(addr)]) < U64_LIMIT - PGSIZE
      modifies this`pages, this`writes, vm, ft.file
      ensures Valid(ft)
      ensures r == 0
      ensures var k := SlotIndex(addr);
              var t := old(vm[SlotIndex(addr)]);
              var j := t.fp.value;
              && vm[..] == old(vm[..])[k := UnmapRecord(t, addr, length)]
              && pages == (set pg | pg in old(pages) && !Covered(t.addr, TeardownEnd(t), pg))
              && writes == old(writes) + (if Shared(t.flags)
                                          then WriteBacks(old(pages), j, t.addr, Visits(t.addr, TeardownEnd(t)))
                                          else [])
              && ft.file[..] == if Releases(t, addr, length)
                                then old(ft.file[..])[j := Closed(old(ft.file[j]))]
                                else old(ft.file[..])
    {
      var k := SlotIndex(addr);
      var t := vm[k];
      var j := t.fp.value;
      var end := U64(t.addr + t.length);
      UnmapPages(t, j);
      // Remove or trim the record.
      ghost var release := Releases(t, addr, length);
      RefsCoverAfterUnmap(ft.file[..], ofile[..], vm[..], k, UnmapRecord(t, addr, length), j, release);
      ghost var before := vm[..];
      if t.addr >= addr && end <= PgRoundUp(U64(addr + length)) {
        ft.Close(j);
        vm[k] := vm[k].(used := false);
      } else if t.addr >= addr {
        vm[k] := vm[k].(addr := U64(addr + length));
      } else if end <= PgRoundUp(U64(addr + length)) {
        vm[k] := vm[k].(length := Int32(U64(vm[k].addr - addr)));
      }
      assert vm[..] == before[k := UnmapRecord(t, addr, length)];
      r := 0;
    }
  }

  /**
   * A mapping followed at once by an unmap of the returned base with the
   * same length: the slot is free again, every other slot is as it was,
   * and the file's reference count is back to its value before the map.
   */
  method MapThenUnmap(p: Proc, ft: FileTable, length: i32, prot: bv32, flags: bv32, fd: int)
    returns (base: u64)
    requires p.Valid(ft)
    requires 0 <= fd < NOFILE
    requires MmapCheck(p.Handle(ft, fd), prot, flags).None? && FirstFree(p.vm[..]).Some?
    modifies p`pages, p`writes, p.vm, ft.file
    ensures p.Valid(ft)
    ensures var i := FirstFree(old(p.vm[..])).value;
            && base == WindowBase(i)
            && !p.vm[i].used
            && (forall m :: 0 <= m < NVMA && m != i ==> p.vm[m] == old(p.vm[m]))
    ensures ft.file[..] == old(ft.file[..])
  {
    ghost var i := FirstFree(p.vm[..]).value;
    ghost var j := p.ofile[fd].value;
    OfileRefsHolder(p.ofile[..], fd, j);
    base := p.SysMmap(ft, 0, length, prot, flags, fd, 0);
    SlotIndexOfWindow(i, base);
    UnmapOfFreshMappingReleases(i, length, prot, flags, j);
    assert p.vm[i] == Mapped(i, length, prot, flags, j);
    var e := WindowBase(i) + length;
    assert 0 <= e < U64_LIMIT - PGSIZE;
    var r := p.SysMunmap(ft, base, length);
  }

  /**
   * A process whose only descriptor, 0, is the sole reference to a
   * writable inode maps 8 KiB of it shared and writable and unmaps it
   * again: the mapping lands in slot 0's window, the slot is free again
   * afterwards and the file's count is back to one.
   */
  method MapThenUnmapInFreshProcess() returns (base: u64, p: Proc, ft: FileTable)
    ensures base == MMAP_START
    ensures ft.file[..] == [OpenFile(FdInode, true, 1)]
    ensures p.Valid(ft) && forall m :: 0 <= m < NVMA ==> !p.vm[m].used
  {
    ft := new FileTable([OpenFile(FdInode, true, 1)]);
    var none := seq(NOFILE - 1, _ => None);
    var fds := [Some(0)] + none;
    OfileRefsNone(none, 0);
    assert OfileRefs(fds, 0) == 1 by {
      assert fds[1..] == none;
    }
    p := new Proc(ft, fds);
    assert FirstFree(p.vm[..]) == Some(0);
    base := MapThenUnmap(p, ft, 2 * PGSIZE, PROT_WRITE, MAP_SHARED, 0);
  }
}
