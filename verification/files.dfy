/**
 * The kernel's open-file records, reduced to what mmap and munmap use:
 * the kind of file, whether it was opened for writing, and its
 * reference count. `filedup` and `fileclose` are modelled only by what
 * they do to the count.
 */
module Files {

  /** Kinds of open file (FD_NONE marks a free file-table entry). */
  datatype FileKind = FdNone | FdPipe | FdInode | FdDevice

  /** An entry of the kernel's file table. */
  datatype OpenFile = OpenFile(kind: FileKind, writable: bool, ref: int)

  /** A `struct file*`: the index of its entry in the file table. */
  type FileRef = nat

  /**
   * The entry after `fileclose` drops one reference; dropping the last
   * one frees the entry. (fileclose panics on an entry without
   * references; FileTable.Close requires one.)
   */
  function Closed(f: OpenFile): (g: OpenFile)
    ensures f.ref >= 1 ==> g.ref == f.ref - 1
    ensures g.writable == f.writable
    ensures g.kind == if f.ref <= 1 then FdNone else f.kind
  {
    if f.ref - 1 > 0 then f.(ref := f.ref - 1)
    else f.(ref := 0, kind := FdNone)
  }

  /** The system-wide file table (`ftable.file`). */
  class FileTable {
    var file: array<OpenFile>

    /** A file table holding the entries `files`. */
    constructor (files: seq<OpenFile>)
      ensures fresh(file) && file[..] == files
    {
      file := new OpenFile[|files|](k requires 0 <= k < |files| => files[k]);
    }

    /** filedup: one more reference to entry `j`; panics when the entry is not in use. */
    method Dup(j: FileRef)
      requires j < file.Length && file[j].ref >= 1
      modifies file
      ensures file[..] == old(file[..])[j := old(file[j]).(ref := old(file[j].ref) + 1)]
    {
      file[j] := file[j].(ref := file[j].ref + 1);
    }

    /** fileclose: one reference to entry `j` fewer; panics when the entry is not in use. */
    method Close(j: FileRef)
      requires j < file.Length && file[j].ref >= 1
      modifies file
      ensures file[..] == old(file[..])[j := Closed(old(file[j]))]
    {
      file[j] := Closed(file[j]);
    }
  }
}
