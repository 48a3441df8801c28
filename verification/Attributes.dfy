/** What `sfs_getattr` shows of a file. */
module Attributes {
  import opened Types
  import opened Paths
  import opened Inodes
  import opened Lookup
  import opened Boot

  /** The fields of `struct stat` it fills in. */
  datatype Stat = Stat(dev: int, ino: int, mode: int, nlink: int, uid: int, gid: int, rdev: int, size: int,
                       atime: int, mtime: int, ctime: int, blksize: int, blocks: int)

  const PATH_MAX: nat := 4096

  /** The type shown for a record's mode. It is compared with three values only; for any other
      mode the buffer keeps what it held. */
  function KindShown(mode: short, before: int): int {
    if mode == 493 || mode == 16384 then S_IFDIR
    else if mode == -32348 then S_IFREG
    else before
  }

  /** Which modes of a create show a type afterwards: 0100644 that of a file, 0755 and a bare
      directory type that of a directory, all up to multiples of 2^16. Any other mode shows
      nothing. */
  lemma CreatedKind(m: Memory, path: string, who: Caller, before: int)
    requires Sane(m) && WellFormed(path) && FreshKey(m, path) && before != 0x4000 && before != 0x8000
    ensures Creatable(m, path)
    ensures var (m', r) := CreateInode(m, path, who);
            r.At? ==>
              && r.index < TABLE_SIZE && Find(m', path) == r
              && var kind := KindShown(m'.inodes[r.index].mode, before);
                 && (kind == 0x8000 <==> who.mode % 0x10000 == 0x81A4)
                 && (kind == 0x4000 <==> who.mode % 0x10000 == 493 || who.mode % 0x10000 == 0x4000)
                 && (kind == 0x8000 || kind == 0x4000 || kind == before)
  {
    CreatedIsFound(m, path, who);
    ShortOfMode(who.mode);
  }

  lemma ShortOfMode(mode: int)
    ensures ToShort(mode) == -32348 <==> mode % 0x10000 == 0x81A4
    ensures ToShort(mode) == 493 <==> mode % 0x10000 == 493
    ensures ToShort(mode) == 16384 <==> mode % 0x10000 == 0x4000
  {}

  /** The root is formatted with mode 040755, which is none of the three: its type is never
      shown. */
  lemma RootShowsNoKind(n: nat, who: Caller, before: int)
    requires n <= TABLE_SIZE
    ensures KindShown(Formatted(n, who).inodes[0].mode, before) == before
  {
    FormattedFields(n, who);
  }
}
