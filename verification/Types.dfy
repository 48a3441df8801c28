/** The C types, constants and records of src/knoten.h and src/block.h.
    A struct of the original is a datatype: C copies and stores structs by value, and an
    array of structs is an array of these values. */
module Types {

  /** One byte of the disk image. */
  newtype byte = x: int | 0 <= x < 256

  /** The C integer types at their x86_64 widths. Every assignment to one of these is
      checked for overflow by the verifier. */
  type short = x: int | -0x8000 <= x < 0x8000
  type cint = x: int | -0x8000_0000 <= x < 0x8000_0000
  type long = x: int | -0x8000_0000_0000_0000 <= x < 0x8000_0000_0000_0000

  /** Storing an `int` or `mode_t` into a `short` keeps the low 16 bits. */
  function ToShort(x: int): (r: short)
    ensures (r - x) % 0x10000 == 0
  {
    (x + 0x8000) % 0x10000 - 0x8000
  }

  const BLOCK_SIZE: nat := 4096
  const NAME_SIZE: nat := 256
  const MAX_FILES_IN_DIR: nat := 30
  const MAX_BLOCKS: nat := 5859
  /** The static table `inodes[100]`. */
  const TABLE_SIZE: nat := 100
  const FCB_SIZE: nat := 840
  const SUPERBLOCK_SIZE: nat := 11744
  const S_IFDIR: int := 0x4000
  const S_IFREG: int := 0x8000
  const MAGIC: cint := 666

  datatype Option<+T> = None | Some(value: T)

  /** A `fileControlBlock *`: NULL, or the address of `inodes[index]`. */
  datatype Ptr = Null | At(index: nat)

  /** The characters a C string can hold: one byte each, and never NUL. */
  predicate IsCString(s: string) {
    forall i :: 0 <= i < |s| ==> 0 < s[i] as int < 256
  }

  /** The text of a NUL-terminated `char[NAME_SIZE]`. */
  type Name = s: string | |s| < NAME_SIZE && IsCString(s)

  type Slots = s: seq<Ptr> | |s| == MAX_FILES_IN_DIR witness seq(MAX_FILES_IN_DIR, _ => Null)
  type Bitmap = s: seq<byte> | |s| == MAX_BLOCKS witness seq(MAX_BLOCKS, _ => 0)
  type DiskPointers = s: seq<byte> | |s| == 60 witness seq(60, _ => 0)

  datatype Fcb = Fcb(
    fileName: Name,
    fileSize: long,
    numBlocks: short,
    inumber: short,
    parentInumber: short,
    parentDir: Name,
    mode: short,
    uid: short,
    blocks: DiskPointers,
    time: long,
    dirContents: Slots)

  datatype Superblock = Superblock(
    magicNum: cint,
    numInodes: cint,
    numDataBlocks: cint,
    inodeStartIndex: cint,
    datablockStartIndex: cint,
    numInodesPerBlock: cint,
    ibmap: Bitmap,
    dbmap: Bitmap)

  function NoEntries(): (dc: Slots)
    ensures forall j :: 0 <= j < MAX_FILES_IN_DIR ==> dc[j] == Null
  {
    seq(MAX_FILES_IN_DIR, _ => Null)
  }

  function NoBlocks(): (bits: Bitmap)
    ensures forall k :: 0 <= k < MAX_BLOCKS ==> bits[k] == 0
  {
    seq(MAX_BLOCKS, _ => 0)
  }

  /** Globals of a C program start out as zero bytes. */
  function ZeroFcb(): Fcb {
    Fcb("", 0, 0, 0, 0, "", 0, 0, seq(60, _ => 0), 0, NoEntries())
  }

  type Table = s: seq<Fcb> | |s| == TABLE_SIZE witness seq(TABLE_SIZE, _ => ZeroFcb())

  /** The in-memory file system: the globals `sBlockData` and `inodes`. */
  datatype Memory = Memory(sb: Superblock, inodes: Table)

  function ZeroMemory(): Memory {
    Memory(Superblock(0, 0, 0, 0, 0, 0, NoBlocks(), NoBlocks()), seq(TABLE_SIZE, _ => ZeroFcb()))
  }

  /** Inode k is allocated. */
  predicate Live(m: Memory, k: int) {
    0 <= k < TABLE_SIZE && m.sb.ibmap[k] == 1
  }
}
