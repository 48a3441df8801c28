/** Flushing the memory to the disk image and loading it back: the loops of
    `flushAllInodesTodisk`, `formatDisk` and `sfs_init` as functions, and what they leave. */
module Persistence {
  import opened Types
  import opened Inodes
  import opened Codec
  import opened Layout
  import opened Block
  import opened Boot

  // ---- The loops ----

  function RecordOffset(c: Cursor): int {
    OffsetAt(BLOCK_SIZE, FCB_SIZE, c)
  }

  /** The flush loops from record i on; they stop before the last inode. */
  function WriteFrom(image: seq<byte>, m: Memory, i: nat, c: Cursor): seq<byte>
    requires m.sb.numInodes <= TABLE_SIZE + 1 && c.block >= 0 && c.fill >= 0
    decreases m.sb.numInodes - i
  {
    if i >= m.sb.numInodes - 1 then image
    else
      WriteFrom(Written(image, RecordOffset(c), FcbBytes(m.inodes[i])), m, i + 1,
                Advance(m.sb.numInodesPerBlock, c))
  }

  /** The write of the superblock's blocks takes in whatever lies behind it in memory. */
  predicate Covers(sb: Superblock, beyond: seq<byte>) {
    0 <= sb.inodeStartIndex && sb.inodeStartIndex * BLOCK_SIZE <= SUPERBLOCK_SIZE + |beyond|
  }

  /** `flushAllInodesTodisk(FALSE)`. */
  function Flush(image: seq<byte>, m: Memory, beyond: seq<byte>): seq<byte>
    requires m.sb.numInodes <= TABLE_SIZE + 1 && Covers(m.sb, beyond)
  {
    var start := m.sb.inodeStartIndex;
    WriteFrom(Written(image, 0, (SuperblockBytes(m.sb) + beyond)[..start * BLOCK_SIZE]), m, 0, Cursor(start, 0))
  }

  /** What `formatDisk` leaves on disk, `flushAllInodesTodisk(TRUE)` included. The superblock
      goes out before the bits of the free inodes are cleared. */
  function FormatImage(image: seq<byte>, m: Memory, n: nat, who: Caller): seq<byte>
    requires n <= TABLE_SIZE
  {
    var m' := FormatMemory(m, n, who);
    var start := m'.sb.inodeStartIndex;
    var withSuperblock := Written(image, 0, SuperblockBytes(FormatSuperblock(m.sb, n)));
    var withRoot := Written(withSuperblock, start * BLOCK_SIZE, FcbBytes(m'.inodes[0]));
    WriteFrom(withRoot, m', 1, Cursor(start, 1))
  }

  /** `S_ISREG` of a mode that was stored in a `short`. */
  predicate IsRegular(mode: int) {
    mode % 0x10000 / 0x1000 == 8
  }

  /** Record i read into its table slot; for a regular file the data bitmap is set as well. */
  function Loaded(m: Memory, i: nat, bytes: seq<byte>): Memory
    requires i < TABLE_SIZE && |bytes| == FCB_SIZE
  {
    var f := FcbOf(bytes);
    var sb := if IsRegular(f.mode) then m.sb.(dbmap := m.sb.dbmap[i := if f.fileSize < 1 then 0 else 1]) else m.sb;
    Memory(sb, m.inodes[i := f])
  }

  /** How many bytes of record k an empty read for record i clears: it starts at record i and
      clears a whole block. */
  function ClearedBytes(i: nat, k: nat): (n: nat)
    ensures n <= FCB_SIZE
  {
    if k < i || (k - i) * FCB_SIZE >= BLOCK_SIZE then 0
    else if (k - i + 1) * FCB_SIZE <= BLOCK_SIZE then FCB_SIZE
    else BLOCK_SIZE - (k - i) * FCB_SIZE
  }

  /** The record with its first n bytes cleared. */
  function ClearedRecord(f: Fcb, n: nat): Fcb
    requires n <= FCB_SIZE
  {
    if n == 0 then f else FcbOf(ClearedFront(FcbBytes(f), n))
  }

  function ClearedTable(t: Table, i: nat): Table {
    seq(TABLE_SIZE, k requires 0 <= k < TABLE_SIZE => ClearedRecord(t[k], ClearedBytes(i, k)))
  }

  /** The bytes of n records from record i on. */
  function Window(t: Table, i: nat, n: nat): (bytes: seq<byte>)
    requires i + n <= TABLE_SIZE
    ensures |bytes| == n * FCB_SIZE
    decreases n
  {
    if n == 0 then [] else FcbBytes(t[i]) + Window(t, i + 1, n - 1)
  }

  lemma {:induction false} WindowRecord(t: Table, i: nat, n: nat, k: nat)
    requires i + n <= TABLE_SIZE && k < n
    ensures Window(t, i, n)[k * FCB_SIZE..(k + 1) * FCB_SIZE] == FcbBytes(t[i + k])
    decreases n
  {
    hide FcbBytes;
    var rest := Window(t, i + 1, n - 1);
    if k > 0 {
      WindowRecord(t, i + 1, n - 1, k - 1);
      assert Window(t, i, n)[k * FCB_SIZE..(k + 1) * FCB_SIZE] == rest[(k - 1) * FCB_SIZE..k * FCB_SIZE];
    }
  }

  /** The records a block reaches, up to the end of the table. */
  function Reached(i: nat): (n: nat)
    requires i < TABLE_SIZE
    ensures 1 <= n <= 5 && i + n <= TABLE_SIZE
  {
    if i + 5 <= TABLE_SIZE then 5 else TABLE_SIZE - i
  }

  /** Clearing the first bytes of the memory clears the records it consists of. */
  lemma ClearedWindow(t: Table, i: nat, k: nat)
    requires i < TABLE_SIZE && k < Reached(i)
    ensures ClearedFront(Window(t, i, Reached(i)), BLOCK_SIZE)[k * FCB_SIZE..(k + 1) * FCB_SIZE]
            == ClearedFront(FcbBytes(t[i + k]), ClearedBytes(i, i + k))
  {
    hide FcbBytes, Window;
    WindowRecord(t, i, Reached(i), k);
    var window := Window(t, i, Reached(i));
    var record := ClearedFront(window, BLOCK_SIZE)[k * FCB_SIZE..(k + 1) * FCB_SIZE];
    forall x | 0 <= x < FCB_SIZE
      ensures record[x] == ClearedFront(FcbBytes(t[i + k]), ClearedBytes(i, i + k))[x]
    {
      assert window[k * FCB_SIZE..(k + 1) * FCB_SIZE][x] == window[k * FCB_SIZE + x];
    }
  }

  /** The load loop from record i on. An empty read clears a block from the record on and does
      not advance. */
  function LoadFrom(image: seq<byte>, m: Memory, i: nat, c: Cursor): Memory
    requires m.sb.numInodes <= TABLE_SIZE && c.block >= 0 && c.fill >= 0
    decreases m.sb.numInodes - i
  {
    if i >= m.sb.numInodes then m
    else
      var (ret, bytes) := ReadInto(image, RecordOffset(c), FcbBytes(m.inodes[i]));
      if ret != 0 then LoadFrom(image, Loaded(m, i, bytes), i + 1, Advance(m.sb.numInodesPerBlock, c))
      else LoadFrom(image, m.(inodes := ClearedTable(m.inodes, i)), i + 1, c)
  }

  /** The superblock `sfs_init` finds; `stack` is what its local buffer held before. */
  function SuperblockFound(image: seq<byte>, stack: seq<byte>): Superblock
    requires |stack| == SUPERBLOCK_SIZE
  {
    SuperblockOf(ReadInto(image, 0, stack).1)
  }

  /** `sfs_init` on an image that is not empty. */
  function LoadImage(image: seq<byte>, m: Memory, stack: seq<byte>): Memory
    requires |stack| == SUPERBLOCK_SIZE
    requires var sb := SuperblockFound(image, stack); sb.numInodes <= TABLE_SIZE && sb.inodeStartIndex >= 0
  {
    var sb := SuperblockFound(image, stack);
    LoadFrom(image, m.(sb := sb), 0, Cursor(sb.inodeStartIndex, 0))
  }

  // ---- What a flush leaves on disk ----

  /** Whole records fit a block, and the first comes after the superblock. */
  predicate Geometry(sb: Superblock) {
    sb.numInodesPerBlock > 0 && sb.numInodesPerBlock * FCB_SIZE <= BLOCK_SIZE &&
    sb.inodeStartIndex > 0 && SUPERBLOCK_SIZE <= sb.inodeStartIndex * BLOCK_SIZE
  }

  /** The loop counters when it is record i's turn. */
  function SlotCursor(sb: Superblock, i: nat): Cursor {
    AdvanceBy(sb.numInodesPerBlock, Cursor(sb.inodeStartIndex, 0), i)
  }

  function SlotOffset(sb: Superblock, i: nat): (r: nat)
    requires Geometry(sb)
    ensures r >= sb.inodeStartIndex * BLOCK_SIZE >= SUPERBLOCK_SIZE
  {
    WalkFromRoot(sb.inodeStartIndex, sb.numInodesPerBlock, i);
    InsideBlock(sb.inodeStartIndex, sb.numInodesPerBlock, BLOCK_SIZE, FCB_SIZE, i);
    RecordOffset(SlotCursor(sb, i))
  }

  /** All loops agree on the place of record i: block i / P of the inode region, slot i mod P. */
  lemma SlotPlace(sb: Superblock, i: nat)
    requires Geometry(sb)
    ensures SlotOffset(sb, i) == (sb.inodeStartIndex + i / sb.numInodesPerBlock) * BLOCK_SIZE
                                 + i % sb.numInodesPerBlock * FCB_SIZE
    ensures i >= 1 && sb.numInodesPerBlock >= 2 ==>
              SlotCursor(sb, i) == AdvanceBy(sb.numInodesPerBlock, Cursor(sb.inodeStartIndex, 1), i - 1)
  {
    WalkFromRoot(sb.inodeStartIndex, sb.numInodesPerBlock, i);
    if i >= 1 {
      WalkFromFirstChild(sb.inodeStartIndex, sb.numInodesPerBlock, i);
    }
  }

  lemma SlotsDisjoint(sb: Superblock, i: nat, j: nat)
    requires Geometry(sb) && i < j
    ensures SlotOffset(sb, i) + FCB_SIZE <= SlotOffset(sb, j)
  {
    WalkFromRoot(sb.inodeStartIndex, sb.numInodesPerBlock, i);
    WalkFromRoot(sb.inodeStartIndex, sb.numInodesPerBlock, j);
    Disjoint(sb.inodeStartIndex, sb.numInodesPerBlock, BLOCK_SIZE, FCB_SIZE, i, j);
  }

  predicate Holds(image: seq<byte>, at: nat, bytes: seq<byte>) {
    at + |bytes| <= |image| && image[at..at + |bytes|] == bytes
  }

  /** The image holds the superblock and every record but the last inode's. */
  ghost predicate Persisted(image: seq<byte>, m: Memory) {
    Geometry(m.sb) && Holds(image, 0, SuperblockBytes(m.sb)) && RecordsHeld(image, m, 0)
  }

  ghost predicate RecordsHeld(image: seq<byte>, m: Memory, from: nat)
    requires Geometry(m.sb)
  {
    forall k :: from <= k < m.sb.numInodes - 1 && k < TABLE_SIZE ==>
      Holds(image, SlotOffset(m.sb, k), FcbBytes(m.inodes[k]))
  }

  /** The flush loops write the records from i on and nothing else. */
  lemma {:induction false} WriteFromHolds(image: seq<byte>, m: Memory, i: nat)
    requires m.sb.numInodes <= TABLE_SIZE && Geometry(m.sb)
    ensures var r := WriteFrom(image, m, i, SlotCursor(m.sb, i));
            |r| >= |image| && RecordsHeld(r, m, i)
    decreases m.sb.numInodes - i
  {
    hide FcbBytes, OffsetAt, Written, Read;
    if i < m.sb.numInodes - 1 {
      var bytes := FcbBytes(m.inodes[i]);
      var at := SlotOffset(m.sb, i);
      var image1 := Written(image, at, bytes);
      var r := WriteFrom(image1, m, i + 1, SlotCursor(m.sb, i + 1));
      WriteFromHolds(image1, m, i + 1);
      SlotsDisjoint(m.sb, i, i + 1);
      WriteFromElsewhere(image1, m, i + 1, at, at + FCB_SIZE);
      assert image1[at..at + FCB_SIZE] == bytes by {
        WrittenIsRead(image, at, bytes);
      }
      assert Holds(r, at, bytes);
    }
  }

  lemma {:induction false} WriteFromElsewhere(image: seq<byte>, m: Memory, i: nat, lo: nat, hi: nat)
    requires m.sb.numInodes <= TABLE_SIZE && Geometry(m.sb) && lo <= hi <= |image|
    requires hi <= SlotOffset(m.sb, i) ||
             (m.sb.numInodes >= 1 && SlotOffset(m.sb, m.sb.numInodes - 1) <= lo)
    ensures var r := WriteFrom(image, m, i, SlotCursor(m.sb, i));
            |r| >= |image| && r[lo..hi] == image[lo..hi]
    decreases m.sb.numInodes - i
  {
    hide FcbBytes, OffsetAt, Written, Read;
    if i < m.sb.numInodes - 1 {
      var bytes, at := FcbBytes(m.inodes[i]), SlotOffset(m.sb, i);
      SlotsDisjoint(m.sb, i, i + 1);
      SlotsDisjoint(m.sb, i, m.sb.numInodes - 1);
      WrittenElsewhere(image, at, bytes, lo, hi);
      WriteFromElsewhere(Written(image, at, bytes), m, i + 1, lo, hi);
    }
  }

  /** The byte lies in the slot of one of the records from i on that a flush writes. */
  predicate InSlot(sb: Superblock, i: nat, k: nat)
    requires Geometry(sb)
  {
    exists x: nat :: i <= x < sb.numInodes - 1 && SlotOffset(sb, x) <= k < SlotOffset(sb, x) + FCB_SIZE
  }

  function ByteAt(image: seq<byte>, k: nat): byte {
    if k < |image| then image[k] else 0
  }

  /** Every byte outside the written slots stays; where the image grows over it, it is zero. */
  lemma {:induction false} WriteFromByte(image: seq<byte>, m: Memory, i: nat, k: nat)
    requires m.sb.numInodes <= TABLE_SIZE && Geometry(m.sb) && !InSlot(m.sb, i, k)
    ensures var r := WriteFrom(image, m, i, SlotCursor(m.sb, i)); |r| >= |image| && ByteAt(r, k) == ByteAt(image, k)
    decreases m.sb.numInodes - i
  {
    hide FcbBytes, OffsetAt, Written, Read;
    if i < m.sb.numInodes - 1 {
      var bytes, at := FcbBytes(m.inodes[i]), SlotOffset(m.sb, i);
      WrittenBytes(image, at, bytes);
      WriteFromByte(Written(image, at, bytes), m, i + 1, k);
    }
  }

  lemma {:induction false} WriteFromLength(image: seq<byte>, m: Memory, i: nat)
    requires m.sb.numInodes <= TABLE_SIZE && Geometry(m.sb)
    ensures |WriteFrom(image, m, i, SlotCursor(m.sb, i))| ==
            if i >= m.sb.numInodes - 1 then |image|
            else AtLeast(|image|, SlotOffset(m.sb, m.sb.numInodes - 2) + FCB_SIZE)
    decreases m.sb.numInodes - i
  {
    hide FcbBytes, OffsetAt, Written, Read;
    if i < m.sb.numInodes - 1 {
      var bytes, at := FcbBytes(m.inodes[i]), SlotOffset(m.sb, i);
      if i < m.sb.numInodes - 2 {
        SlotsDisjoint(m.sb, i, m.sb.numInodes - 2);
      }
      WriteFromLength(Written(image, at, bytes), m, i + 1);
    }
  }

  function AtLeast(a: nat, b: nat): nat {
    if a < b then b else a
  }

  /** Every byte of the image after a flush that is not a record's: the superblock, what lay
      behind it in memory up to the end of its blocks, and otherwise what was there before. */
  lemma FlushBytes(image: seq<byte>, m: Memory, beyond: seq<byte>, k: nat)
    requires m.sb.numInodes <= TABLE_SIZE && Geometry(m.sb) && Covers(m.sb, beyond) && !InSlot(m.sb, 0, k)
    ensures var r, front := Flush(image, m, beyond), m.sb.inodeStartIndex * BLOCK_SIZE;
            ByteAt(r, k) == if k >= front then ByteAt(image, k)
                            else if k < SUPERBLOCK_SIZE then SuperblockBytes(m.sb)[k]
                            else beyond[k - SUPERBLOCK_SIZE]
    ensures |Flush(image, m, beyond)| ==
            AtLeast(AtLeast(|image|, m.sb.inodeStartIndex * BLOCK_SIZE),
                    if m.sb.numInodes < 2 then 0 else SlotOffset(m.sb, m.sb.numInodes - 2) + FCB_SIZE)
  {
    hide FcbBytes, OffsetAt, SuperblockBytes, SlotOffset, InSlot;
    var bytes := (SuperblockBytes(m.sb) + beyond)[..m.sb.inodeStartIndex * BLOCK_SIZE];
    WrittenBytes(image, 0, bytes);
    WriteFromByte(Written(image, 0, bytes), m, 0, k);
    WriteFromLength(Written(image, 0, bytes), m, 0);
  }

  /** After a flush the image holds the memory, all but the last inode. */
  lemma FlushPersists(image: seq<byte>, m: Memory, beyond: seq<byte>)
    requires m.sb.numInodes <= TABLE_SIZE && Geometry(m.sb) && Covers(m.sb, beyond)
    ensures Persisted(Flush(image, m, beyond), m)
  {
    hide FcbBytes, OffsetAt, SuperblockBytes;
    var start, super := m.sb.inodeStartIndex, SuperblockBytes(m.sb);
    var bytes := (super + beyond)[..start * BLOCK_SIZE];
    var image1 := Written(image, 0, bytes);
    WrittenIsRead(image, 0, bytes);
    WriteFromHolds(image1, m, 0);
    WriteFromElsewhere(image1, m, 0, 0, SUPERBLOCK_SIZE);
    assert bytes[..SUPERBLOCK_SIZE] == super;
    assert image1[0..SUPERBLOCK_SIZE] == super;
  }

  /** No flush ever writes the slot of the last inode. */
  lemma FlushSkipsLast(image: seq<byte>, m: Memory, beyond: seq<byte>, bytes: seq<byte>)
    requires 1 <= m.sb.numInodes <= TABLE_SIZE && Geometry(m.sb) && Covers(m.sb, beyond)
    requires Holds(image, SlotOffset(m.sb, m.sb.numInodes - 1), bytes)
    ensures Holds(Flush(image, m, beyond), SlotOffset(m.sb, m.sb.numInodes - 1), bytes)
  {
    hide FcbBytes, OffsetAt, SuperblockBytes;
    var start, at := m.sb.inodeStartIndex, SlotOffset(m.sb, m.sb.numInodes - 1);
    var super := (SuperblockBytes(m.sb) + beyond)[..start * BLOCK_SIZE];
    WrittenElsewhere(image, 0, super, at, at + |bytes|);
    WriteFromElsewhere(Written(image, 0, super), m, 0, at, at + |bytes|);
  }

  lemma FormatGeometry(m: Memory, n: nat, who: Caller)
    requires n <= TABLE_SIZE
    ensures Geometry(FormatMemory(m, n, who).sb)
    ensures FormatMemory(m, n, who).sb.inodeStartIndex == 3 && FormatMemory(m, n, who).sb.numInodesPerBlock == 4
  {}

  /** The superblock that a format writes: the bits of the free inodes are not cleared yet. */
  function WrittenSuperblock(m: Memory, n: nat, who: Caller): Superblock
    requires n <= TABLE_SIZE
  {
    FormatMemory(m, n, who).sb.(ibmap := m.sb.ibmap[0 := 1])
  }

  /** The writes of a format are those of a flush whose first record is the root's. */
  lemma FormatShape(image: seq<byte>, m: Memory, n: nat, who: Caller)
    requires n <= TABLE_SIZE
    ensures var m' := FormatMemory(m, n, who);
            && Geometry(m'.sb) && m'.sb.numInodes == n && SlotOffset(m'.sb, 0) == 12288
            && FormatImage(image, m, n, who) ==
               WriteFrom(Written(Written(image, 0, SuperblockBytes(WrittenSuperblock(m, n, who))),
                                 SlotOffset(m'.sb, 0), FcbBytes(m'.inodes[0])),
                         m', 1, SlotCursor(m'.sb, 1))
  {
    hide FcbBytes, SuperblockBytes;
    FormatGeometry(m, n, who);
    var sb := FormatMemory(m, n, who).sb;
    assert SlotCursor(sb, 0) == Cursor(3, 0) && SlotCursor(sb, 1) == Cursor(3, 1);
  }

  /** Every byte of the image after a format of any memory: superblock, root, the free records up
      to the last but one, and otherwise what was there before. */
  lemma FormatBytes(image: seq<byte>, m: Memory, n: nat, who: Caller, k: nat)
    requires n <= TABLE_SIZE
    ensures var m', r := FormatMemory(m, n, who), FormatImage(image, m, n, who);
            && Geometry(m'.sb)
            && Holds(r, 0, SuperblockBytes(WrittenSuperblock(m, n, who)))
            && Holds(r, 12288, FcbBytes(m'.inodes[0])) && RecordsHeld(r, m', 1)
            && (k >= SUPERBLOCK_SIZE && !(12288 <= k < 13128) && !InSlot(m'.sb, 1, k) ==>
                  ByteAt(r, k) == ByteAt(image, k))
  {
    hide FcbBytes, SuperblockBytes, OffsetAt, Written, FormatMemory, FormatImage, WrittenSuperblock;
    FormatShape(image, m, n, who);
    var m' := FormatMemory(m, n, who);
    var super, root, at := SuperblockBytes(WrittenSuperblock(m, n, who)), FcbBytes(m'.inodes[0]), SlotOffset(m'.sb, 0);
    var image1 := Written(image, 0, super);
    var image2 := Written(image1, at, root);
    SlotsDisjoint(m'.sb, 0, 1);
    WrittenIsRead(image, 0, super);
    assert Holds(image1, 0, super);
    WrittenElsewhere(image1, at, root, 0, SUPERBLOCK_SIZE);
    WrittenIsRead(image1, at, root);
    WriteFromHolds(image2, m', 1);
    WriteFromElsewhere(image2, m', 1, 0, SUPERBLOCK_SIZE);
    WriteFromElsewhere(image2, m', 1, at, at + FCB_SIZE);
    if k >= SUPERBLOCK_SIZE && !(12288 <= k < 13128) && !InSlot(m'.sb, 1, k) {
      WriteFromByte(image2, m', 1, k);
      WrittenBytes(image1, at, root);
      WrittenBytes(image, 0, super);
    }
  }

  /** After a format from zeroed memory the image holds the memory too. */
  lemma FormatPersists(image: seq<byte>, n: nat, who: Caller)
    requires n <= TABLE_SIZE
    ensures Persisted(FormatImage(image, ZeroMemory(), n, who), Formatted(n, who))
  {
    hide FcbBytes, SuperblockBytes, Formatted, FormatImage;
    FormatBytes(image, ZeroMemory(), n, who, 0);
    FormattedSuperblock(n, who);
  }

  lemma FormattedSuperblock(n: nat, who: Caller)
    requires n <= TABLE_SIZE
    ensures WrittenSuperblock(ZeroMemory(), n, who) == Formatted(n, who).sb
    ensures FormatMemory(ZeroMemory(), n, who) == Formatted(n, who)
    ensures Geometry(Formatted(n, who).sb) && SlotOffset(Formatted(n, who).sb, 0) == 12288
  {
    FormatShape([], ZeroMemory(), n, who);
    hide FcbBytes, SuperblockBytes, SlotOffset, WriteFrom, Geometry;
    assert Formatted(n, who).sb.ibmap == NoBlocks()[0 := 1];
  }

  lemma FormatSkipsLast(image: seq<byte>, n: nat, who: Caller, bytes: seq<byte>)
    requires 2 <= n <= TABLE_SIZE && Geometry(Formatted(n, who).sb)
    requires Holds(image, SlotOffset(Formatted(n, who).sb, n - 1), bytes)
    ensures Holds(FormatImage(image, ZeroMemory(), n, who), SlotOffset(Formatted(n, who).sb, n - 1), bytes)
  {
    hide FcbBytes, SuperblockBytes, OffsetAt, Written, Formatted, FormatImage;
    FormatShape(image, ZeroMemory(), n, who);
    FormattedSuperblock(n, who);
    var m := Formatted(n, who);
    var at, rootAt := SlotOffset(m.sb, n - 1), SlotOffset(m.sb, 0);
    SlotsDisjoint(m.sb, 0, n - 1);
    var image1 := Written(image, 0, SuperblockBytes(m.sb));
    WrittenElsewhere(image, 0, SuperblockBytes(m.sb), at, at + |bytes|);
    WrittenElsewhere(image1, rootAt, FcbBytes(m.inodes[0]), at, at + |bytes|);
    WriteFromElsewhere(Written(image1, rootAt, FcbBytes(m.inodes[0])), m, 1, at, at + |bytes|);
  }

  // ---- What a load brings back ----

  /** Nothing is ever stored in files: sizes stay zero and no data block is taken. */
  ghost predicate NoData(m: Memory) {
    forall k :: 0 <= k < TABLE_SIZE ==> m.inodes[k].fileSize == 0 && m.sb.dbmap[k] == 0
  }

  /** Entries of all directories are table indices. */
  ghost predicate PointersOk(m: Memory) {
    forall k :: 0 <= k < TABLE_SIZE ==> InTable(m.inodes[k].dirContents)
  }

  lemma SuperblockIsFound(image: seq<byte>, saved: Memory, stack: seq<byte>)
    requires |stack| == SUPERBLOCK_SIZE && Holds(image, 0, SuperblockBytes(saved.sb))
    ensures SuperblockFound(image, stack) == saved.sb
  {
    ReadBack(image, 0, SuperblockBytes(saved.sb), stack);
    SuperblockInverts(saved.sb);
  }

  // ---- Blank records ----

  lemma {:induction false} ZeroNumber(width: nat)
    ensures LittleEndian(width, 0) == seq(width, _ => 0)
  {
    if width > 0 {
      ZeroNumber(width - 1);
    }
  }

  lemma {:induction false} ZeroSlots(dc: seq<Ptr>)
    requires forall j :: 0 <= j < |dc| ==> dc[j] == Null
    ensures SlotsBytes(dc) == seq(8 * |dc|, _ => 0)
  {
    if dc != [] {
      ZeroNumber(8);
      ZeroSlots(dc[1..]);
    }
  }

  /** A record of zero bytes is the record the table starts out with. */
  lemma BlankRecord()
    ensures FcbBytes(ZeroFcb()) == seq(FCB_SIZE, _ => 0)
    ensures FcbOf(seq(FCB_SIZE, _ => 0)) == ZeroFcb()
  {
    hide FcbOf;
    var f := ZeroFcb();
    ZeroNumber(8);
    ZeroNumber(2);
    ZeroSlots(f.dirContents);
    assert HeadBytes(f) == seq(526, _ => 0);
    assert TailBytes(f) == seq(314, _ => 0);
    assert FcbBytes(f) == seq(FCB_SIZE, _ => 0);
    FcbInverts(f);
  }

  /** Clearing a blank record changes nothing, clearing a whole one blanks it. */
  lemma ClearedBlank(f: Fcb, n: nat)
    requires n <= FCB_SIZE && (f == ZeroFcb() || n == FCB_SIZE)
    ensures ClearedRecord(f, n) == ZeroFcb()
  {
    hide FcbOf, FcbBytes;
    BlankRecord();
    assert n > 0 ==> ClearedFront(FcbBytes(f), n) == seq(FCB_SIZE, _ => 0);
  }

  // ---- The whole load ----

  /** Clearing changes no record before i, and no blank one. */
  lemma ClearedTail(t: Table, i: nat)
    requires i < TABLE_SIZE
    ensures forall k :: 0 <= k < TABLE_SIZE && (k < i || t[k] == ZeroFcb()) ==> ClearedTable(t, i)[k] == t[k]
  {
    hide FcbOf, FcbBytes, ClearedRecord;
    forall k: nat | k < TABLE_SIZE && (k < i || t[k] == ZeroFcb()) ensures ClearedTable(t, i)[k] == t[k] {
      if k < i {
        ClearedNothing(t[k]);
      } else {
        ClearedBlank(t[k], ClearedBytes(i, k));
      }
    }
  }

  lemma ClearedNothing(f: Fcb)
    ensures ClearedRecord(f, 0) == f
  {}

  /** What an empty read for record i clears: four whole records, most of the next one, and
      nothing else. */
  lemma ClearedTableIs(t: Table, i: nat, k: nat)
    requires i < TABLE_SIZE && k < TABLE_SIZE
    ensures ClearedTable(t, i)[k] ==
            if i <= k < i + 4 then ZeroFcb()
            else if k == i + 4 then FcbOf(seq(736, _ => 0) + FcbBytes(t[k])[736..])
            else t[k]
  {
    hide FcbOf, FcbBytes;
    if i <= k < i + 4 {
      hide ClearedRecord;
      ClearedBlank(t[k], ClearedBytes(i, k));
    } else if k == i + 4 {
      assert ClearedFront(FcbBytes(t[k]), 736) == seq(736, _ => 0) + FcbBytes(t[k])[736..];
    }
  }

  /** A regular file, by the type bits of `st_mode` in a signed 16-bit number. */
  lemma RegularMode(mode: short)
    ensures IsRegular(mode) <==> -0x8000 <= mode < -0x7000
  {}

  /** What a read at this place leaves in a record: the bytes there are, then the old ones. */
  function Overlaid(image: seq<byte>, at: nat, buf: seq<byte>): (r: seq<byte>)
    requires at < |image|
    ensures |r| == |buf|
  {
    if at + |buf| <= |image| then image[at..at + |buf|] else image[at..] + buf[|image| - at..]
  }

  lemma ReadOverlays(image: seq<byte>, at: nat, buf: seq<byte>)
    requires buf != []
    ensures at < |image| ==> ReadInto(image, at, buf).0 > 0 && ReadInto(image, at, buf).1 == Overlaid(image, at, buf)
    ensures at >= |image| ==> ReadInto(image, at, buf) == (0, seq(|buf|, _ => 0))
  {
    if at < |image| && at + |buf| > |image| {
      assert Read(image, at, |buf|) == image[at..];
    }
  }

  /** The superblock a mount finds on any image: the image over the buffer's old bytes, or zeros
      if the image is empty. */
  lemma FoundIsOverlaid(image: seq<byte>, stack: seq<byte>)
    requires |stack| == SUPERBLOCK_SIZE
    ensures SuperblockFound(image, stack) ==
            SuperblockOf(if image == [] then seq(SUPERBLOCK_SIZE, _ => 0) else Overlaid(image, 0, stack))
  {
    hide SuperblockOf, ReadInto, Overlaid;
    ReadOverlays(image, 0, stack);
  }

  /** The data bit of an inode after its record was loaded. */
  function DataBit(f: Fcb, was: byte): byte {
    if -0x8000 <= f.mode < -0x7000 then (if f.fileSize < 1 then 0 else 1) else was
  }

  /** What a load makes of record k: the bytes of its slot over the old record, or a blank
      record when the image ends before the slot. */
  ghost predicate RecordLoaded(image: seq<byte>, m: Memory, r: Memory, k: nat)
    requires Geometry(m.sb) && k < TABLE_SIZE
  {
    var at := SlotOffset(m.sb, k);
    if at < |image| then
      r.inodes[k] == FcbOf(Overlaid(image, at, FcbBytes(m.inodes[k]))) &&
      r.sb.dbmap[k] == DataBit(r.inodes[k], m.sb.dbmap[k])
    else r.inodes[k] == ZeroFcb() && r.sb.dbmap[k] == m.sb.dbmap[k]
  }

  /** Once a read is empty all later ones are: these records become blank. */
  lemma {:induction false} LoadEmpty(image: seq<byte>, m: Memory, i: nat, c: Cursor)
    requires m.sb.numInodes <= TABLE_SIZE && c.block >= 0 && c.fill >= 0 && RecordOffset(c) >= |image|
    ensures var r := LoadFrom(image, m, i, c);
            && r.sb == m.sb
            && (forall k :: 0 <= k < TABLE_SIZE && i <= k < m.sb.numInodes ==> r.inodes[k] == ZeroFcb())
            && (forall k :: 0 <= k < TABLE_SIZE && (k < i || i >= m.sb.numInodes || m.inodes[k] == ZeroFcb()) ==>
                  r.inodes[k] == m.inodes[k])
    decreases m.sb.numInodes - i
  {
    hide FcbOf, FcbBytes, OffsetAt, ReadInto, ClearedTable;
    if i < m.sb.numInodes {
      ReadOverlays(image, RecordOffset(c), FcbBytes(m.inodes[i]));
      ClearedTail(m.inodes, i);
      ClearedOwn(m.inodes, i);
      LoadEmpty(image, m.(inodes := ClearedTable(m.inodes, i)), i + 1, c);
    }
  }

  lemma ClearedOwn(t: Table, i: nat)
    requires i < TABLE_SIZE
    ensures ClearedTable(t, i)[i] == ZeroFcb()
  {
    hide FcbOf, FcbBytes, ClearedRecord;
    ClearedBlank(t[i], ClearedBytes(i, i));
  }

  /** The records behind the last one stay, unless an empty read clears them. */
  predicate BehindStays(image: seq<byte>, m: Memory, k: nat)
    requires Geometry(m.sb) && k < TABLE_SIZE
  {
    m.inodes[k] == ZeroFcb() || m.sb.numInodes < 1 || |image| > SlotOffset(m.sb, m.sb.numInodes - 1)
  }

  /** What a load makes of any image, from record i on. */
  ghost predicate AllLoaded(image: seq<byte>, m: Memory, r: Memory, i: nat)
    requires Geometry(m.sb)
  {
    r.sb == m.sb.(dbmap := r.sb.dbmap) &&
    (forall k :: 0 <= k < TABLE_SIZE && i <= k < m.sb.numInodes ==> RecordLoaded(image, m, r, k)) &&
    (forall k :: 0 <= k < TABLE_SIZE && (k < i || (k >= m.sb.numInodes && BehindStays(image, m, k))) ==>
       r.inodes[k] == m.inodes[k]) &&
    (forall k :: 0 <= k < MAX_BLOCKS && (k < i || k >= m.sb.numInodes) ==> r.sb.dbmap[k] == m.sb.dbmap[k])
  }

  lemma {:induction false} LoadsEvery(image: seq<byte>, m: Memory, i: nat)
    requires Geometry(m.sb) && m.sb.numInodes <= TABLE_SIZE && i <= TABLE_SIZE
    ensures AllLoaded(image, m, LoadFrom(image, m, i, SlotCursor(m.sb, i)), i)
    decreases m.sb.numInodes - i
  {
    hide FcbOf, FcbBytes, OffsetAt, ReadInto, IsRegular, Overlaid;
    if i < m.sb.numInodes {
      var at := SlotOffset(m.sb, i);
      if at < |image| {
        ReadOverlays(image, at, FcbBytes(m.inodes[i]));
        var m1 := Loaded(m, i, Overlaid(image, at, FcbBytes(m.inodes[i])));
        RegularMode(m1.inodes[i].mode);
        LoadsEvery(image, m1, i + 1);
        LoadedMeans(image, m, m1, LoadFrom(image, m1, i + 1, SlotCursor(m.sb, i + 1)), i);
      } else {
        LoadEmpty(image, m, i, SlotCursor(m.sb, i));
        LaterSlots(m.sb, i);
      }
    }
  }

  lemma LaterSlots(sb: Superblock, i: nat)
    requires Geometry(sb)
    ensures forall k: nat :: i < k ==> SlotOffset(sb, i) < SlotOffset(sb, k)
  {
    hide SlotOffset;
    forall k: nat | i < k ensures SlotOffset(sb, i) < SlotOffset(sb, k) {
      SlotsDisjoint(sb, i, k);
    }
  }

  /** One round and the rest of the load. */
  lemma LoadedMeans(image: seq<byte>, m: Memory, m1: Memory, r: Memory, i: nat)
    requires Geometry(m.sb) && Geometry(m1.sb) && m1.sb == m.sb.(dbmap := m1.sb.dbmap) && i < TABLE_SIZE
    requires i < m.sb.numInodes && SlotOffset(m.sb, i) < |image|
    requires forall k :: 0 <= k < TABLE_SIZE && k != i ==> m1.inodes[k] == m.inodes[k]
    requires forall k :: 0 <= k < MAX_BLOCKS && k != i ==> m1.sb.dbmap[k] == m.sb.dbmap[k]
    requires m1.inodes[i] == FcbOf(Overlaid(image, SlotOffset(m.sb, i), FcbBytes(m.inodes[i])))
    requires m1.sb.dbmap[i] == DataBit(m1.inodes[i], m.sb.dbmap[i])
    requires AllLoaded(image, m1, r, i + 1)
    ensures AllLoaded(image, m, r, i)
  {
    FirstLoaded(image, m, m1, r, i);
    hide FcbOf, FcbBytes, SlotOffset, Overlaid, DataBit, Geometry, RecordLoaded, BehindStays;
    forall k: nat | i < k < m.sb.numInodes && k < TABLE_SIZE ensures RecordLoaded(image, m, r, k) {
      LoadedAlike(image, m, m1, r, k);
    }
    forall k: nat | k < TABLE_SIZE && k != i && BehindStays(image, m, k) ensures BehindStays(image, m1, k) {
      StaysAlike(image, m, m1, k);
    }
  }

  lemma FirstLoaded(image: seq<byte>, m: Memory, m1: Memory, r: Memory, i: nat)
    requires Geometry(m.sb) && i < TABLE_SIZE && SlotOffset(m.sb, i) < |image|
    requires m1.inodes[i] == FcbOf(Overlaid(image, SlotOffset(m.sb, i), FcbBytes(m.inodes[i])))
    requires m1.sb.dbmap[i] == DataBit(m1.inodes[i], m.sb.dbmap[i])
    requires r.inodes[i] == m1.inodes[i] && r.sb.dbmap[i] == m1.sb.dbmap[i]
    ensures RecordLoaded(image, m, r, i)
  {}

  lemma StaysAlike(image: seq<byte>, m: Memory, m1: Memory, k: nat)
    requires Geometry(m.sb) && Geometry(m1.sb) && m1.sb == m.sb.(dbmap := m1.sb.dbmap) && k < TABLE_SIZE
    requires m1.inodes[k] == m.inodes[k] && BehindStays(image, m, k)
    ensures BehindStays(image, m1, k)
  {
    SlotsOfSuper(m.sb, m1.sb);
    hide SlotOffset;
  }

  lemma LoadedAlike(image: seq<byte>, m: Memory, m1: Memory, r: Memory, k: nat)
    requires Geometry(m.sb) && Geometry(m1.sb) && m1.sb == m.sb.(dbmap := m1.sb.dbmap) && k < TABLE_SIZE
    requires m1.inodes[k] == m.inodes[k] && m1.sb.dbmap[k] == m.sb.dbmap[k] && RecordLoaded(image, m1, r, k)
    ensures RecordLoaded(image, m, r, k)
  {
    SlotsOfSuper(m.sb, m1.sb);
    hide FcbOf, FcbBytes, SlotOffset, Overlaid, DataBit;
  }

  lemma SlotsOfSuper(sb: Superblock, sb': Superblock)
    requires Geometry(sb) && Geometry(sb') && sb' == sb.(dbmap := sb'.dbmap)
    ensures forall k: nat :: SlotOffset(sb', k) == SlotOffset(sb, k)
  {}

  /** A record whose bytes the image holds comes back, with its data bit set by size and type. */
  lemma HeldIsLoaded(image: seq<byte>, m: Memory, r: Memory, k: nat, f: Fcb)
    requires Geometry(m.sb) && k < TABLE_SIZE && InTable(f.dirContents)
    requires RecordLoaded(image, m, r, k) && Holds(image, SlotOffset(m.sb, k), FcbBytes(f))
    ensures r.inodes[k] == f && r.sb.dbmap[k] == DataBit(f, m.sb.dbmap[k])
  {
    hide FcbOf, FcbBytes, SlotOffset, DataBit;
    FcbInverts(f);
  }

  /** Remount round trip, with or without data: a load brings back the superblock, up to data
      bits that follow from the records, and every record but the last inode's. */
  lemma LoadRestores(image: seq<byte>, saved: Memory, m: Memory, stack: seq<byte>)
    requires Persisted(image, saved) && PointersOk(saved)
    requires 1 <= saved.sb.numInodes <= TABLE_SIZE && |stack| == SUPERBLOCK_SIZE
    ensures SuperblockFound(image, stack) == saved.sb
    ensures var r := LoadImage(image, m, stack); var last := saved.sb.numInodes - 1;
            && r.sb == saved.sb.(dbmap := r.sb.dbmap)
            && (forall k :: 0 <= k < last ==>
                  r.inodes[k] == saved.inodes[k] && r.sb.dbmap[k] == DataBit(saved.inodes[k], saved.sb.dbmap[k]))
            && (forall k :: last < k < MAX_BLOCKS ==> r.sb.dbmap[k] == saved.sb.dbmap[k])
            && (forall k :: last < k < TABLE_SIZE && BehindStays(image, m.(sb := saved.sb), k) ==>
                  r.inodes[k] == m.inodes[k])
  {
    hide FcbOf, FcbBytes, OffsetAt, SuperblockBytes, SuperblockOf, LoadFrom, SlotOffset, DataBit, RecordLoaded;
    SuperblockIsFound(image, saved, stack);
    var m0, r := m.(sb := saved.sb), LoadImage(image, m, stack);
    LoadsEvery(image, m0, 0);
    forall k: nat | k < saved.sb.numInodes - 1
      ensures r.inodes[k] == saved.inodes[k] && r.sb.dbmap[k] == DataBit(saved.inodes[k], saved.sb.dbmap[k])
    {
      HeldIsLoaded(image, m0, r, k, saved.inodes[k]);
    }
  }

  /** From a blank slot the last inode comes back as a blank record, and the superblock is
      exactly the saved one. */
  lemma LoadBlanksLast(image: seq<byte>, saved: Memory, m: Memory, stack: seq<byte>)
    requires Persisted(image, saved) && PointersOk(saved) && NoData(saved)
    requires 1 <= saved.sb.numInodes <= TABLE_SIZE && |stack| == SUPERBLOCK_SIZE
    requires Holds(image, SlotOffset(saved.sb, saved.sb.numInodes - 1), seq(FCB_SIZE, _ => 0))
    ensures SuperblockFound(image, stack) == saved.sb
    ensures var r := LoadImage(image, m, stack); var last := saved.sb.numInodes - 1;
            && r.sb == saved.sb
            && r.inodes == saved.inodes[..last] + [ZeroFcb()] + m.inodes[last + 1..]
  {
    hide FcbOf, FcbBytes, OffsetAt, SuperblockBytes, SuperblockOf, LoadFrom, SlotOffset, RecordLoaded;
    LoadRestores(image, saved, m, stack);
    var m0, r, last := m.(sb := saved.sb), LoadImage(image, m, stack), saved.sb.numInodes - 1;
    LoadsEvery(image, m0, 0);
    BlankRecord();
    HeldIsLoaded(image, m0, r, last, ZeroFcb());
    assert DataBit(ZeroFcb(), saved.sb.dbmap[last]) == saved.sb.dbmap[last];
    forall k | 0 <= k < MAX_BLOCKS ensures r.sb.dbmap[k] == saved.sb.dbmap[k] {
      if k < last {
        assert DataBit(saved.inodes[k], 0) == 0;
      }
    }
    assert r.sb.dbmap == saved.sb.dbmap;
  }
}
