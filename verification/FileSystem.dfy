/** The file system as the original keeps it: global superblock, bitmaps and inode table,
    updated in place by the functions of src/DateiSteuerBlock.c and src/sfs.c. Each method is
    proved to compute the function of the same name in the specification modules. */
module FileSystem {
  import opened Types
  import opened Paths
  import opened DirEntries
  import Inodes
  import opened Runs
  import opened Boot
  import opened Attributes
  import opened Listing
  import opened Format
  import opened Codec
  import opened Layout
  import opened Block
  import opened Persistence
  import opened Remount
  import opened Sessions

  lemma DetachKeepsGeometry(m: Memory, f: nat)
    requires Inodes.Sane(m) && f < TABLE_SIZE && m.inodes[f].parentInumber != -1
    ensures var sb := Inodes.Detach(m, f).sb; sb == m.sb.(ibmap := sb.ibmap)
  {}

  lemma NextTriangle(k: nat)
    ensures (k + 1) * (k + 2) == k * (k + 1) + 2 * (k + 1)
  {}

  /** What a read of record i, with the records behind it, means for record i. */
  lemma RecordRead(image: seq<byte>, at: nat, t: Table, i: nat, ret: nat, bytes: seq<byte>)
    requires i < TABLE_SIZE
    requires ret == if at >= |image| then 0 else if at + FCB_SIZE <= |image| then FCB_SIZE else |image| - at
    requires ret > 0 ==> bytes == image[at..at + ret] + Window(t, i, Reached(i))[ret..]
    ensures ReadInto(image, at, FcbBytes(t[i])).0 == ret
    ensures ret > 0 ==> |bytes| >= FCB_SIZE && bytes[..FCB_SIZE] == ReadInto(image, at, FcbBytes(t[i])).1
  {
    hide FcbBytes, Window, ReadInto;
    WindowRecord(t, i, Reached(i), 0);
    var record := FcbBytes(t[i]);
    var filled := if ret > 0 then image[at..at + ret] + record[ret..] else seq(FCB_SIZE, _ => 0);
    ReadOutcome(image, at, record, ret, filled);
    if ret > 0 {
      FrontOfRead(image[at..at + ret], Window(t, i, Reached(i)), record);
    }
  }

  lemma FrontOfRead(got: seq<byte>, memory: seq<byte>, record: seq<byte>)
    requires |got| <= |record| <= |memory| && memory[..|record|] == record
    ensures (got + memory[|got|..])[..|record|] == got + record[|got|..]
  {}

  class Sfs {
    // sBlockData
    var magicNum: cint
    var numInodes: cint
    var numDataBlocks: cint
    var inodeStartIndex: cint
    var datablockStartIndex: cint
    var numInodesPerBlock: cint
    const ibmap: array<byte>
    const dbmap: array<byte>
    // inodes[100]
    const inodes: array<Fcb>
    const disk: Disk

    ghost predicate Valid() {
      ibmap.Length == MAX_BLOCKS && dbmap.Length == MAX_BLOCKS && ibmap != dbmap && inodes.Length == TABLE_SIZE
    }

    function Super(): Superblock
      reads this, ibmap, dbmap
      requires Valid()
    {
      Superblock(magicNum, numInodes, numDataBlocks, inodeStartIndex, datablockStartIndex, numInodesPerBlock,
                 ibmap[..], dbmap[..])
    }

    /** The memory the fields stand for. */
    function View(): Memory
      reads this, ibmap, dbmap, inodes
      requires Valid()
    {
      Memory(Super(), inodes[..])
    }

    /** Memory and disk image together. */
    function Now(): State
      reads this, ibmap, dbmap, inodes, disk
      requires Valid()
    {
      State(View(), disk.image)
    }

    /** A fresh process: zeroed globals and an opened disk file. */
    constructor (d: Disk)
      ensures Valid() && View() == ZeroMemory() && disk == d
      ensures fresh(ibmap) && fresh(dbmap) && fresh(inodes)
    {
      magicNum, numInodes, numDataBlocks := 0, 0, 0;
      inodeStartIndex, datablockStartIndex, numInodesPerBlock := 0, 0, 0;
      ibmap := new byte[MAX_BLOCKS](_ => 0);
      dbmap := new byte[MAX_BLOCKS](_ => 0);
      inodes := new Fcb[TABLE_SIZE](_ => ZeroFcb());
      disk := d;
      new;
      assert ibmap[..] == NoBlocks() && dbmap[..] == NoBlocks();
      assert inodes[..] == ZeroMemory().inodes;
    }

    // ---- Lookup ----

    method FindFileOrDir(filePath: string) returns (r: Ptr)
      requires Valid() && numInodes <= TABLE_SIZE && IsCString(filePath)
      ensures r == Inodes.Find(View(), filePath)
    {
      hide LastSlash, BaseName, RelativeParentName, IsCString;
      if filePath == "/" {
        return At(0);
      }
      var relativeName := RelativeName(filePath);
      ghost var m := View();
      var x := 0;
      while x < numInodes
        invariant 0 <= x && Inodes.FindFrom(m, filePath, x) == Inodes.FindFrom(m, filePath, 0)
      {
        if inodes[x].fileName == relativeName {
          var relativeParentName := GetRelativeParentName(filePath);
          if relativeParentName == None || relativeParentName == Some(inodes[x].parentDir) {
            return At(x);
          }
        }
        x := x + 1;
      }
      r := Null;
    }

    // ---- Directory entries ----

    /** Always reports success: the test for a full directory can never fire. */
    method AddToDirentry(parent: nat, child: nat) returns (ok: bool)
      requires Valid() && parent < TABLE_SIZE
      modifies inodes
      ensures ok
      ensures inodes[..] ==
              Inodes.PutEntries(old(inodes[..]), parent, AddEntry(old(inodes[parent].dirContents), child))
    {
      ghost var dc := inodes[parent].dirContents;
      var i := 0;
      while i < MAX_FILES_IN_DIR
        invariant 0 <= i <= MAX_FILES_IN_DIR && inodes[..] == old(inodes[..])
        invariant FirstNull(dc, i) == FirstNull(dc, 0)
      {
        if inodes[parent].dirContents[i] == Null {
          inodes[parent] := inodes[parent].(dirContents := inodes[parent].dirContents[i := At(child)]);
          break;
        }
        i := i + 1;
      }
      ok := !(i > MAX_FILES_IN_DIR);
    }

    /** The requires is what keeps `lastEntryInDirentry` inside the array. */
    method IndexedRemoveFromDirentry(parent: nat, dirContentIndex: nat) returns (ok: bool)
      requires Valid() && parent < TABLE_SIZE && dirContentIndex < MAX_FILES_IN_DIR
      requires DoubleStep(inodes[parent].dirContents, 0) == MAX_FILES_IN_DIR
      modifies inodes
      ensures ok
      ensures inodes[..] ==
              Inodes.PutEntries(old(inodes[..]), parent, RemoveAt(old(inodes[parent].dirContents), dirContentIndex))
    {
      ghost var dc := inodes[parent].dirContents;
      var lastEntryInDirentry := -1;
      var i := 0;
      while i < MAX_FILES_IN_DIR
        invariant 0 <= i <= MAX_FILES_IN_DIR
        invariant DoubleStep(dc, i) == DoubleStep(dc, 0)
      {
        if inodes[parent].dirContents[i] != Null {
          i := i + 1;
        }
        i := i + 1;
      }
      lastEntryInDirentry := i - 1;
      ok := lastEntryInDirentry != -1;
      if ok {
        var entries := inodes[parent].dirContents;
        if lastEntryInDirentry == dirContentIndex {
          inodes[parent] := inodes[parent].(dirContents := entries[lastEntryInDirentry := Null]);
        } else {
          inodes[parent] := inodes[parent].(dirContents := entries[dirContentIndex := entries[lastEntryInDirentry]]);
          inodes[parent] := inodes[parent].(dirContents := inodes[parent].dirContents[lastEntryInDirentry := Null]);
        }
      }
    }

    method RemoveFromDirentry(parent: nat, child: nat) returns (ok: bool)
      requires Valid() && parent < TABLE_SIZE && child < TABLE_SIZE && Inodes.SaneSlots(inodes[parent].dirContents)
      modifies inodes
      ensures ok
      ensures inodes[..] ==
              Inodes.PutEntries(old(inodes[..]), parent,
                Inodes.Unlink(old(View()), old(inodes[parent].dirContents), old(inodes[child].inumber)))
    {
      ghost var m, dc, number := View(), inodes[parent].dirContents, inodes[child].inumber;
      var i := 0;
      while i < MAX_FILES_IN_DIR
        invariant 0 <= i <= MAX_FILES_IN_DIR && View() == m
        invariant Inodes.FindEntry(m, dc, number, i) == Inodes.FindEntry(m, dc, number, 0)
      {
        var entry := inodes[parent].dirContents[i];
        if entry != Null && inodes[entry.index].inumber == inodes[child].inumber {
          RemoveKeeps(dc, i);
          ok := IndexedRemoveFromDirentry(parent, i);
          return;
        }
        i := i + 1;
      }
      ok := !(i > MAX_FILES_IN_DIR);
    }

    // ---- Flushing ----

    method FlushAllInodesToDisk(beyond: seq<byte>)
      requires Valid() && numInodes <= TABLE_SIZE && Covers(Super(), beyond)
      modifies disk
      ensures disk.image == Flush(old(disk.image), View(), beyond)
    {
      hide FcbBytes, SuperblockBytes, Written;
      ghost var m := View();
      disk.SBlockWritePadded(SuperblockBytes(Super()) + beyond, BLOCK_SIZE * inodeStartIndex);
      var currBlockFillNum, currBlock := 0, inodeStartIndex as int;
      var i := 0;
      ghost var start := disk.image;
      while i < numInodes - 1
        invariant 0 <= i && currBlock >= 0 && currBlockFillNum >= 0
        invariant WriteFrom(disk.image, m, i, Cursor(currBlock, currBlockFillNum))
                  == WriteFrom(start, m, 0, Cursor(inodeStartIndex, 0))
      {
        disk.BlockWritePadded(currBlock, FcbBytes(inodes[i]), currBlockFillNum * FCB_SIZE);
        currBlockFillNum := currBlockFillNum + 1;
        if currBlockFillNum >= numInodesPerBlock {
          currBlockFillNum := 0;
          currBlock := currBlock + 1;
        }
        i := i + 1;
      }
    }

    /** The first-time flush. It clears the bits of the inodes it writes, and writes their
        records as they are: the copy that the original resets is never used. */
    method FlushFirstTime()
      requires Valid() && numInodes <= TABLE_SIZE && inodeStartIndex >= 0
      modifies disk, ibmap
      ensures ibmap[..] == Cleared(old(ibmap[..]), numInodes - 1)
      ensures disk.image == WriteFrom(old(disk.image), View(), 1, Cursor(inodeStartIndex, 1))
    {
      hide FcbBytes, Written, Cleared;
      var currBlockFillNum, currBlock := 1, inodeStartIndex as int;
      var i := 1;
      ghost var bits := ibmap[..];
      ClearedNone(bits);
      ghost var last := View().(sb := Super().(ibmap := Cleared(bits, numInodes - 1)));
      ghost var target := WriteFrom(disk.image, last, 1, Cursor(inodeStartIndex, 1));
      while i < numInodes - 1
        invariant 1 <= i && currBlock >= 0 && currBlockFillNum >= 0
        invariant ibmap[..] == Cleared(bits, i)
        invariant i <= numInodes - 1 || Cleared(bits, i) == Cleared(bits, numInodes - 1)
        invariant WriteFrom(disk.image, last, i, Cursor(currBlock, currBlockFillNum)) == target
      {
        ClearedNext(bits, i);
        ibmap[i] := 0;
        disk.BlockWritePadded(currBlock, FcbBytes(inodes[i]), currBlockFillNum * FCB_SIZE);
        currBlockFillNum := currBlockFillNum + 1;
        if currBlockFillNum >= numInodesPerBlock {
          currBlockFillNum := 0;
          currBlock := currBlock + 1;
        }
        i := i + 1;
      }
    }

    // ---- create_inode and remove_inode ----

    method CreateInode(path: string, who: Inodes.Caller, beyond: seq<byte>) returns (r: Ptr)
      requires Valid() && Inodes.Creatable(View(), path) && Covers(Super(), beyond)
      modifies ibmap, inodes, disk
      ensures (View(), r) == Inodes.CreateInode(old(View()), path, who)
      ensures disk.image == if r == Null then old(disk.image) else Flush(old(disk.image), View(), beyond)
    {
      ghost var m := View();
      var i := 1;
      while i < numInodes
        invariant 1 <= i && View() == m && disk.image == old(disk.image)
        invariant Inodes.FirstFree(m, i) == Inodes.FirstFree(m, 1)
      {
        if ibmap[i] != 1 {
          r := CreateAt(i, path, who, beyond);
          return;
        }
        i := i + 1;
      }
      r := Null;
    }

    /** The body of the scan in `create_inode`, for the free inode it found. */
    method CreateAt(i: nat, path: string, who: Inodes.Caller, beyond: seq<byte>) returns (r: Ptr)
      requires Valid() && Inodes.Creatable(View(), path) && Covers(Super(), beyond)
      requires i == Inodes.FirstFree(View(), 1) < numInodes
      modifies ibmap, inodes, disk
      ensures (View(), r) == Inodes.CreateInode(old(View()), path, who)
      ensures disk.image == if r == Null then old(disk.image) else Flush(old(disk.image), View(), beyond)
    {
      hide FcbBytes, Flush, Inodes.Install, Inodes.Find;
      hide LastSlash, BaseName, RelativeParentName, ParentPath, IsCString;
      Inodes.NamesAreCStrings(path);
      ParentPathText(path);
      var relativeName := RelativeName(path);
      var parentDir := GetRelativeParentName(path);
      if parentDir == None {
        return Null;
      }
      var parent := Null;
      if parentDir.value == "/" {
        parent := At(0);
      } else {
        var absolutePathToParent := CopyPrefix(path, |path| - |relativeName| - 1);
        parent := FindFileOrDir(absolutePathToParent);
      }
      if parent == Null {
        return Null;
      }
      assert parent == Inodes.FindParent(View(), path);
      FillIn(parent.index, i, relativeName, parentDir.value, who);
      FlushAllInodesToDisk(beyond);
      r := At(i);
    }

    /** Links inode i into record p and writes its fields, in the order of the original. */
    method FillIn(p: nat, i: nat, relativeName: Name, parentDir: Name, who: Inodes.Caller)
      requires Valid() && p < TABLE_SIZE && i < TABLE_SIZE
      modifies ibmap, inodes
      ensures View() == Inodes.Install(old(View()), p, i, relativeName, parentDir, who)
    {
      var linked := AddToDirentry(p, i);
      assert linked;
      inodes[i] := inodes[i].(fileName := relativeName, parentDir := parentDir);
      inodes[i] := inodes[i].(parentInumber := inodes[p].inumber);
      inodes[i] := inodes[i].(mode := ToShort(who.mode), uid := ToShort(who.uid), time := who.now, inumber := i);
      inodes[i] := inodes[i].(parentInumber := inodes[p].inumber);
      ibmap[i] := 1;
    }

    method RemoveInode(filePath: string, beyond: seq<byte>) returns (ok: bool)
      requires Valid() && Inodes.Sane(View()) && IsCString(filePath) && filePath != "/" && Covers(Super(), beyond)
      modifies ibmap, inodes, disk
      ensures (View(), ok) == Inodes.RemoveInode(old(View()), filePath)
      ensures disk.image == if ok then Flush(old(disk.image), View(), beyond) else old(disk.image)
    {
      hide FcbBytes, Flush, Inodes.Detach, Inodes.Find, Inodes.RemoveInode, Inodes.Sane;
      Inodes.RemovalTarget(View(), filePath);
      var f := FindFileOrDir(filePath);
      if f == Null {
        return false;
      }
      ok := TakeOut(f.index);
      DetachKeepsGeometry(old(View()), f.index);
      FlushAllInodesToDisk(beyond);
    }

    /** Lines 283 to 286 of `remove_inode`, for the record it found. */
    method TakeOut(f: nat) returns (ok: bool)
      requires Valid() && Inodes.Sane(View()) && f < TABLE_SIZE && inodes[f].parentInumber != -1
      modifies ibmap, inodes
      ensures ok && View() == Inodes.Detach(old(View()), f)
    {
      ghost var m := View();
      assert Inodes.SaneRecord(m.inodes[f], f);
      var p := inodes[f].parentInumber;
      assert Inodes.SaneRecord(m.inodes[p], p);
      hide LastSlotLast, Inodes.Unlink;
      ok := RemoveFromDirentry(p, f);
      assert inodes[f].inumber == m.inodes[f].inumber;
      ibmap[inodes[f].inumber] := 0;
    }

    // ---- formatDisk ----

    /** The loop that divides the disk up. Its counters are C ints: the verifier checks that
        none overflows, which holds for exactly these disks (`Format.CountersFitIff`). */
    method AllocateSpace(diskSize: cint)
      requires Valid() && numInodes == 0 && numDataBlocks == 0 && 0 <= diskSize <= MAX_COUNTED
      modifies this`numInodes, this`numDataBlocks
      ensures numInodes == InodesFor(diskSize) && numDataBlocks == 15 * numInodes
    {
      var remainingSpace: cint := diskSize - SUPERBLOCK_SIZE;
      var spaceUsed: cint, currAllocation: cint := 0, 0;
      CountersFitIff(diskSize);
      assert ALLOCATION == 61444;
      while spaceUsed < remainingSpace
        invariant 0 <= numInodes <= 263 && numDataBlocks == 15 * numInodes
        invariant currAllocation == numInodes * 61444
        invariant 2 * spaceUsed == 61444 * (numInodes * (numInodes + 1))
        invariant numInodes + Rounds(remainingSpace, ALLOCATION, spaceUsed, currAllocation) == InodesFor(diskSize)
        decreases remainingSpace - currAllocation
      {
        currAllocation := currAllocation + ALLOCATION;
        if currAllocation < remainingSpace {
          NextTriangle(numInodes);
          Product(numInodes + 1, 263);
          spaceUsed := spaceUsed + currAllocation;
          numInodes := numInodes + 1;
          numDataBlocks := numDataBlocks + 15;
        } else {
          break;
        }
      }
    }

    method FormatDisk(diskSize: cint, who: Inodes.Caller)
      requires Valid() && numInodes == 0 && numDataBlocks == 0 && 0 <= diskSize <= MAX_DISK
      modifies this, ibmap, inodes, disk
      ensures InodesFor(diskSize) <= TABLE_SIZE
      ensures View() == FormatMemory(old(View()), InodesFor(diskSize), who)
      ensures disk.image == FormatImage(old(disk.image), old(View()), InodesFor(diskSize), who)
    {
      hide FcbBytes, SuperblockBytes, Written, WriteFrom;
      ghost var m := View();
      TableSufficesIff(diskSize);
      numInodesPerBlock := BLOCK_SIZE / FCB_SIZE;
      inodeStartIndex := 1 + SUPERBLOCK_SIZE / BLOCK_SIZE;
      AllocateSpace(diskSize);
      magicNum := MAGIC;
      ibmap[0] := 1;
      FillInRoot(who);
      assert Super() == FormatSuperblock(m.sb, InodesFor(diskSize));
      assert SuperblockBytes(Super())[..SUPERBLOCK_SIZE] == SuperblockBytes(Super());
      disk.SBlockWritePadded(SuperblockBytes(Super()), SUPERBLOCK_SIZE);
      disk.BlockWritePadded(inodeStartIndex, FcbBytes(inodes[0]), 0);
      FlushFirstTime();
    }

    method FillInRoot(who: Inodes.Caller)
      requires Valid()
      modifies inodes
      ensures inodes[..] == old(inodes[..])[0 := RootRecord(old(inodes[0]), who)]
    {
      inodes[0] := inodes[0].(fileName := "/", fileSize := 0, parentDir := "", mode := S_IFDIR + 493);
      inodes[0] := inodes[0].(uid := ToShort(who.uid), time := who.now, inumber := 0, parentInumber := -1);
      InitDirContents(0);
    }

    method InitDirContents(k: nat)
      requires Valid() && k < TABLE_SIZE
      modifies inodes
      ensures inodes[..] == Inodes.PutEntries(old(inodes[..]), k, NoEntries())
    {
      var i := 0;
      while i < MAX_FILES_IN_DIR
        invariant 0 <= i <= MAX_FILES_IN_DIR
        invariant forall j :: 0 <= j < i ==> inodes[k].dirContents[j] == Null
        invariant inodes[..] == old(inodes[..])[k := old(inodes[k]).(dirContents := inodes[k].dirContents)]
      {
        inodes[k] := inodes[k].(dirContents := inodes[k].dirContents[i := Null]);
        i := i + 1;
      }
      assert inodes[k].dirContents == NoEntries();
    }

    // ---- sfs_init ----

    /** Mounting: an empty image is formatted, any other is loaded. */
    method SfsInit(who: Inodes.Caller, stack: seq<byte>)
      requires Valid() && |stack| == SUPERBLOCK_SIZE
      requires disk.image == [] ==> numInodes == 0 && numDataBlocks == 0
      requires disk.image != [] ==>
                 var sb := SuperblockFound(disk.image, stack); sb.numInodes <= TABLE_SIZE && sb.inodeStartIndex >= 0
      modifies this, ibmap, dbmap, inodes, disk
      ensures old(disk.image) == [] ==>
                View() == FormatMemory(old(View()), 0, who) && disk.image == FormatImage([], old(View()), 0, who)
      ensures old(disk.image) != [] ==>
                View() == LoadImage(old(disk.image), old(View()), stack) && disk.image == old(disk.image)
    {
      hide SuperblockBytes, SuperblockOf, FcbBytes, FcbOf;
      var ret, buf := disk.SBlockRead(stack);
      ReadOutcome(disk.image, 0, stack, ret, buf);
      if ret == 0 {
        assert disk.image == [];
        EmptyDiskGetsNoInodes(0);
        FormatDisk(|disk.image|, who);
      } else {
        StoreSuperblock(SuperblockOf(buf));
        LoadInodes();
      }
    }

    /** `memcpy(sBlock, buf, sizeof(superblock))`. */
    method StoreSuperblock(sb: Superblock)
      requires Valid()
      modifies this, ibmap, dbmap
      ensures View() == old(View()).(sb := sb)
    {
      magicNum, numInodes, numDataBlocks := sb.magicNum, sb.numInodes, sb.numDataBlocks;
      inodeStartIndex, datablockStartIndex := sb.inodeStartIndex, sb.datablockStartIndex;
      numInodesPerBlock := sb.numInodesPerBlock;
      forall k | 0 <= k < MAX_BLOCKS {
        ibmap[k] := sb.ibmap[k];
      }
      forall k | 0 <= k < MAX_BLOCKS {
        dbmap[k] := sb.dbmap[k];
      }
      assert ibmap[..] == sb.ibmap && dbmap[..] == sb.dbmap;
    }

    method LoadInodes()
      requires Valid() && numInodes <= TABLE_SIZE && inodeStartIndex >= 0
      modifies dbmap, inodes
      ensures View() == LoadFrom(disk.image, old(View()), 0, Cursor(inodeStartIndex, 0))
    {
      hide FcbBytes, FcbOf, ReadInto, Window, ClearedTable, ClearedFront;
      var i, endCond := 0, numInodes;
      var currBlockFillNum, currBlock := 0, inodeStartIndex as int;
      while i < endCond
        invariant 0 <= i && currBlock >= 0 && currBlockFillNum >= 0
        invariant LoadFrom(disk.image, View(), i, Cursor(currBlock, currBlockFillNum))
                  == LoadFrom(disk.image, old(View()), 0, Cursor(inodeStartIndex, 0))
      {
        ghost var at := currBlock * BLOCK_SIZE + currBlockFillNum * FCB_SIZE;
        var isSucc, bytes :=
          disk.InodeRead(currBlock, Window(inodes[..], i, Reached(i)), currBlockFillNum * FCB_SIZE);
        RecordRead(disk.image, at, inodes[..], i, isSucc, bytes);
        if isSucc != 0 {
          StoreRecord(i, bytes[..FCB_SIZE]);
          currBlockFillNum := currBlockFillNum + 1;
          if currBlockFillNum >= numInodesPerBlock {
            currBlockFillNum := 0;
            currBlock := currBlock + 1;
          }
        } else {
          StoreCleared(i, bytes);
        }
        i := i + 1;
      }
    }

    /** A record that was read; for a regular file the data bitmap follows its size. */
    method StoreRecord(i: nat, bytes: seq<byte>)
      requires Valid() && i < TABLE_SIZE && |bytes| == FCB_SIZE
      modifies dbmap, inodes
      ensures View() == Loaded(old(View()), i, bytes)
    {
      inodes[i] := FcbOf(bytes);
      if IsRegular(inodes[i].mode) {
        dbmap[i] := if inodes[i].fileSize < 1 then 0 else 1;
      }
    }

    /** An empty `inode_read` has cleared memory from record i on. */
    method StoreCleared(i: nat, bytes: seq<byte>)
      requires Valid() && i < TABLE_SIZE
      requires bytes == ClearedFront(Window(inodes[..], i, Reached(i)), BLOCK_SIZE)
      modifies inodes
      ensures inodes[..] == ClearedTable(old(inodes[..]), i)
    {
      hide FcbBytes, FcbOf, Window, ClearedFront;
      ghost var t := inodes[..];
      forall k | i <= k < i + Reached(i) {
        inodes[k] := FcbOf(bytes[(k - i) * FCB_SIZE..(k - i + 1) * FCB_SIZE]);
      }
      forall k | i <= k < i + Reached(i) ensures inodes[k] == ClearedTable(t, i)[k] {
        ClearedWindow(t, i, k - i);
      }
    }

    // ---- The operations the kernel calls ----

    /** `sfs_create`; a failure reports whatever errno held before. */
    method SfsCreate(path: string, who: Inodes.Caller, errno: int, beyond: seq<byte>) returns (ret: int)
      requires Valid() && Inodes.Sane(View()) && SafeOp(Create(path, who)) && Covers(Super(), beyond)
      modifies ibmap, inodes, disk
      ensures Now() == CallStep(old(Now()), Call(Create(path, who), beyond))
      ensures ret == if StepResult(old(View()), Create(path, who)) == Null then -errno else 0
    {
      hide Flush;
      var r := CreateInode(path, who, beyond);
      ret := if r == Null then -errno else 0;
    }

    /** `sfs_mkdir`; it reports success whether or not it created anything. */
    method SfsMkdir(path: string, who: Inodes.Caller, beyond: seq<byte>) returns (ret: int)
      requires Valid() && Inodes.Sane(View()) && SafeOp(Mkdir(path, who)) && Covers(Super(), beyond)
      modifies ibmap, inodes, disk
      ensures Now() == CallStep(old(Now()), Call(Mkdir(path, who), beyond))
      ensures ret == 0
    {
      hide Flush;
      if who.mode == DIR_MODE {
        var r := CreateInode(path, who.(mode := S_IFDIR), beyond);
      } else if who.mode == FILE_MODE {
        var r := CreateInode(path, who.(mode := S_IFREG), beyond);
      }
      ret := 0;
    }

    /** `sfs_destroy`: the flush at the unmount. */
    method SfsDestroy(beyond: seq<byte>)
      requires Valid() && numInodes <= TABLE_SIZE && Covers(Super(), beyond)
      modifies disk
      ensures Now() == Unmounted(old(Now()), Some(beyond))
    {
      hide Flush;
      FlushAllInodesToDisk(beyond);
    }

    const ENOENT: int := 2

    /** `sfs_unlink` and `sfs_rmdir`. */
    method SfsRemove(path: string, beyond: seq<byte>) returns (ret: int)
      requires Valid() && Inodes.Sane(View()) && SafeOp(Op.Remove(path)) && Covers(Super(), beyond)
      modifies ibmap, inodes, disk
      ensures Now() == CallStep(old(Now()), Call(Op.Remove(path), beyond))
      ensures ret == if Inodes.Find(old(View()), path) == Null then -2 else 0
    {
      hide Flush;
      var ok := RemoveInode(path, beyond);
      ret := if ok then 0 else -ENOENT;
    }

    /** `sfs_getattr`. Its test for names beginning "/.Trash-" also asks for the path "/", so it
        never succeeds. */
    method SfsGetattr(path: string, gid: int, before: Stat) returns (ret: int, stat: Stat)
      requires Valid() && numInodes <= TABLE_SIZE && IsCString(path)
      ensures var found := Inodes.Find(View(), path);
              if |path| > 4096 then ret == -1 && stat == before
              else if path == "/.Trash" then
                var root := inodes[0];
                ret == 0 && stat == Stat(0, 0, 0x81B6, 0, root.uid % 0x1_0000_0000, gid, 0, root.fileSize,
                                         root.time, 0, 0, 4096, 0)
              else if found == Null then ret == -2 && stat == before
              else
                var f := inodes[found.index];
                ret == 0 && stat == Stat(0, 0, KindShown(f.mode, before.mode), 0, f.uid % 0x1_0000_0000, gid, 0,
                                         f.fileSize, f.time, f.time, f.time, 4096, 0)
    {
      stat := before;
      if |path| > PATH_MAX {
        return -1, stat;
      }
      if path == "/.Trash" || ("/.Trash-" <= path && |path| == 13 && path == "/") {
        stat := stat.(dev := 0, ino := 0, mode := if path == "/" then S_IFDIR + 493 else S_IFREG + 438, nlink := 0);
        stat := stat.(uid := inodes[0].uid % 0x1_0000_0000, gid := gid, rdev := 0, size := inodes[0].fileSize);
        stat := stat.(atime := inodes[0].time, mtime := 0, ctime := 0, blksize := BLOCK_SIZE, blocks := 0);
      } else {
        var fileHandle := FindFileOrDir(path);
        if fileHandle == Null {
          return -ENOENT, stat;
        }
        var f := inodes[fileHandle.index];
        stat := stat.(dev := 0, ino := 0);
        if f.mode == 493 || f.mode == 16384 {
          stat := stat.(mode := S_IFDIR);
        } else if f.mode == -32348 {
          stat := stat.(mode := S_IFREG);
        }
        stat := stat.(nlink := 0, uid := f.uid % 0x1_0000_0000, gid := gid, rdev := 0, size := f.fileSize);
        stat := stat.(atime := f.time, mtime := f.time, ctime := f.time, blksize := BLOCK_SIZE, blocks := 0);
      }
      ret := 0;
    }

    /** `sfs_readdir`: the names given to the filler. A directory of 30 entries has no NULL to
        stop at, so the walk would leave the array. */
    method SfsReaddir(path: string) returns (ret: int, names: seq<string>)
      requires Valid() && Inodes.Sane(View()) && IsCString(path)
      requires var d := Inodes.Find(View(), path); d.At? ==> HasRoom(inodes[d.index].dirContents)
      ensures var d := Inodes.Find(View(), path);
              if d == Null then ret == -1 && names == [".", ".."]
              else ret == 0 && names == [".", ".."] + ListedNames(View(), d.index)
    {
      names := [".", ".."];
      var directory := FindFileOrDir(path);
      if directory == Null {
        return -1, names;
      }
      hide Inodes.Sane;
      var emitted := WalkDirectory(directory.index);
      return 0, names + emitted;
    }

    method WalkDirectory(q: nat) returns (emitted: seq<string>)
      requires Valid() && Inodes.Sane(View()) && q < TABLE_SIZE && HasRoom(inodes[q].dirContents)
      ensures emitted == ListedNames(View(), q)
    {
      assert Inodes.SaneRecord(View().inodes[q], q);
      hide Inodes.Sane, LastSlotLast;
      ghost var names, n := ListedNames(View(), q), FirstNull(inodes[q].dirContents, 0);
      emitted := [];
      var i := 0;
      var curr := inodes[q].dirContents[i];
      while curr != Null
        invariant 0 <= i <= n < MAX_FILES_IN_DIR && curr == inodes[q].dirContents[i]
        invariant |emitted| == i && emitted == names[..i]
        decreases n - i
      {
        emitted := emitted + [inodes[curr.index].fileName];
        i := i + 1;
        curr := inodes[q].dirContents[i];
      }
    }
  }
}
