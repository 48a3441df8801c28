/** The memory right after `formatDisk`, and runs that only create. */
module Boot {
  import opened Types
  import opened Paths
  import opened DirEntries
  import opened Inodes
  import opened Lookup
  import opened Links
  import opened Tree
  import opened Runs
  import opened Conservation

  /** The bitmap with the entries 1 up to `bound` cleared. */
  function Cleared(bits: Bitmap, bound: int): (r: Bitmap)
    ensures forall k :: 0 <= k < MAX_BLOCKS ==> r[k] == if 1 <= k < bound then 0 else bits[k]
  {
    seq(MAX_BLOCKS, k requires 0 <= k < MAX_BLOCKS => if 1 <= k < bound then 0 else bits[k])
  }

  lemma ClearedNone(bits: Bitmap)
    ensures forall bound :: bound <= 1 ==> Cleared(bits, bound) == bits
  {}

  lemma ClearedNext(bits: Bitmap, i: nat)
    requires 1 <= i < MAX_BLOCKS
    ensures Cleared(bits, i)[i := 0] == Cleared(bits, i + 1)
  {}

  /** The root's record as `formatDisk` fills it in; other fields stay. */
  function RootRecord(f: Fcb, who: Caller): Fcb {
    f.(fileName := "/", fileSize := 0, parentDir := "", mode := S_IFDIR + 493, uid := ToShort(who.uid),
       time := who.now, inumber := 0, parentInumber := -1, dirContents := NoEntries())
  }

  /** The superblock `formatDisk` writes to disk. */
  function FormatSuperblock(sb: Superblock, n: nat): Superblock
    requires n <= TABLE_SIZE
  {
    sb.(numInodes := n, numDataBlocks := 15 * n, numInodesPerBlock := BLOCK_SIZE / FCB_SIZE,
        inodeStartIndex := 1 + SUPERBLOCK_SIZE / BLOCK_SIZE, magicNum := MAGIC, ibmap := sb.ibmap[0 := 1])
  }

  /** The memory after `formatDisk` made room for n inodes, starting from zeroed counters. The
      records of free inodes are not touched: the original prepares a copy and drops it. */
  function FormatMemory(m: Memory, n: nat, who: Caller): Memory
    requires n <= TABLE_SIZE
  {
    var sb := FormatSuperblock(m.sb, n);
    Memory(sb.(ibmap := Cleared(sb.ibmap, n - 1)), m.inodes[0 := RootRecord(m.inodes[0], who)])
  }

  function Formatted(n: nat, who: Caller): Memory
    requires n <= TABLE_SIZE
  {
    FormatMemory(ZeroMemory(), n, who)
  }

  /** Every field after a format: the superblock, the bitmaps, the root's record, and all other
      records as they were. */
  lemma FormatFields(m: Memory, n: nat, who: Caller)
    requires n <= TABLE_SIZE
    ensures var sb := FormatMemory(m, n, who).sb;
            && sb.magicNum == 666 && sb.numInodes == n && sb.numDataBlocks == 15 * n
            && sb.inodeStartIndex == 3 && sb.numInodesPerBlock == 4
            && sb.datablockStartIndex == m.sb.datablockStartIndex && sb.dbmap == m.sb.dbmap
            && forall k :: 0 <= k < MAX_BLOCKS ==>
                 sb.ibmap[k] == if k == 0 then 1 else if k < n - 1 then 0 else m.sb.ibmap[k]
    ensures var root := FormatMemory(m, n, who).inodes[0];
            && root.fileName == "/" && root.parentDir == "" && root.inumber == 0 && root.parentInumber == -1
            && root.mode == 0x41ED && (root.uid - who.uid) % 0x10000 == 0 && root.time == who.now
            && root.fileSize == 0 && root.numBlocks == m.inodes[0].numBlocks && root.blocks == m.inodes[0].blocks
            && forall j :: 0 <= j < MAX_FILES_IN_DIR ==> root.dirContents[j] == Null
    ensures forall k :: 0 < k < TABLE_SIZE ==> FormatMemory(m, n, who).inodes[k] == m.inodes[k]
  {}

  /** The same from the zeroed memory of a fresh process. */
  lemma FormattedFields(n: nat, who: Caller)
    requires n <= TABLE_SIZE
    ensures var sb := Formatted(n, who).sb;
            && sb.magicNum == 666 && sb.numInodes == n && sb.numDataBlocks == 15 * n
            && sb.inodeStartIndex == 3 && sb.numInodesPerBlock == 4 && sb.datablockStartIndex == 0
            && forall k :: 0 <= k < MAX_BLOCKS ==> sb.dbmap[k] == 0 && sb.ibmap[k] == if k == 0 then 1 else 0
    ensures var root := Formatted(n, who).inodes[0];
            && root.fileName == "/" && root.parentDir == "" && root.inumber == 0 && root.parentInumber == -1
            && root.mode == 0x41ED && (root.uid - who.uid) % 0x10000 == 0 && root.time == who.now
            && root.fileSize == 0 && root.numBlocks == 0 && (forall j :: 0 <= j < 60 ==> root.blocks[j] == 0)
            && forall j :: 0 <= j < MAX_FILES_IN_DIR ==> root.dirContents[j] == Null
    ensures forall k :: 0 < k < TABLE_SIZE ==> BlankFields(Formatted(n, who).inodes[k])
  {
    FormatFields(ZeroMemory(), n, who);
  }

  /** The record of a static variable: zero in every byte. */
  predicate BlankFields(f: Fcb) {
    f.fileName == "" && f.parentDir == "" && f.fileSize == 0 && f.numBlocks == 0 && f.inumber == 0 &&
    f.parentInumber == 0 && f.mode == 0 && f.uid == 0 && f.time == 0 &&
    (forall j :: 0 <= j < 60 ==> f.blocks[j] == 0) &&
    forall j :: 0 <= j < MAX_FILES_IN_DIR ==> f.dirContents[j] == Null
  }

  /** A freshly formatted file system is a tree, and the counts agree. */
  lemma FormattedIsTree(n: nat, who: Caller)
    requires n <= TABLE_SIZE
    ensures TreeInv(Formatted(n, who))
  {
    var m := Formatted(n, who);
    forall k | 0 <= k < TABLE_SIZE ensures SaneRecord(m.inodes[k], k) {}
    forall q: nat, k: nat | q < TABLE_SIZE ensures At(k) !in Entries(m, q) {
      assert forall j :: 0 <= j < MAX_FILES_IN_DIR ==> Entries(m, q)[j] == Null;
    }
    assert Ranked(m, seq(TABLE_SIZE, _ => 0));
  }

  lemma FormattedIsConserved(n: nat, who: Caller)
    requires n <= TABLE_SIZE
    ensures Conserved(Formatted(n, who))
  {
    var m := Formatted(n, who);
    assert m.sb.ibmap == NoBlocks()[0 := 1];
    assert 1 !in NoBlocks();
    NothingShared(m, TABLE_SIZE);
  }

  lemma {:induction false} NothingShared(m: Memory, bound: nat)
    requires bound <= TABLE_SIZE
    requires forall q: nat :: q < TABLE_SIZE ==> Empty(Entries(m, q))
    ensures EntriesOfLive(m, bound) == 0
  {
    if bound > 0 {
      EmptyCountsNothing(Entries(m, bound - 1));
      NothingShared(m, bound - 1);
    }
  }

  // ---- Every state a formatted file system reaches ----

  /** In every state that any calls reach from a format, each directory entry is live and points
      back. */
  lemma EveryStateIsBack(n: nat, who: Caller, ops: seq<Op>)
    requires n <= TABLE_SIZE && AllWellFormed(ops)
    ensures Sane(Formatted(n, who)) && SafeOps(ops) && AllBack(Run(Formatted(n, who), ops))
  {
    FormattedIsTree(n, who);
    hide Formatted, TreeInv;
    LinkedIsBack(Formatted(n, who));
    RunKeepsBack(Formatted(n, who), ops);
  }

  /** In every state that calls with ready parents reach from a format, the tree is intact and
      the counts agree; if no create repeats a live pair lookup is right as well. */
  lemma ReachableStates(n: nat, who: Caller, ops: seq<Op>)
    requires n <= TABLE_SIZE
    ensures TreeInv(Formatted(n, who))
    ensures AllReady(Formatted(n, who), ops) ==>
              && SafeOps(ops)
              && Linked(Run(Formatted(n, who), ops))
              && Conserved(Run(Formatted(n, who), ops))
              && (FreshCreates(Formatted(n, who), ops) ==> LookupInv(Run(Formatted(n, who), ops)))
  {
    FormattedIsTree(n, who);
    FormattedIsConserved(n, who);
    hide Formatted, Linked, LookupInv, Conserved;
    LinkedIsSane(Formatted(n, who));
    if AllReady(Formatted(n, who), ops) {
      RunKeepsLinks(Formatted(n, who), ops);
      RunConserves(Formatted(n, who), ops);
      if FreshCreates(Formatted(n, who), ops) {
        RunIsMap(Formatted(n, who), ops);
      }
    }
  }

  // ---- Runs without a remove ----

  /** The numbers a run hands out, in order. */
  function HandedOut(m: Memory, ops: seq<Op>): seq<nat>
    requires Sane(m) && SafeOps(ops)
    decreases |ops|
  {
    if ops == [] then []
    else
      (if StepResult(m, ops[0]).At? then [StepResult(m, ops[0]).index] else []) +
      HandedOut(Step(m, ops[0]), ops[1..])
  }

  /** The live inodes are 0 to c, parents come before their children, and no free record
      carries a name. */
  ghost predicate Prefix(m: Memory, c: nat) {
    c < TABLE_SIZE && (c == 0 || c < m.sb.numInodes) &&
    (forall k :: Live(m, k) <==> 0 <= k <= c) &&
    (forall k :: 0 < k <= c ==> 0 <= m.inodes[k].parentInumber < k && m.inodes[k].inumber == k) &&
    (forall k :: c < k < TABLE_SIZE ==> m.inodes[k].fileName == "") &&
    m.inodes[0].inumber == 0
  }

  lemma InstallExtendsPrefix(m: Memory, c: nat, p: nat, name: Name, parentDir: Name, who: Caller)
    requires Prefix(m, c) && c + 1 < m.sb.numInodes <= TABLE_SIZE && p <= c && m.inodes[p].inumber == p
    ensures Prefix(Install(m, p, c + 1, name, parentDir, who), c + 1)
  {
    var i, m' := c + 1, Install(m, p, c + 1, name, parentDir, who);
    hide AddEntry;
    assert m'.inodes[i].parentInumber == p && m'.inodes[i].inumber == i;
    forall k ensures Live(m', k) <==> 0 <= k <= i {
      assert Live(m', k) <==> Live(m, k) || k == i;
    }
  }

  lemma FirstFreeAfterPrefix(m: Memory, c: nat)
    requires Prefix(m, c) && m.sb.numInodes <= TABLE_SIZE && FirstFree(m, 1) < m.sb.numInodes
    ensures FirstFree(m, 1) == c + 1
  {
    var i := FirstFree(m, 1);
    assert !Live(m, c + 1);
    assert i <= c ==> Live(m, i);
  }

  lemma CreateExtendsPrefix(m: Memory, c: nat, path: string, who: Caller)
    requires Sane(m) && Prefix(m, c) && WellFormed(path) && Creatable(m, path)
    ensures var (m', r) := CreateInode(m, path, who);
            if r.At? then r == At(c + 1) && Prefix(m', c + 1) else m' == m
  {
    hide Install, FindFrom;
    if CreateInode(m, path, who).1.At? {
      WellFormedParts(path);
      var p := FindParent(m, path).index;
      FirstFreeAfterPrefix(m, c);
      assert p != 0 ==> m.inodes[p].fileName == BaseName(ParentPath(path)) != "";
      assert p <= c;
      InstallExtendsPrefix(m, c, p, BaseName(path), RelativeParentName(path).value, who);
    }
  }

  /** The numbers c + 1, c + 2, ... */
  predicate CountsFrom(c: nat, numbers: seq<nat>) {
    forall j :: 0 <= j < |numbers| ==> numbers[j] == c + 1 + j
  }

  lemma CountsCons(c: nat, rest: seq<nat>)
    ensures CountsFrom(c + 1, rest) ==> CountsFrom(c, [c + 1] + rest)
    ensures [] + rest == rest
  {}

  lemma CountsNone(c: nat)
    ensures CountsFrom(c, [])
  {}

  predicate NeverRemoves(ops: seq<Op>) {
    forall j :: 0 <= j < |ops| ==> !ops[j].Remove?
  }

  lemma StepExtendsPrefix(m: Memory, c: nat, op: Op)
    requires Sane(m) && Prefix(m, c) && WellFormed(op.path) && SafeOp(op) && !op.Remove?
    ensures var r := StepResult(m, op);
            if r.At? then r == At(c + 1) && Prefix(Step(m, op), c + 1) else Step(m, op) == m
  {
    if Creation(op).Some? {
      CreateExtendsPrefix(m, c, op.path, Creation(op).value);
    }
  }

  /** Runs that never remove hand out the next numbers in order, keep the live inodes a prefix
      of the table, and keep every parent before its children. */
  lemma {:induction false} CreateOnlyRun(m: Memory, c: nat, ops: seq<Op>)
    requires Sane(m) && Prefix(m, c) && AllWellFormed(ops) && SafeOps(ops) && NeverRemoves(ops)
    ensures CountsFrom(c, HandedOut(m, ops)) && Prefix(Run(m, ops), c + |HandedOut(m, ops)|)
    decreases |ops|
  {
    hide Prefix, Sane, Step, StepResult, SafeOp, WellFormed, CountsFrom;
    CountsNone(c);
    if ops != [] {
      StepExtendsPrefix(m, c, ops[0]);
      var rest := HandedOut(Step(m, ops[0]), ops[1..]);
      CreateOnlyRun(Step(m, ops[0]), if StepResult(m, ops[0]).At? then c + 1 else c, ops[1..]);
      CountsCons(c, rest);
    }
  }

  lemma FormattedIsPrefix(n: nat, who: Caller)
    requires n <= TABLE_SIZE
    ensures Sane(Formatted(n, who)) && Prefix(Formatted(n, who), 0) && Formatted(n, who).sb.numInodes == n
  {
    FormattedIsTree(n, who);
  }

  /** The guards can be met: with room for a second inode, any single-component path can be
      created right after a format. It becomes inode 1, and the only entry of the root. */
  lemma FirstCreate(n: nat, who: Caller, path: string)
    requires 2 <= n <= TABLE_SIZE && WellFormed(path) && ParentPath(path) == ""
    ensures var m := Formatted(n, who);
            && TreeInv(m) && CreateAllowed(m, path) && Creatable(m, path)
            && var (m', r) := CreateInode(m, path, who);
               r == At(1) && TreeInv(m') && Listed(Entries(m', 0)) == [At(1)]
  {
    var m := Formatted(n, who);
    FormattedIsTree(n, who);
    WellFormedParts(path);
    assert FirstFree(m, 1) == 1 && HasRoom(Entries(m, 0)) && NoHoles(Entries(m, 0));
    CreateKeepsTreeIff(m, path, who);
    AddAppends(Entries(m, 0), 1);
  }

  // ---- An image formatted while empty ----

  lemma NoInodesNoStep(m: Memory, op: Op)
    requires Sane(m) && m.sb.numInodes == 0 && SafeOp(op)
    ensures Step(m, op) == m
  {
    hide Sane, Install, Detach;
  }

  /** `sfs_init` formats only empty images, and those get no inodes; such a file system never
      takes a file, whatever is called. */
  lemma {:induction false} EmptyFileSystemStaysEmpty(who: Caller, ops: seq<Op>)
    requires SafeOps(ops)
    ensures Sane(Formatted(0, who)) && Run(Formatted(0, who), ops) == Formatted(0, who)
    decreases |ops|
  {
    hide Formatted, Sane, Step, Prefix;
    FormattedIsPrefix(0, who);
    if ops != [] {
      NoInodesNoStep(Formatted(0, who), ops[0]);
      EmptyFileSystemStaysEmpty(who, ops[1..]);
    }
  }
}
