/** Lookup, creation and removal of inodes as functions of the memory: the specification of
    the methods in FileSystem.dfy, after src/DateiSteuerBlock.c. */
module Inodes {
  import opened Types
  import opened Paths
  import opened DirEntries

  // ---- What keeps every array access and copy in bounds ----

  ghost predicate SaneSlots(dc: Slots) {
    LastSlotLast(dc) &&
    forall j :: 0 <= j < |dc| && dc[j] != Null ==> dc[j].index < TABLE_SIZE
  }

  /** Only a record that carries a name is known to carry its own number: the table starts
      out as zero bytes and `formatDisk` never fills in the free records. */
  ghost predicate SaneRecord(f: Fcb, k: nat) {
    (f.fileName != "" ==> f.inumber == k) &&
    0 <= f.inumber < TABLE_SIZE &&
    -1 <= f.parentInumber < TABLE_SIZE && (f.parentInumber == -1 ==> k == 0) &&
    SaneSlots(f.dirContents)
  }

  ghost predicate Sane(m: Memory) {
    0 <= m.sb.numInodes <= TABLE_SIZE &&
    m.inodes[0].fileName == "/" &&
    forall k :: 0 <= k < TABLE_SIZE ==> SaneRecord(m.inodes[k], k)
  }

  // ---- findFileOrDir ----

  /** The record carries the path's name and, when the path has a slash, its parent name. */
  predicate Matches(f: Fcb, path: string) {
    f.fileName == BaseName(path) &&
    (RelativeParentName(path) == None || RelativeParentName(path) == Some(f.parentDir))
  }

  /** The scan from record x: it never looks at `ibmap`. */
  function FindFrom(m: Memory, path: string, x: nat): (r: Ptr)
    requires m.sb.numInodes <= TABLE_SIZE
    ensures r.At? ==> x <= r.index < m.sb.numInodes && Matches(m.inodes[r.index], path)
    ensures forall y :: x <= y < (if r.At? then r.index else m.sb.numInodes) ==>
              !Matches(m.inodes[y], path)
    decreases m.sb.numInodes - x
  {
    if x >= m.sb.numInodes then Null
    else if Matches(m.inodes[x], path) then At(x)
    else FindFrom(m, path, x + 1)
  }

  function Find(m: Memory, path: string): (r: Ptr)
    requires m.sb.numInodes <= TABLE_SIZE
    ensures r.At? ==> r.index < TABLE_SIZE
  {
    if path == "/" then At(0) else FindFrom(m, path, 0)
  }

  /** Lookup of any path but "/": the first record with the path's name and, if the path has a
      slash, its parent name. */
  lemma FindIsFirst(m: Memory, path: string, k: nat)
    requires m.sb.numInodes <= TABLE_SIZE && path != "/" && k < m.sb.numInodes
    ensures Find(m, path) == At(k) <==>
            HasNames(m.inodes[k], path) && forall y :: 0 <= y < k ==> !HasNames(m.inodes[y], path)
  {
    forall y: nat | y < m.sb.numInodes ensures Matches(m.inodes[y], path) <==> HasNames(m.inodes[y], path) {
      assert '/' in path <==> LastSlash(path) >= 0;
    }
  }

  predicate HasNames(f: Fcb, path: string) {
    f.fileName == BaseName(path) && ('/' in path ==> Some(f.parentDir) == RelativeParentName(path))
  }

  /** No path but "/" leads to the root record, so no other path can remove it. */
  lemma OnlySlashFindsRoot(m: Memory, path: string)
    requires Sane(m)
    ensures Find(m, path) == At(0) <==> path == "/"
  {
    var name := BaseName(path);
    assert name == "" || name[0] != '/';
    assert name != "/";
    assert !Matches(m.inodes[0], path);
  }

  // ---- create_inode ----

  /** First inode number from i on that is not taken, or at least `numInodes` if all are. */
  function FirstFree(m: Memory, i: nat): (r: nat)
    requires m.sb.numInodes <= TABLE_SIZE
    ensures i <= r
    ensures r < m.sb.numInodes ==> !Live(m, r)
    ensures forall j :: i <= j < r && j < m.sb.numInodes ==> Live(m, j)
    decreases m.sb.numInodes - i
  {
    if i < m.sb.numInodes && m.sb.ibmap[i] == 1 then FirstFree(m, i + 1) else i
  }

  /** The record the new inode is linked into. */
  function FindParent(m: Memory, path: string): (r: Ptr)
    requires m.sb.numInodes <= TABLE_SIZE
    requires LastSlash(path) >= 0
    ensures r.At? ==> r.index < TABLE_SIZE && |RelativeParentName(path).value| < NAME_SIZE
  {
    if RelativeParentName(path) == Some("/") then At(0)
    else Find(m, ParentPath(path))
  }

  lemma NamesAreCStrings(path: string)
    requires IsCString(path)
    ensures IsCString(BaseName(path))
    ensures RelativeParentName(path).Some? ==> IsCString(RelativeParentName(path).value)
  {
    hide LastSlash, IsCString;
    SliceIsCString(path, LastSlash(path) + 1);
    if LastSlash(path) >= 0 {
      var parentPath := ParentPath(path);
      SliceIsCString(path, LastSlash(path));
      SliceIsCString(parentPath, LastSlash(parentPath) + 1);
      SlashIsCString();
    }
  }

  lemma SliceIsCString(s: string, at: nat)
    requires IsCString(s) && at <= |s|
    ensures IsCString(s[at..]) && IsCString(s[..at])
  {}

  lemma SlashIsCString()
    ensures IsCString("/")
  {}

  /** Who creates: the requested mode, the user and the clock. */
  datatype Caller = Caller(mode: int, uid: int, now: long)

  /** `strcpy` into the name field has room, and the table holds every inode. */
  predicate Creatable(m: Memory, path: string) {
    m.sb.numInodes <= TABLE_SIZE && IsCString(path) && |BaseName(path)| < NAME_SIZE
  }

  /** The table with record p's directory array replaced. */
  function PutEntries(table: Table, p: nat, dc: Slots): Table
    requires p < TABLE_SIZE
  {
    table[p := table[p].(dirContents := dc)]
  }

  /** Links inode i into record p and fills record i in. Line 261 copies the parent's number
      after record i has got its own, which shows when the record found as parent is i. */
  function Install(m: Memory, p: nat, i: nat, name: Name, parentDir: Name, who: Caller): Memory
    requires p < TABLE_SIZE && i < TABLE_SIZE
  {
    var linked := PutEntries(m.inodes, p, AddEntry(m.inodes[p].dirContents, i));
    var child := linked[i].(
      fileName := name,
      parentDir := parentDir,
      mode := ToShort(who.mode),
      uid := ToShort(who.uid),
      time := who.now,
      inumber := i,
      parentInumber := if p == i then i else m.inodes[p].inumber);
    Memory(m.sb.(ibmap := m.sb.ibmap[i := 1]), linked[i := child])
  }

  function CreateInode(m: Memory, path: string, who: Caller): (Memory, Ptr)
    requires Creatable(m, path)
  {
    var i := FirstFree(m, 1);
    if i >= m.sb.numInodes || LastSlash(path) < 0 then (m, Null)
    else
      match FindParent(m, path)
      case Null => (m, Null)
      case At(p) =>
        NamesAreCStrings(path);
        (Install(m, p, i, BaseName(path), RelativeParentName(path).value, who), At(i))
  }

  // ---- remove_inode ----

  /** First slot from j on whose record carries the number, or the capacity. */
  function FindEntry(m: Memory, dc: Slots, inumber: int, j: nat): (r: nat)
    requires j <= |dc| && SaneSlots(dc)
    ensures j <= r <= |dc|
    ensures r < |dc| ==> dc[r] != Null && m.inodes[dc[r].index].inumber == inumber
    ensures forall l :: j <= l < r && dc[l] != Null ==> m.inodes[dc[l].index].inumber != inumber
    decreases |dc| - j
  {
    if j == |dc| || (dc[j] != Null && m.inodes[dc[j].index].inumber == inumber) then j
    else FindEntry(m, dc, inumber, j + 1)
  }

  /** `remove_from_direntry`: an entry that is not there is not missed. */
  function Unlink(m: Memory, dc: Slots, inumber: int): (r: Slots)
    requires SaneSlots(dc)
    ensures SaneSlots(r)
  {
    var j := FindEntry(m, dc, inumber, 0);
    if j < |dc| then RemoveKeeps(dc, j); RemoveAt(dc, j) else dc
  }

  /** Takes record f out of its parent's array and frees the inode it says it is. */
  function Detach(m: Memory, f: nat): Memory
    requires Sane(m) && f < TABLE_SIZE && m.inodes[f].parentInumber != -1
  {
    assert SaneRecord(m.inodes[f], f);
    var child, p := m.inodes[f], m.inodes[f].parentInumber;
    assert SaneRecord(m.inodes[p], p);
    Memory(m.sb.(ibmap := m.sb.ibmap[child.inumber := 0]),
           PutEntries(m.inodes, p, Unlink(m, m.inodes[p].dirContents, child.inumber)))
  }

  function RemoveInode(m: Memory, path: string): (Memory, bool)
    requires Sane(m) && path != "/"
  {
    match Find(m, path)
    case Null => (m, false)
    case At(f) =>
      OnlySlashFindsRoot(m, path);
      assert SaneRecord(m.inodes[f], f);
      (Detach(m, f), true)
  }

  /** Whatever a removal finds has a parent record, so the parent pointer stays in the table. */
  lemma RemovalTarget(m: Memory, path: string)
    requires Sane(m) && path != "/"
    ensures 0 <= m.sb.numInodes <= TABLE_SIZE
    ensures Find(m, path) == Null ==> RemoveInode(m, path) == (m, false)
    ensures Find(m, path).At? ==>
              var f := Find(m, path).index;
              f != 0 && 0 <= m.inodes[f].parentInumber < TABLE_SIZE && RemoveInode(m, path) == (Detach(m, f), true)
  {
    OnlySlashFindsRoot(m, path);
    if Find(m, path).At? {
      assert SaneRecord(m.inodes[Find(m, path).index], Find(m, path).index);
    }
  }

  // ---- Memory safety, for every path and every run, guarded or not ----

  lemma AddKeepsInTable(dc: Slots, child: nat)
    requires SaneSlots(dc) && child < TABLE_SIZE
    ensures SaneSlots(AddEntry(dc, child))
  {
    AddKeeps(dc, child);
  }

  lemma CreateKeepsSane(m: Memory, path: string, who: Caller)
    requires Sane(m) && Creatable(m, path)
    ensures Sane(CreateInode(m, path, who).0)
  {
    hide AddEntry, LastSlotLast;
    var (m', r) := CreateInode(m, path, who);
    if r.At? {
      var i, p := r.index, FindParent(m, path).index;
      assert SaneRecord(m.inodes[p], p);
      AddKeepsInTable(m.inodes[p].dirContents, i);
      assert SaneRecord(m.inodes[i], i);
      forall k | 0 <= k < TABLE_SIZE ensures SaneRecord(m'.inodes[k], k) {
        assert SaneRecord(m.inodes[k], k);
      }
    }
  }

  lemma RemoveKeepsSane(m: Memory, path: string)
    requires Sane(m) && path != "/"
    ensures Sane(RemoveInode(m, path).0)
  {
    var m' := RemoveInode(m, path).0;
    forall k | 0 <= k < TABLE_SIZE ensures SaneRecord(m'.inodes[k], k) {
      assert SaneRecord(m.inodes[k], k);
    }
  }
}
