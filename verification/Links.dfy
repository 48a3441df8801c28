/** Directory entries and parent numbers: what every create and remove keeps, with no guard at
    all, and that removing undoes creating. */
module Links {
  import opened Types
  import opened Paths
  import opened DirEntries
  import opened Inodes
  import opened Lookup

  function Entries(m: Memory, q: nat): Slots
    requires q < TABLE_SIZE
  {
    m.inodes[q].dirContents
  }

  function Parent(m: Memory, k: nat): int
    requires k < TABLE_SIZE
  {
    m.inodes[k].parentInumber
  }

  // ---- The invariant of every reachable state ----

  ghost predicate BitmapOk(m: Memory) {
    forall k :: 0 <= k < TABLE_SIZE ==> m.sb.ibmap[k] <= 1
  }

  ghost predicate NoDoubleEntries(m: Memory) {
    forall q: nat :: q < TABLE_SIZE ==> NoDuplicates(Entries(m, q))
  }

  /** The entry stands for a live inode other than the root, which points back and carries its
      own number. */
  ghost predicate BackOk(m: Memory, q: nat, k: nat) {
    0 < k < TABLE_SIZE && Live(m, k) && Parent(m, k) == q && m.inodes[k].inumber == k
  }

  ghost predicate BackLinks(m: Memory) {
    forall q: nat, k: nat :: q < TABLE_SIZE && At(k) in Entries(m, q) ==> BackOk(m, q, k)
  }

  /** Each directory lists every inode at most once, and only live ones that point back. The
      directory itself may be free, and a live inode may be in no directory. */
  ghost predicate AllBack(m: Memory) {
    Sane(m) && BitmapOk(m) && NoDoubleEntries(m) && BackLinks(m)
  }

  // ---- Creation ----

  lemma AddMembers(dc: Slots, child: nat)
    requires HasRoom(dc)
    ensures forall k :: At(k) in AddEntry(dc, child) <==> k == child || At(k) in dc
  {
    var n := FirstNull(dc, 0);
    var dc' := AddEntry(dc, child);
    assert dc'[n] == At(child);
    forall k | At(k) in dc ensures At(k) in dc' {
      var j :| 0 <= j < |dc| && dc[j] == At(k);
      assert dc'[j] == At(k);
    }
  }

  /** Everything an installation changes, record by record, whatever the state of its parent. */
  lemma InstallEffect(m: Memory, p: nat, i: nat, name: Name, parentDir: Name, who: Caller)
    requires p < TABLE_SIZE && 0 < i < TABLE_SIZE && m.inodes[p].inumber == p
    ensures var m' := Install(m, p, i, name, parentDir, who);
            && m'.sb == m.sb.(ibmap := m.sb.ibmap[i := 1])
            && (forall k :: Live(m', k) <==> Live(m, k) || k == i)
            && KeyAt(m', i) == (name, parentDir) && m'.inodes[i].inumber == i && Parent(m', i) == p
            && (forall k: nat :: k < TABLE_SIZE && k != i ==>
                  KeyAt(m', k) == KeyAt(m, k) && Parent(m', k) == Parent(m, k) &&
                  m'.inodes[k].inumber == m.inodes[k].inumber)
            && (forall q: nat :: q < TABLE_SIZE && q != p ==> Entries(m', q) == Entries(m, q))
            && Entries(m', p) == AddEntry(Entries(m, p), i)
            && (forall q: nat, k: nat :: q < TABLE_SIZE ==>
                  (At(k) in Entries(m', q) <==>
                   At(k) in Entries(m, q) || (q == p && k == i && HasRoom(Entries(m, p)))))
  {
    if HasRoom(Entries(m, p)) {
      AddMembers(Entries(m, p), i);
    }
  }

  /** Whatever record is found as parent carries the parent name and its own number. */
  lemma ParentNumber(m: Memory, path: string)
    requires Sane(m) && WellFormed(path) && FindParent(m, path).At?
    ensures var p := FindParent(m, path).index;
            m.inodes[p].inumber == p && Some(m.inodes[p].fileName) == RelativeParentName(path)
  {
    WellFormedParts(path);
    var p := FindParent(m, path).index;
    if ParentPath(path) != "" {
      MatchesIsKey(m, ParentPath(path), p);
    }
    assert SaneRecord(m.inodes[p], p);
  }

  /** The whole memory after a create, in any state: which inode, what its record holds, and
      that nothing else changes but one bit and the slots of the record found as parent. */
  lemma CreateOutcome(m: Memory, path: string, who: Caller)
    requires Sane(m) && WellFormed(path)
    ensures Creatable(m, path) && LastSlash(path) >= 0
    ensures var (m', r) := CreateInode(m, path, who);
            var i, parent := FirstFree(m, 1), FindParent(m, path);
            && r == (if i < m.sb.numInodes && parent.At? then At(i) else Null)
            && (r == Null ==> m' == m)
            && (r.At? ==> m'.sb == m.sb.(ibmap := m.sb.ibmap[i := 1]) && CreatedRecord(m, m', i, path, who)
                          && OthersUnchanged(m, m', i, parent.index))
  {
    WellFormedParts(path);
    if FirstFree(m, 1) < m.sb.numInodes && FindParent(m, path).At? {
      CreateIsInstall(m, path, who);
      ParentNumber(m, path);
      NamesAreCStrings(path);
      InstallOutcome(m, FindParent(m, path).index, FirstFree(m, 1), path, who);
    }
  }

  /** What the record of a new inode holds: the names, its and its parent's number, the low 16
      bits of mode and user, and the time. Size and block fields are left as they were. */
  ghost predicate CreatedRecord(m: Memory, m': Memory, i: nat, path: string, who: Caller)
    requires m.sb.numInodes <= TABLE_SIZE && WellFormed(path) && LastSlash(path) >= 0
  {
    i < TABLE_SIZE &&
    var f, was := m'.inodes[i], m.inodes[i];
    && FindParent(m, path).At? && f.parentInumber == FindParent(m, path).index && f.inumber == i
    && f.fileName == BaseName(path) && Some(f.parentDir) == RelativeParentName(path)
    && (f.mode - who.mode) % 0x10000 == 0 && (f.uid - who.uid) % 0x10000 == 0 && f.time == who.now
    && f.fileSize == was.fileSize && f.numBlocks == was.numBlocks && f.blocks == was.blocks
  }

  /** Records other than i and p stay, p only gets the entry, and i keeps its own slots. */
  ghost predicate OthersUnchanged(m: Memory, m': Memory, i: nat, p: nat) {
    i < TABLE_SIZE && p < TABLE_SIZE &&
    (forall k :: 0 <= k < TABLE_SIZE && k != i && k != p ==> m'.inodes[k] == m.inodes[k]) &&
    Entries(m', p) == AddEntry(Entries(m, p), i) &&
    (p != i ==> m'.inodes[p] == m.inodes[p].(dirContents := Entries(m', p)) && Entries(m', i) == Entries(m, i))
  }

  lemma InstallOutcome(m: Memory, p: nat, i: nat, path: string, who: Caller)
    requires m.sb.numInodes <= TABLE_SIZE && WellFormed(path) && LastSlash(path) >= 0
    requires IsCString(BaseName(path)) && |BaseName(path)| < NAME_SIZE && RelativeParentName(path).Some?
    requires IsCString(RelativeParentName(path).value) && |RelativeParentName(path).value| < NAME_SIZE
    requires FindParent(m, path) == At(p) && p < TABLE_SIZE && 0 < i < TABLE_SIZE && m.inodes[p].inumber == p
    ensures var m' := Install(m, p, i, BaseName(path), RelativeParentName(path).value, who);
            CreatedRecord(m, m', i, path, who) && OthersUnchanged(m, m', i, p)
  {
    hide FindParent, BaseName, RelativeParentName, WellFormed, AddEntry;
  }

  lemma InstallKeepsBack(m: Memory, p: nat, i: nat, name: Name, parentDir: Name, who: Caller)
    requires BitmapOk(m) && NoDoubleEntries(m) && BackLinks(m)
    requires p < TABLE_SIZE && 0 < i < TABLE_SIZE && !Live(m, i) && m.inodes[p].inumber == p
    ensures var m' := Install(m, p, i, name, parentDir, who);
            BitmapOk(m') && NoDoubleEntries(m') && BackLinks(m')
  {
    var m' := Install(m, p, i, name, parentDir, who);
    InstallEffect(m, p, i, name, parentDir, who);
    hide Install;
    assert At(i) !in Entries(m, p);
    forall q: nat | q < TABLE_SIZE ensures NoDuplicates(Entries(m', q)) {
      assert NoDuplicates(Entries(m, q));
    }
    forall q: nat, k: nat | q < TABLE_SIZE && At(k) in Entries(m', q) ensures BackOk(m', q, k) {
      if At(k) in Entries(m, q) {
        assert BackOk(m, q, k);
      }
    }
  }

  /** No create breaks it: the parent may be free, full or the new inode itself, and the pair
      may be taken. */
  lemma CreateKeepsBack(m: Memory, path: string, who: Caller)
    requires AllBack(m) && WellFormed(path)
    ensures Creatable(m, path) && AllBack(CreateInode(m, path, who).0)
  {
    WellFormedParts(path);
    CreateKeepsSane(m, path, who);
    if CreateInode(m, path, who).1.At? {
      hide Install;
      CreateIsInstall(m, path, who);
      ParentNumber(m, path);
      InstallKeepsBack(m, FindParent(m, path).index, FirstFree(m, 1), BaseName(path),
                       RelativeParentName(path).value, who);
    }
  }

  // ---- Removal ----

  lemma RemoveMembers(dc: Slots, index: nat)
    requires LastSlotLast(dc) && NoDuplicates(dc) && index < |dc| && dc[index] != Null
    ensures DoubleStep(dc, 0) == |dc| && NoDuplicates(RemoveAt(dc, index))
    ensures forall k :: At(k) in RemoveAt(dc, index) <==> At(k) in dc && dc[index] != At(k)
  {
    RemoveKeeps(dc, index);
    hide DoubleStep, LastSlotLast;
    var dc' := RemoveAt(dc, index);
    var last := |dc| - 1;
    forall k | At(k) in dc && dc[index] != At(k) ensures At(k) in dc' {
      var j :| 0 <= j < |dc| && dc[j] == At(k);
      assert dc'[if j == last then index else j] == At(k);
    }
    forall k | At(k) in dc' ensures At(k) in dc && dc[index] != At(k) {
      var j :| 0 <= j < |dc| && dc'[j] == At(k);
      assert dc[if j == index then last else j] == At(k);
    }
  }

  /** Everything a removal changes, whatever it finds. */
  lemma RemoveEffect(m: Memory, path: string, f: nat)
    requires Sane(m) && WellFormed(path) && Find(m, path) == At(f)
    ensures path != "/" && f != 0 && m.inodes[f].inumber == f
    ensures 0 <= Parent(m, f) < TABLE_SIZE && SaneSlots(Entries(m, Parent(m, f)))
    ensures var (m', ok) := RemoveInode(m, path); var p := Parent(m, f);
            && ok && m'.sb == m.sb.(ibmap := m.sb.ibmap[f := 0])
            && (forall k :: Live(m', k) <==> Live(m, k) && k != f)
            && (forall k: nat :: k < TABLE_SIZE ==>
                  KeyAt(m', k) == KeyAt(m, k) && Parent(m', k) == Parent(m, k) &&
                  m'.inodes[k].inumber == m.inodes[k].inumber)
            && (forall q: nat :: q < TABLE_SIZE && q != p ==> Entries(m', q) == Entries(m, q))
            && Entries(m', p) == Unlink(m, Entries(m, p), f)
  {
    WellFormedParts(path);
    RemovalTarget(m, path);
    MatchesIsKey(m, path, f);
    assert SaneRecord(m.inodes[f], f) && SaneRecord(m.inodes[Parent(m, f)], Parent(m, f));
    hide Find, RemoveInode, Sane, SaneSlots, Unlink, WellFormed;
  }

  /** The whole memory after a remove, in any state: one bit, and the slots of one record. */
  lemma RemoveOutcome(m: Memory, path: string)
    requires Sane(m) && WellFormed(path)
    ensures path != "/"
    ensures Find(m, path) == Null ==> RemoveInode(m, path) == (m, false)
    ensures Find(m, path).At? ==>
              var (m', ok) := RemoveInode(m, path); var f := Find(m, path).index;
              && ok && 0 <= Parent(m, f) < TABLE_SIZE && m'.sb == m.sb.(ibmap := m.sb.ibmap[f := 0])
              && var p := Parent(m, f);
                 m'.inodes == m.inodes[p := m.inodes[p].(dirContents := Entries(m', p))]
  {
    WellFormedParts(path);
    RemovalTarget(m, path);
    if Find(m, path).At? {
      var f := Find(m, path).index;
      RemoveEffect(m, path, f);
      hide Find, RemoveInode, Sane, SaneSlots, Unlink, WellFormed;
    }
  }

  /** The slots a removal leaves: the first entry with the number goes, and in a full array the
      last entry takes its place. A number that is not listed is not missed. */
  lemma UnlinkSlots(m: Memory, dc: Slots, number: int, j: nat)
    requires SaneSlots(dc) && j <= MAX_FILES_IN_DIR
    requires forall l :: 0 <= l < j && dc[l] != Null ==> m.inodes[dc[l].index].inumber != number
    requires j < MAX_FILES_IN_DIR ==> dc[j] != Null && m.inodes[dc[j].index].inumber == number
    ensures Unlink(m, dc, number) ==
            if j == 30 then dc
            else if dc[29] == Null || j == 29 then dc[j := Null]
            else dc[j := dc[29]][29 := Null]
  {
    assert FindEntry(m, dc, number, 0) == j;
    if j < MAX_FILES_IN_DIR {
      RemovedSlots(dc, j);
    }
  }

  /** The search by number finds an inode where it is listed, and nothing elsewhere. */
  lemma FindListed(m: Memory, q: nat, f: nat)
    requires AllBack(m) && q < TABLE_SIZE
    ensures SaneSlots(Entries(m, q))
    ensures var dc := Entries(m, q); var j := FindEntry(m, dc, f, 0);
            if At(f) in dc then j < |dc| && dc[j] == At(f) else j == |dc|
  {
    assert SaneRecord(m.inodes[q], q);
    var dc := Entries(m, q);
    var j := FindEntry(m, dc, f, 0);
    if j < |dc| {
      assert dc[j] in dc;
      assert BackOk(m, q, dc[j].index);
    }
    if At(f) in dc {
      assert BackOk(m, q, f);
      var at :| 0 <= at < |dc| && dc[at] == At(f);
    }
  }

  lemma UnlinkMembers(m: Memory, q: nat, f: nat)
    requires AllBack(m) && q < TABLE_SIZE
    ensures SaneSlots(Entries(m, q))
    ensures var r := Unlink(m, Entries(m, q), f);
            NoDuplicates(r) && forall k :: At(k) in r <==> At(k) in Entries(m, q) && k != f
  {
    FindListed(m, q, f);
    assert NoDuplicates(Entries(m, q));
    hide AllBack, FindEntry, DoubleStep;
    var j := FindEntry(m, Entries(m, q), f, 0);
    if j < MAX_FILES_IN_DIR {
      RemoveMembers(Entries(m, q), j);
    }
  }

  /** A removal takes the inode it finds out of all directories, and nothing else out of any. */
  lemma RemoveEffectOnEntries(m: Memory, path: string, f: nat)
    requires AllBack(m) && WellFormed(path) && Find(m, path) == At(f)
    ensures path != "/"
    ensures var m' := RemoveInode(m, path).0;
            && (forall q: nat, k: nat :: q < TABLE_SIZE ==>
                  (At(k) in Entries(m', q) <==> At(k) in Entries(m, q) && k != f))
            && NoDoubleEntries(m')
  {
    RemoveEffect(m, path, f);
    UnlinkMembers(m, Parent(m, f), f);
    hide Find, RemoveInode, Unlink, Sane, BitmapOk;
    var m' := RemoveInode(m, path).0;
    forall q: nat | q < TABLE_SIZE ensures NoDuplicates(Entries(m', q)) {
      assert NoDuplicates(Entries(m, q));
    }
    forall q: nat, k: nat | q < TABLE_SIZE && q != Parent(m, f) && At(k) in Entries(m, q) ensures k != f {
      assert BackOk(m, q, k);
    }
  }

  /** No remove breaks it, also of a directory with entries. */
  lemma RemoveKeepsBack(m: Memory, path: string)
    requires AllBack(m) && WellFormed(path)
    ensures path != "/" && AllBack(RemoveInode(m, path).0)
  {
    WellFormedParts(path);
    RemoveKeepsSane(m, path);
    if Find(m, path).At? {
      var f, m' := Find(m, path).index, RemoveInode(m, path).0;
      RemoveEffect(m, path, f);
      RemoveEffectOnEntries(m, path, f);
      hide Find, RemoveInode, Unlink, Sane;
      forall q: nat, k: nat | q < TABLE_SIZE && At(k) in Entries(m', q) ensures BackOk(m', q, k) {
        assert BackOk(m, q, k);
      }
    }
  }

  /** Removing a path that only a stale record answers to succeeds and changes nothing. */
  lemma RemoveStaleIsNoOp(m: Memory, path: string)
    requires AllBack(m) && WellFormed(path)
    requires Find(m, path).At? && !Live(m, Find(m, path).index)
    ensures path != "/" && RemoveInode(m, path) == (m, true)
  {
    WellFormedParts(path);
    var f := Find(m, path).index;
    RemoveEffect(m, path, f);
    RemovalTarget(m, path);
    assert At(f) !in Entries(m, Parent(m, f));
    FindListed(m, Parent(m, f), f);
    assert m.sb.ibmap[f] == 0;
    hide AllBack, Find, RemoveInode, WellFormed, FindEntry;
    DetachesNothing(m, f);
  }

  lemma DetachesNothing(m: Memory, f: nat)
    requires Sane(m) && f < TABLE_SIZE && 0 <= Parent(m, f) < TABLE_SIZE && m.inodes[f].inumber == f
    requires SaneSlots(Entries(m, Parent(m, f)))
    requires m.sb.ibmap[f] == 0 && FindEntry(m, Entries(m, Parent(m, f)), f, 0) == MAX_FILES_IN_DIR
    ensures Detach(m, f) == m
  {
    hide Sane, SaneSlots, FindEntry;
    assert m.sb.ibmap[f := 0] == m.sb.ibmap;
    var p := Parent(m, f);
    assert m.inodes[p := m.inodes[p]] == m.inodes;
  }

  // ---- Create and remove together ----

  /** A new entry is found by its number, and taking it out leaves the array as it was. */
  lemma UndoEntry(m: Memory, m1: Memory, p: nat, i: nat)
    requires AllBack(m) && AllBack(m1) && p < TABLE_SIZE && !Live(m, i)
    requires Entries(m1, p) == AddEntry(Entries(m, p), i)
    ensures SaneSlots(Entries(m1, p)) && Unlink(m1, Entries(m1, p), i) == Entries(m, p)
  {
    var dc, dc1 := Entries(m, p), Entries(m1, p);
    var n := FirstNull(dc, 0);
    assert SaneRecord(m.inodes[p], p) && NoDuplicates(dc1);
    assert At(i) !in dc;
    FindListed(m1, p, i);
    if HasRoom(dc) {
      AddMembers(dc, i);
      assert dc1[n] == At(i);
      assert FindEntry(m1, dc1, i, 0) == n;
      RemoveUndoesAdd(dc, i);
    }
  }

  /** Create then remove is an undo in every reachable state, whatever the parent: the whole
      superblock, bitmap included, and every directory array come back slot for slot. */
  lemma RemoveUndoesCreate(m: Memory, path: string, who: Caller)
    requires AllBack(m) && WellFormed(path) && !LiveKey(m, KeyOf(path))
    ensures Creatable(m, path)
    ensures var (m1, r) := CreateInode(m, path, who);
            r.At? ==>
              && AllBack(m1) && path != "/" && RemoveInode(m1, path).1
              && var m2 := RemoveInode(m1, path).0;
                 && m2.sb == m.sb && (forall q: nat :: q < TABLE_SIZE ==> Entries(m2, q) == Entries(m, q))
                 && forall k :: 0 <= k < TABLE_SIZE && k != r.index ==> m2.inodes[k] == m.inodes[k]
  {
    CreateKeepsBack(m, path, who);
    var (m1, r) := CreateInode(m, path, who);
    if r.At? {
      var p, i := FindParent(m, path).index, FirstFree(m, 1);
      CreateIsInstall(m, path, who);
      ParentNumber(m, path);
      InstallEffect(m, p, i, BaseName(path), RelativeParentName(path).value, who);
      CreatedIsFound(m, path, who);
      hide Install, CreateInode, RemoveInode, Unlink, AddEntry, BaseName, RelativeParentName, FindParent, Find;
      UndoBit(m, i);
      hide Sane, BitmapOk, NoDoubleEntries, BackLinks;
      UndoEntry(m, m1, p, i);
      RemoveFound(m1, path, i);
      UndoRecords(m, path, who);
    }
  }

  lemma UndoRecords(m: Memory, path: string, who: Caller)
    requires AllBack(m) && WellFormed(path) && Creatable(m, path) && path != "/"
    requires var (m1, r) := CreateInode(m, path, who);
             && r.At? && AllBack(m1) && Find(m1, path) == r && 0 <= Parent(m1, r.index) < TABLE_SIZE
             && var m2 := RemoveInode(m1, path).0;
                forall q: nat :: q < TABLE_SIZE ==> Entries(m2, q) == Entries(m, q)
    ensures var (m1, r) := CreateInode(m, path, who);
            forall k :: 0 <= k < TABLE_SIZE && k != r.index ==> RemoveInode(m1, path).0.inodes[k] == m.inodes[k]
  {
    var (m1, r) := CreateInode(m, path, who);
    CreateOutcome(m, path, who);
    RemoveOutcome(m1, path);
    hide AllBack, CreateInode, RemoveInode, Find, FindParent, FirstFree, WellFormed;
    var m2 := RemoveInode(m1, path).0;
    forall k: nat | k < TABLE_SIZE && k != r.index ensures m2.inodes[k] == m.inodes[k] {
      assert Entries(m2, k) == Entries(m, k);
    }
  }

  lemma UndoBit(m: Memory, i: nat)
    requires BitmapOk(m) && i < TABLE_SIZE && !Live(m, i)
    ensures m.sb.ibmap[i := 1][i := 0] == m.sb.ibmap
  {}

  lemma RemoveFound(m: Memory, path: string, f: nat)
    requires AllBack(m) && WellFormed(path) && Find(m, path) == At(f)
    ensures path != "/" && 0 <= Parent(m, f) < TABLE_SIZE && SaneSlots(Entries(m, Parent(m, f)))
    ensures var (m', ok) := RemoveInode(m, path); var p := Parent(m, f);
            && ok && m'.sb == m.sb.(ibmap := m.sb.ibmap[f := 0])
            && (forall q: nat :: q < TABLE_SIZE && q != p ==> Entries(m', q) == Entries(m, q))
            && Entries(m', p) == Unlink(m, Entries(m, p), f)
  {
    RemoveEffect(m, path, f);
  }
}
