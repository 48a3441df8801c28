/** The directory tree the table stands for, the guards under which create and remove keep
    it, and the proof that these guards are exact. */
module Tree {
  import opened Types
  import opened Paths
  import opened DirEntries
  import opened Inodes
  import opened Lookup
  import opened Links

  // ---- The tree ----

  ghost predicate RootOk(m: Memory) {
    Live(m, 0) && m.inodes[0].inumber == 0 && m.inodes[0].parentInumber == -1 &&
    KeyAt(m, 0) == ("/", "")
  }

  /** A live inode other than the root has a live parent that lists it and lends it its name. */
  ghost predicate ChildOk(m: Memory, k: nat)
    requires k < TABLE_SIZE
  {
    k < m.sb.numInodes && Component(m.inodes[k].fileName) &&
    Live(m, Parent(m, k)) && At(k) in Entries(m, Parent(m, k)) &&
    m.inodes[k].parentDir == m.inodes[Parent(m, k)].fileName
  }

  ghost predicate ChildrenOk(m: Memory) {
    forall k :: 0 < k < TABLE_SIZE && Live(m, k) ==> ChildOk(m, k)
  }

  /** An entry stands for a live inode and points back; a free inode lists nothing. */
  ghost predicate EntryOk(m: Memory, q: nat, k: nat) {
    BackOk(m, q, k) && Live(m, q)
  }

  ghost predicate EntriesOk(m: Memory) {
    forall q: nat, k: nat :: q < TABLE_SIZE && At(k) in Entries(m, q) ==> EntryOk(m, q, k)
  }

  /** A depth for every inode, one more than its parent's: there is no cycle. */
  ghost predicate Ranked(m: Memory, d: seq<nat>) {
    |d| == TABLE_SIZE && d[0] == 0 &&
    forall k :: 0 < k < TABLE_SIZE && Live(m, k) ==> RankOk(m, d, k)
  }

  ghost predicate RankOk(m: Memory, d: seq<nat>, k: nat)
    requires |d| == TABLE_SIZE && k < TABLE_SIZE
  {
    0 <= Parent(m, k) < TABLE_SIZE && d[k] == d[Parent(m, k)] + 1
  }

  ghost predicate Acyclic(m: Memory) {
    exists d :: Ranked(m, d)
  }

  /** The live inodes form one tree below the root, and the directories list exactly its
      edges. Names do not matter: equal pairs may occur in different places. */
  ghost predicate Linked(m: Memory) {
    Sane(m) && BitmapOk(m) && RootOk(m) && ChildrenOk(m) && EntriesOk(m) && NoDoubleEntries(m) && Acyclic(m)
  }

  /** The tree, and lookup by name is right. */
  ghost predicate TreeInv(m: Memory) {
    Linked(m) && LookupInv(m)
  }

  lemma TreeIsSane(m: Memory)
    requires TreeInv(m)
    ensures Sane(m)
  {}

  lemma TreeParts(m: Memory)
    ensures TreeInv(m) <==> Linked(m) && LookupInv(m)
  {}

  lemma LinkedIsSane(m: Memory)
    requires Linked(m)
    ensures Sane(m)
  {}

  lemma LinkedIsBack(m: Memory)
    requires Linked(m)
    ensures AllBack(m)
  {
    forall q: nat, k: nat | q < TABLE_SIZE && At(k) in Entries(m, q) ensures BackOk(m, q, k) {
      assert EntryOk(m, q, k);
    }
  }

  // ---- The guards: what a caller can check before the call ----

  /** When the create goes through at all: its parent is not a stale record and has a free
      slot. */
  ghost predicate ParentReady(m: Memory, path: string)
    requires m.sb.numInodes <= TABLE_SIZE && WellFormed(path)
  {
    FirstFree(m, 1) < m.sb.numInodes && FindParent(m, path).At? ==>
      var p := FindParent(m, path).index;
      Live(m, p) && HasRoom(Entries(m, p))
  }

  /** Lookup needs in addition that no live inode answers to the pair yet. */
  ghost predicate CreateAllowed(m: Memory, path: string)
    requires m.sb.numInodes <= TABLE_SIZE && WellFormed(path)
  {
    ParentReady(m, path) && FreshKey(m, path)
  }

  /** A live directory is only removed when it is empty. */
  ghost predicate RemoveAllowed(m: Memory, path: string)
    requires m.sb.numInodes <= TABLE_SIZE
  {
    var f := Find(m, path);
    f.At? && Live(m, f.index) ==> Empty(Entries(m, f.index))
  }

  // ---- Creation keeps the tree ----

  /** The situation in which `create_inode` installs a record, when the guard holds. */
  ghost predicate InstallOk(m: Memory, p: nat, i: nat, name: Name, parentDir: Name) {
    p < TABLE_SIZE && 0 < i < m.sb.numInodes <= TABLE_SIZE && Live(m, p) && !Live(m, i) &&
    HasRoom(Entries(m, p)) && Component(name) &&
    parentDir == m.inodes[p].fileName && m.inodes[p].inumber == p
  }

  lemma InstallKeepsChildren(m: Memory, p: nat, i: nat, name: Name, parentDir: Name, who: Caller)
    requires RootOk(m) && ChildrenOk(m)
    requires InstallOk(m, p, i, name, parentDir)
    ensures var m' := Install(m, p, i, name, parentDir, who);
            RootOk(m') && ChildrenOk(m')
  {
    var m' := Install(m, p, i, name, parentDir, who);
    InstallEffect(m, p, i, name, parentDir, who);
    forall k | 0 < k < TABLE_SIZE && Live(m', k) ensures ChildOk(m', k) {
      if k != i {
        assert ChildOk(m, k);
      }
    }
  }

  lemma InstallKeepsEntries(m: Memory, p: nat, i: nat, name: Name, parentDir: Name, who: Caller)
    requires EntriesOk(m) && InstallOk(m, p, i, name, parentDir)
    ensures EntriesOk(Install(m, p, i, name, parentDir, who))
  {
    var m' := Install(m, p, i, name, parentDir, who);
    InstallEffect(m, p, i, name, parentDir, who);
    hide Install;
    forall q: nat, k: nat | q < TABLE_SIZE && At(k) in Entries(m', q) ensures EntryOk(m', q, k) {
      if q != p || k != i {
        assert EntryOk(m, q, k);
      }
    }
  }

  lemma InstallKeepsRank(m: Memory, d: seq<nat>, p: nat, i: nat, name: Name, parentDir: Name, who: Caller)
    requires Ranked(m, d) && ChildrenOk(m) && InstallOk(m, p, i, name, parentDir)
    ensures Ranked(Install(m, p, i, name, parentDir, who), d[i := d[p] + 1])
  {
    var m' := Install(m, p, i, name, parentDir, who);
    var d' := d[i := d[p] + 1];
    InstallEffect(m, p, i, name, parentDir, who);
    forall k | 0 < k < TABLE_SIZE && Live(m', k) ensures RankOk(m', d', k) {
      if k != i {
        assert ChildOk(m, k) && RankOk(m, d, k);
      }
    }
  }

  /** What the guard of create amounts to for the memory. */
  lemma ReadyInstall(m: Memory, path: string)
    requires Linked(m) && WellFormed(path) && ParentReady(m, path)
    requires FirstFree(m, 1) < m.sb.numInodes && FindParent(m, path).At?
    ensures InstallOk(m, FindParent(m, path).index, FirstFree(m, 1), BaseName(path), RelativeParentName(path).value)
  {
    WellFormedParts(path);
    ParentNumber(m, path);
  }

  lemma CreateKeepsLinks(m: Memory, path: string, who: Caller)
    requires Linked(m) && WellFormed(path) && ParentReady(m, path)
    ensures Creatable(m, path) && Linked(CreateInode(m, path, who).0)
  {
    WellFormedParts(path);
    LinkedIsBack(m);
    CreateKeepsBack(m, path, who);
    var r := CreateInode(m, path, who).1;
    hide Install;
    if r.At? {
      var p, name, parentDir := FindParent(m, path).index, BaseName(path), RelativeParentName(path).value;
      ReadyInstall(m, path);
      InstallKeepsChildren(m, p, r.index, name, parentDir, who);
      InstallKeepsEntries(m, p, r.index, name, parentDir, who);
      var d :| Ranked(m, d);
      InstallKeepsRank(m, d, p, r.index, name, parentDir, who);
    }
  }

  // ---- Removal keeps the tree ----

  /** Where the removal of a live inode strikes. */
  lemma RemoveStrikes(m: Memory, path: string, f: nat)
    requires Linked(m) && WellFormed(path) && Find(m, path) == At(f) && Live(m, f)
    ensures f != 0 && m.inodes[f].inumber == f
    ensures var p := Parent(m, f); 0 <= p < TABLE_SIZE && p != f && SaneRecord(m.inodes[p], p)
    ensures var dc := Entries(m, Parent(m, f)); var j := FindEntry(m, dc, f, 0);
            j < MAX_FILES_IN_DIR && dc[j] == At(f)
  {
    RemoveEffect(m, path, f);
    assert ChildOk(m, f);
    var p := Parent(m, f);
    var d :| Ranked(m, d);
    assert RankOk(m, d, f) && SaneRecord(m.inodes[p], p);
    LinkedIsBack(m);
    FindListed(m, p, f);
  }

  lemma RemoveKeepsChildren(m: Memory, path: string, f: nat)
    requires Linked(m) && WellFormed(path) && path != "/" && Find(m, path) == At(f)
    requires Live(m, f) && Empty(Entries(m, f))
    ensures ChildrenOk(RemoveInode(m, path).0)
  {
    var m' := RemoveInode(m, path).0;
    LinkedIsBack(m);
    RemoveEffect(m, path, f);
    RemoveEffectOnEntries(m, path, f);
    hide Sane, RemoveInode, Find, Unlink, NoDoubleEntries, Acyclic, EntriesOk;
    forall k | 0 < k < TABLE_SIZE && Live(m', k) ensures ChildOk(m', k) {
      assert ChildOk(m, k);
    }
  }

  lemma RemoveKeepsEntries(m: Memory, path: string, f: nat)
    requires Linked(m) && WellFormed(path) && path != "/" && Find(m, path) == At(f)
    requires Live(m, f) && Empty(Entries(m, f))
    ensures EntriesOk(RemoveInode(m, path).0)
  {
    var m' := RemoveInode(m, path).0;
    LinkedIsBack(m);
    RemoveEffect(m, path, f);
    RemoveEffectOnEntries(m, path, f);
    hide Sane, RemoveInode, Find, Unlink, NoDoubleEntries, Acyclic, ChildrenOk;
    forall q: nat, k: nat | q < TABLE_SIZE && At(k) in Entries(m', q) ensures EntryOk(m', q, k) {
      assert EntryOk(m, q, k);
      assert q != f;
    }
  }

  lemma RemoveLiveKeepsLinks(m: Memory, path: string, f: nat)
    requires Linked(m) && WellFormed(path) && path != "/" && Find(m, path) == At(f)
    requires Live(m, f) && Empty(Entries(m, f))
    ensures Linked(RemoveInode(m, path).0)
  {
    var m' := RemoveInode(m, path).0;
    LinkedIsBack(m);
    RemoveKeepsBack(m, path);
    RemoveEffect(m, path, f);
    RemoveKeepsChildren(m, path, f);
    RemoveKeepsEntries(m, path, f);
    hide Sane, RemoveInode, Find, Unlink, NoDoubleEntries, BackLinks, EntriesOk, ChildrenOk, Ranked;
    SameRanks(m, m');
  }

  lemma SameRanks(m: Memory, m': Memory)
    requires Acyclic(m)
    requires forall k: nat :: k < TABLE_SIZE ==> Parent(m', k) == Parent(m, k) && (Live(m', k) ==> Live(m, k))
    ensures Acyclic(m')
  {
    var d :| Ranked(m, d);
    forall k | 0 < k < TABLE_SIZE && Live(m', k) ensures RankOk(m', d, k) {
      assert RankOk(m, d, k);
    }
    assert Ranked(m', d);
  }

  lemma RemoveKeepsLinks(m: Memory, path: string)
    requires Linked(m) && WellFormed(path) && RemoveAllowed(m, path)
    ensures path != "/" && Linked(RemoveInode(m, path).0)
  {
    WellFormedParts(path);
    if Find(m, path).At? {
      var f := Find(m, path).index;
      if Live(m, f) {
        RemoveLiveKeepsLinks(m, path, f);
      } else {
        LinkedIsBack(m);
        RemoveStaleIsNoOp(m, path);
      }
    }
  }

  // ---- The guards are exact ----

  /** A create keeps the tree exactly when its parent is ready. */
  lemma CreateKeepsLinksIff(m: Memory, path: string, who: Caller)
    requires Linked(m) && WellFormed(path)
    ensures Creatable(m, path)
    ensures Linked(CreateInode(m, path, who).0) <==> ParentReady(m, path)
  {
    WellFormedParts(path);
    if ParentReady(m, path) {
      CreateKeepsLinks(m, path, who);
    } else {
      BadCreateBreaksLinks(m, path, who);
    }
  }

  lemma StaleParentBreaks(m: Memory, p: nat, i: nat, name: Name, parentDir: Name, who: Caller)
    requires p < TABLE_SIZE && 0 < i < TABLE_SIZE && !Live(m, p) && m.inodes[p].inumber == p
    ensures var m' := Install(m, p, i, name, parentDir, who); !ChildrenOk(m') || !Acyclic(m')
  {
    var m' := Install(m, p, i, name, parentDir, who);
    assert Live(m', i) && Parent(m', i) == p;
    if p != i {
      assert !ChildOk(m', i);
    } else {
      forall d: seq<nat> ensures !Ranked(m', d) {
        assert |d| == TABLE_SIZE ==> !RankOk(m', d, i);
      }
    }
  }

  /** A create below a full directory leaves a live inode that no directory lists. */
  lemma FullParentBreaks(m: Memory, p: nat, i: nat, name: Name, parentDir: Name, who: Caller)
    requires p < TABLE_SIZE && 0 < i < TABLE_SIZE && m.inodes[p].inumber == p
    requires !HasRoom(Entries(m, p)) && forall q: nat :: q < TABLE_SIZE ==> At(i) !in Entries(m, q)
    ensures var m' := Install(m, p, i, name, parentDir, who);
            && Live(m', i) && (forall q: nat :: q < TABLE_SIZE ==> At(i) !in Entries(m', q))
            && !ChildrenOk(m')
  {
    var m' := Install(m, p, i, name, parentDir, who);
    assert forall q: nat :: q < TABLE_SIZE ==> Entries(m', q) == Entries(m, q);
    assert Live(m', i) && !ChildOk(m', i);
  }

  lemma BadCreateBreaksLinks(m: Memory, path: string, who: Caller)
    requires Linked(m) && WellFormed(path) && Creatable(m, path) && !ParentReady(m, path)
    ensures !Linked(CreateInode(m, path, who).0)
  {
    hide Install, ChildrenOk, NoDoubleEntries, Acyclic, SaneRecord;
    WellFormedParts(path);
    var i, p := FirstFree(m, 1), FindParent(m, path).index;
    var name, parentDir := BaseName(path), RelativeParentName(path).value;
    ParentNumber(m, path);
    if !Live(m, p) {
      StaleParentBreaks(m, p, i, name, parentDir, who);
    } else {
      assert forall q: nat :: q < TABLE_SIZE ==> At(i) !in Entries(m, q);
      FullParentBreaks(m, p, i, name, parentDir, who);
    }
  }

  /** A remove keeps the tree exactly when it does not take a directory with children. */
  lemma RemoveKeepsLinksIff(m: Memory, path: string)
    requires Linked(m) && WellFormed(path)
    ensures path != "/"
    ensures Linked(RemoveInode(m, path).0) <==> RemoveAllowed(m, path)
  {
    WellFormedParts(path);
    if RemoveAllowed(m, path) {
      RemoveKeepsLinks(m, path);
    } else {
      RemovalOrphans(m, path, Find(m, path).index);
    }
  }

  lemma RemovalOrphans(m: Memory, path: string, f: nat)
    requires Linked(m) && WellFormed(path) && path != "/" && Find(m, path) == At(f)
    requires Live(m, f) && !Empty(Entries(m, f))
    ensures !Linked(RemoveInode(m, path).0)
  {
    var m' := RemoveInode(m, path).0;
    RemoveEffect(m, path, f);
    var j :| 0 <= j < MAX_FILES_IN_DIR && Entries(m, f)[j] != Null;
    assert Entries(m, f)[j] in Entries(m, f);
    var e := Entries(m, f)[j].index;
    assert EntryOk(m, f, e);
    var d :| Ranked(m, d);
    assert RankOk(m, d, e);
    assert !ChildOk(m', e);
  }

  // ---- The tree together with lookup ----

  /** A create keeps both exactly when its parent is ready and its pair is fresh. */
  lemma CreateKeepsTreeIff(m: Memory, path: string, who: Caller)
    requires TreeInv(m) && WellFormed(path)
    ensures Creatable(m, path)
    ensures TreeInv(CreateInode(m, path, who).0) <==> CreateAllowed(m, path)
  {
    CreateKeepsLinksIff(m, path, who);
    CreateKeepsLookupIff(m, path, who);
    hide Linked, LookupInv, CreateInode, ParentReady, FreshKey;
  }

  lemma RemoveKeepsTreeIff(m: Memory, path: string)
    requires TreeInv(m) && WellFormed(path)
    ensures path != "/"
    ensures TreeInv(RemoveInode(m, path).0) <==> RemoveAllowed(m, path)
  {
    RemoveKeepsLinksIff(m, path);
    RemoveKeepsLookup(m, path);
    LinkedIsSane(m);
    hide Linked, LookupInv, RemoveInode, RemoveAllowed, Sane;
  }
}
