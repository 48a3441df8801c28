/** Lookup by name: what keeps it right although it never reads the bitmap and removed records
    keep their names. Nothing here depends on the directories: entries may be lost, parents
    removed and directories full. */
module Lookup {
  import opened Types
  import opened Paths
  import opened Inodes

  /** The pair a record answers to. */
  function KeyAt(m: Memory, k: nat): Key
    requires k < TABLE_SIZE
  {
    (m.inodes[k].fileName, m.inodes[k].parentDir)
  }

  ghost predicate LiveKey(m: Memory, key: Key) {
    exists k :: 0 < k < TABLE_SIZE && Live(m, k) && KeyAt(m, k) == key
  }

  ghost predicate KeysUnique(m: Memory) {
    forall y, z :: 0 < y < TABLE_SIZE && 0 < z < TABLE_SIZE && Live(m, y) && Live(m, z) && y != z ==>
      KeyAt(m, y) != KeyAt(m, z)
  }

  /** Names outlive their inode; a live inode with a name must come before every stale record
      that answers to the same pair. (A mount can leave a live inode without a name.) */
  ghost predicate LiveBeforeStale(m: Memory) {
    forall y, x :: 0 < y < TABLE_SIZE && 0 < x < TABLE_SIZE && Live(m, y) && !Live(m, x) ==>
      KeyAt(m, y) == KeyAt(m, x) && m.inodes[y].fileName != "" ==> y < x
  }

  /** The scans of the table reach every live inode. */
  ghost predicate LiveInRange(m: Memory) {
    forall k :: 0 < k < TABLE_SIZE && Live(m, k) ==> k < m.sb.numInodes
  }

  ghost predicate LookupInv(m: Memory) {
    Sane(m) && KeysUnique(m) && LiveBeforeStale(m) && LiveInRange(m)
  }

  lemma MatchesIsKey(m: Memory, path: string, k: nat)
    requires k < TABLE_SIZE && WellFormed(path)
    ensures Matches(m.inodes[k], path) <==> KeyAt(m, k) == KeyOf(path)
  {
    WellFormedParts(path);
  }

  /** Although lookup never reads `ibmap`, it returns exactly the live inode of a pair
      whenever there is one, never a stale record. */
  lemma FindReturnsLive(m: Memory, path: string, k: nat)
    requires LookupInv(m) && WellFormed(path) && 0 < k < TABLE_SIZE && Live(m, k)
    ensures Find(m, path) == At(k) <==> KeyAt(m, k) == KeyOf(path)
  {
    WellFormedParts(path);
    MatchesIsKey(m, path, k);
    if KeyAt(m, k) == KeyOf(path) {
      var x := Find(m, path).index;
      MatchesIsKey(m, path, x);
      OnlySlashFindsRoot(m, path);
    }
  }

  /** Only a stale record or nothing is found when no live inode has the pair. */
  lemma FindMissesWithoutLive(m: Memory, path: string)
    requires Sane(m) && WellFormed(path) && !LiveKey(m, KeyOf(path))
    ensures Find(m, path).At? ==> !Live(m, Find(m, path).index)
  {
    WellFormedParts(path);
    OnlySlashFindsRoot(m, path);
    if Find(m, path).At? {
      MatchesIsKey(m, path, Find(m, path).index);
    }
  }

  // ---- Creation ----

  lemma ParentLookup(m: Memory, path: string)
    requires m.sb.numInodes <= TABLE_SIZE && WellFormed(path)
    ensures LastSlash(path) >= 0
    ensures FindParent(m, path) == if ParentPath(path) == "" then At(0) else Find(m, ParentPath(path))
  {
    WellFormedParts(path);
  }

  lemma CreateIsInstall(m: Memory, path: string, who: Caller)
    requires m.sb.numInodes <= TABLE_SIZE && WellFormed(path)
    requires FirstFree(m, 1) < m.sb.numInodes && FindParent(m, path).At?
    ensures Creatable(m, path) && IsCString(RelativeParentName(path).value)
    ensures var p, i := FindParent(m, path).index, FirstFree(m, 1);
            CreateInode(m, path, who) ==
            (Install(m, p, i, BaseName(path), RelativeParentName(path).value, who), At(i))
  {
    WellFormedParts(path);
    NamesAreCStrings(path);
  }

  /** When the create goes through at all, no live inode answers to the pair yet. */
  ghost predicate FreshKey(m: Memory, path: string)
    requires m.sb.numInodes <= TABLE_SIZE && WellFormed(path)
  {
    FirstFree(m, 1) < m.sb.numInodes && FindParent(m, path).At? ==> !LiveKey(m, KeyOf(path))
  }

  /** The names and bits an installation changes, whatever record it links to. */
  lemma InstallNames(m: Memory, p: nat, i: nat, name: Name, parentDir: Name, who: Caller)
    requires p < TABLE_SIZE && i < TABLE_SIZE
    ensures var m' := Install(m, p, i, name, parentDir, who);
            && m'.sb == m.sb.(ibmap := m.sb.ibmap[i := 1])
            && (forall k :: Live(m', k) <==> Live(m, k) || k == i)
            && KeyAt(m', i) == (name, parentDir)
            && (forall k: nat :: k < TABLE_SIZE && k != i ==> KeyAt(m', k) == KeyAt(m, k))
  {}

  /** Taking the lowest free number for a pair keeps lookup right exactly when no live inode
      has the pair. */
  lemma TakingKeepsLookupIff(m: Memory, m': Memory, i: nat)
    requires LookupInv(m) && Sane(m') && m'.sb.numInodes == m.sb.numInodes
    requires 0 < i < m.sb.numInodes && !Live(m, i) && forall j :: 0 < j < i ==> Live(m, j)
    requires forall k :: Live(m', k) <==> Live(m, k) || k == i
    requires forall k: nat :: k < TABLE_SIZE && k != i ==> KeyAt(m', k) == KeyAt(m, k)
    ensures LookupInv(m') <==> !LiveKey(m, KeyAt(m', i))
  {
    hide Sane;
    if LiveKey(m, KeyAt(m', i)) {
      var k :| 0 < k < TABLE_SIZE && Live(m, k) && KeyAt(m, k) == KeyAt(m', i);
      assert Live(m', k) && Live(m', i) && KeyAt(m', k) == KeyAt(m', i);
    }
  }

  /** A create keeps lookup right exactly when it does not repeat a live pair; its parent may
      be stale or full. */
  lemma CreateKeepsLookupIff(m: Memory, path: string, who: Caller)
    requires LookupInv(m) && WellFormed(path)
    ensures Creatable(m, path)
    ensures LookupInv(CreateInode(m, path, who).0) <==> FreshKey(m, path)
  {
    WellFormedParts(path);
    CreateKeepsSane(m, path, who);
    if CreateInode(m, path, who).1.At? {
      hide Install;
      var p, i := FindParent(m, path).index, FirstFree(m, 1);
      InstallNames(m, p, i, BaseName(path), RelativeParentName(path).value, who);
      TakingKeepsLookupIff(m, CreateInode(m, path, who).0, i);
    }
  }

  // ---- Removal ----

  /** The names and bits a removal changes, whatever it finds. */
  lemma RemoveNames(m: Memory, path: string)
    requires Sane(m) && WellFormed(path) && Find(m, path).At?
    ensures path != "/" && Find(m, path).index != 0
    ensures var (m', ok) := RemoveInode(m, path); var f := Find(m, path).index;
            && ok && m'.sb == m.sb.(ibmap := m.sb.ibmap[f := 0])
            && (forall k :: Live(m', k) <==> Live(m, k) && k != f)
            && (forall k: nat :: k < TABLE_SIZE ==> KeyAt(m', k) == KeyAt(m, k))
  {
    WellFormedParts(path);
    RemovalTarget(m, path);
    var f := Find(m, path).index;
    MatchesIsKey(m, path, f);
    assert SaneRecord(m.inodes[f], f);
    hide Find, RemoveInode, Unlink, Sane;
  }

  /** Every remove keeps lookup right, also of a directory with entries. */
  lemma RemoveKeepsLookup(m: Memory, path: string)
    requires LookupInv(m) && WellFormed(path)
    ensures path != "/" && LookupInv(RemoveInode(m, path).0)
  {
    WellFormedParts(path);
    RemoveKeepsSane(m, path);
    if Find(m, path).At? {
      RemoveNames(m, path);
      FoundIsFirst(m, path);
      hide RemoveInode, Sane;
    }
  }

  /** No live inode with the pair of a found record comes after it, and if it is live it is
      the only one. */
  lemma FoundIsFirst(m: Memory, path: string)
    requires LookupInv(m) && WellFormed(path) && Find(m, path).At?
    ensures var f := Find(m, path).index;
            forall y :: 0 < y < TABLE_SIZE && Live(m, y) && y != f ==> KeyAt(m, y) != KeyAt(m, f)
  {
    WellFormedParts(path);
    OnlySlashFindsRoot(m, path);
    var f := Find(m, path).index;
    MatchesIsKey(m, path, f);
    forall y | 0 < y < TABLE_SIZE && Live(m, y) && y != f ensures KeyAt(m, y) != KeyAt(m, f) {
      FindReturnsLive(m, path, y);
    }
  }

  lemma {:induction false} FindDependsOnNames(m: Memory, m': Memory, path: string, x: nat)
    requires m.sb.numInodes == m'.sb.numInodes <= TABLE_SIZE
    requires forall k: nat :: k < TABLE_SIZE ==> KeyAt(m, k) == KeyAt(m', k)
    ensures FindFrom(m, path, x) == FindFrom(m', path, x)
    decreases m.sb.numInodes - x
  {
    if x < m.sb.numInodes {
      assert KeyAt(m, x) == KeyAt(m', x);
      FindDependsOnNames(m, m', path, x + 1);
    }
  }

  /** Removing never makes a path unfindable: a successful remove leaves lookup of the path as
      it was, now answering with the record just freed. */
  lemma RemovedPathIsStillFound(m: Memory, path: string)
    requires Sane(m) && WellFormed(path) && Find(m, path).At?
    ensures path != "/"
    ensures var (m', ok) := RemoveInode(m, path);
            ok && Find(m', path) == Find(m, path) && !Live(m', Find(m, path).index)
  {
    RemoveNames(m, path);
    FindDependsOnNames(m, RemoveInode(m, path).0, path, 0);
  }

  /** A created path is found as the new inode, whatever else the table holds. */
  lemma CreatedIsFound(m: Memory, path: string, who: Caller)
    requires Sane(m) && WellFormed(path) && FreshKey(m, path)
    ensures Creatable(m, path)
    ensures var (m', r) := CreateInode(m, path, who);
            m'.sb.numInodes <= TABLE_SIZE && (r.At? ==> Find(m', path) == r)
  {
    WellFormedParts(path);
    CreateKeepsSane(m, path, who);
    var (m', r) := CreateInode(m, path, who);
    if r.At? {
      CreateIsInstall(m, path, who);
      InstallNames(m, FindParent(m, path).index, r.index, BaseName(path), RelativeParentName(path).value, who);
      hide Install, CreateInode;
      OnlySlashFindsRoot(m', path);
      MatchesIsKey(m', path, r.index);
      forall y: nat | 0 < y < r.index ensures !Matches(m'.inodes[y], path) {
        MatchesIsKey(m', path, y);
        assert Live(m, y);
      }
    }
  }

  /** After a create that repeats no live pair, whatever other path led to a live inode still
      leads there. */
  lemma OthersStillFound(m: Memory, path: string, who: Caller, other: string)
    requires LookupInv(m) && WellFormed(path) && FreshKey(m, path) && WellFormed(other)
    ensures Creatable(m, path)
    ensures var m' := CreateInode(m, path, who).0;
            m'.sb.numInodes <= TABLE_SIZE && (LiveKey(m, KeyOf(other)) ==> Find(m', other) == Find(m, other))
  {
    CreateKeepsLookupIff(m, path, who);
    var (m', r) := CreateInode(m, path, who);
    if r.At? && LiveKey(m, KeyOf(other)) {
      WellFormedParts(path);
      InstallNames(m, FindParent(m, path).index, r.index, BaseName(path), RelativeParentName(path).value, who);
      hide Install, CreateInode;
      var k :| 0 < k < TABLE_SIZE && Live(m, k) && KeyAt(m, k) == KeyOf(other);
      FindReturnsLive(m, other, k);
      FindReturnsLive(m', other, k);
    }
  }
}
