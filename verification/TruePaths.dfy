/** Paths from the root: there are no cycles, every live inode has one true path, lookup of
    the true path is right, and exactly when a path that lookup accepts is the true one. */
module TruePaths {
  import opened Types
  import opened Paths
  import opened DirEntries
  import opened Inodes
  import opened Lookup
  import opened Links
  import opened Tree
  import opened Runs

  // ---- No cycles ----

  /** The record reached by following `parent_inumber` some number of times. */
  function Climb(m: Memory, k: nat, steps: nat): int
    requires k < TABLE_SIZE
    decreases steps
  {
    if steps == 0 then k
    else if 0 <= Parent(m, k) < TABLE_SIZE then Climb(m, Parent(m, k), steps - 1)
    else -1
  }

  lemma {:induction false} RankedClimb(m: Memory, d: seq<nat>, k: nat)
    requires Ranked(m, d) && ChildrenOk(m) && k < TABLE_SIZE && Live(m, k)
    ensures Climb(m, k, d[k]) == 0
    decreases d[k]
  {
    if k != 0 {
      assert ChildOk(m, k) && RankOk(m, d, k);
      RankedClimb(m, d, Parent(m, k));
    }
  }

  /** The inodes met on the way up; they are all different, one for each depth. */
  lemma {:induction false} Ancestors(m: Memory, d: seq<nat>, k: nat) returns (met: set<nat>)
    requires Ranked(m, d) && ChildrenOk(m) && k < TABLE_SIZE && Live(m, k)
    ensures |met| == d[k] + 1 && forall x :: x in met ==> x < TABLE_SIZE && d[x] <= d[k]
    decreases d[k]
  {
    if k == 0 {
      met := {0};
    } else {
      assert ChildOk(m, k) && RankOk(m, d, k);
      var above := Ancestors(m, d, Parent(m, k));
      met := above + {k};
    }
  }

  lemma {:induction false} SmallNumbers(s: set<nat>, n: nat)
    requires forall x :: x in s ==> x < n
    ensures |s| <= n
  {
    if n > 0 {
      SmallNumbers(s - {n - 1}, n - 1);
      assert s <= (s - {n - 1}) + {n - 1};
      if n - 1 in s {
        assert |s| == |s - {n - 1}| + 1;
      } else {
        assert s == s - {n - 1};
      }
    } else {
      assert s == {};
    }
  }

  /** In every state that calls with ready parents reach, climbing from any live inode ends at
      the root, in fewer steps than the table has records. */
  lemma RunHasNoCycles(m: Memory, ops: seq<Op>, k: nat)
    requires Linked(m) && AllReady(m, ops) && SafeOps(ops)
    requires k < TABLE_SIZE && Live(Run(m, ops), k)
    ensures exists steps: nat :: steps < TABLE_SIZE && Climb(Run(m, ops), k, steps) == 0
  {
    RunKeepsLinks(m, ops);
    var d :| Ranked(Run(m, ops), d);
    RankedClimb(Run(m, ops), d, k);
    var met := Ancestors(Run(m, ops), d, k);
    SmallNumbers(met, TABLE_SIZE);
  }

  // ---- The true path of an inode ----

  /** The path spells the names from the root down to live inode k; the root's is empty. */
  predicate Spells(m: Memory, path: string, k: nat)
    decreases |path|
  {
    if path == "" then k == 0
    else
      0 < k < TABLE_SIZE && Live(m, k) && Parent(m, k) >= 0 && LastSlash(path) >= 0 &&
      BaseName(path) == m.inodes[k].fileName && Spells(m, ParentPath(path), Parent(m, k))
  }

  lemma {:induction false} TruePathExists(m: Memory, d: seq<nat>, k: nat) returns (path: string)
    requires Ranked(m, d) && ChildrenOk(m) && k < TABLE_SIZE && Live(m, k)
    ensures Spells(m, path, k)
    decreases d[k]
  {
    if k == 0 {
      path := "";
    } else {
      assert ChildOk(m, k) && RankOk(m, d, k);
      var prefix := TruePathExists(m, d, Parent(m, k));
      SplitAppend(prefix, m.inodes[k].fileName);
      path := prefix + "/" + m.inodes[k].fileName;
    }
  }

  lemma {:induction false} TruePathUnique(m: Memory, p1: string, p2: string, k: nat)
    requires Spells(m, p1, k) && Spells(m, p2, k)
    ensures p1 == p2
    decreases |p1|
  {
    if k != 0 {
      TruePathUnique(m, ParentPath(p1), ParentPath(p2), Parent(m, k));
      SplitRebuilds(p1);
      SplitRebuilds(p2);
    }
  }

  /** A spelled path ends in its inode's pair. */
  lemma {:induction false} SpelledKey(m: Memory, path: string, k: nat)
    requires Linked(m) && Spells(m, path, k) && path != ""
    ensures WellFormed(path) && k != 0 && KeyOf(path) == KeyAt(m, k)
    decreases |path|
  {
    assert ChildOk(m, k);
    var p := Parent(m, k);
    if ParentPath(path) != "" {
      SpelledKey(m, ParentPath(path), p);
    }
    WellFormedParts(path);
  }

  /** In a tree every live inode other than the root has exactly one true path. Although lookup
      only looks at two names, that path leads back to the inode when lookup is right. */
  lemma LookupOfTruePath(m: Memory, k: nat)
    requires Linked(m) && 0 < k < TABLE_SIZE && Live(m, k)
    ensures exists path :: Spells(m, path, k) && WellFormed(path) && (LookupInv(m) ==> Find(m, path) == At(k)) &&
                           forall other :: Spells(m, other, k) ==> other == path
  {
    var d :| Ranked(m, d);
    var path := TruePathExists(m, d, k);
    SpelledKey(m, path, k);
    if LookupInv(m) {
      FindReturnsLive(m, path, k);
    }
    forall other | Spells(m, other, k) ensures other == path {
      TruePathUnique(m, other, path, k);
    }
  }

  /** Lookup forgets everything above the parent: any path with the same last two names
      leads to the inode too, although it spells nothing. */
  lemma LookupForgetsAncestors(m: Memory, k: nat, path: string, other: string)
    requires TreeInv(m) && Spells(m, path, k) && path != "" && WellFormed(other) && WellFormed(path)
    requires KeyOf(other) == KeyOf(path) && other != path
    ensures Find(m, other) == At(k) && forall j :: !Spells(m, other, j)
  {
    SpelledKey(m, path, k);
    FindReturnsLive(m, other, k);
    forall j ensures !Spells(m, other, j) {
      if Spells(m, other, j) {
        SpelledKey(m, other, j);
        assert j == k;
        TruePathUnique(m, path, other, k);
        assert false;
      }
    }
  }

  /** Lookup of every path that finds a live inode is right, whatever the path, exactly when
      the tree has no second level. */
  lemma LookupsAreTrueIff(m: Memory)
    requires TreeInv(m)
    ensures (forall path: string :: WellFormed(path) && Find(m, path).At? && Live(m, Find(m, path).index) ==>
               Spells(m, path, Find(m, path).index))
            <==> (forall k :: 0 < k < TABLE_SIZE && Live(m, k) ==> Parent(m, k) == 0)
  {
    if k :| 0 < k < TABLE_SIZE && Live(m, k) && Parent(m, k) != 0 {
      var path := MisleadingPath(m, k);
    } else {
      forall path: string | WellFormed(path) && Find(m, path).At? && Live(m, Find(m, path).index)
        ensures Spells(m, path, Find(m, path).index)
      {
        WellFormedParts(path);
        OnlySlashFindsRoot(m, path);
        TopLevelLookup(m, path);
      }
    }
  }

  lemma TopLevelLookup(m: Memory, path: string)
    requires TreeInv(m) && WellFormed(path) && Find(m, path).At? && Live(m, Find(m, path).index)
    requires Find(m, path).index != 0 && Parent(m, Find(m, path).index) == 0
    ensures Spells(m, path, Find(m, path).index)
  {
    WellFormedParts(path);
    var k := Find(m, path).index;
    MatchesIsKey(m, path, k);
    assert ChildOk(m, k);
    assert Spells(m, "", 0);
  }

  /** Below the first level, of "/b/c" and "/c/b/c" both lead to the inode c in b, and at
      most one of them is its true path. */
  lemma MisleadingPath(m: Memory, k: nat) returns (path: string)
    requires TreeInv(m) && 0 < k < TABLE_SIZE && Live(m, k) && Parent(m, k) != 0
    ensures WellFormed(path) && Find(m, path) == At(k) && !Spells(m, path, k)
  {
    ParentName(m, k);
    var c, b := m.inodes[k].fileName, m.inodes[Parent(m, k)].fileName;
    TwoPaths(c, b);
    hide Linked, LookupInv, Spells, Join, WellFormed, KeyOf;
    var short, long := Join([b, c]), Join([c, b, c]);
    FindReturnsLive(m, short, k);
    FindReturnsLive(m, long, k);
    if Spells(m, short, k) && Spells(m, long, k) {
      TruePathUnique(m, short, long, k);
    }
    path := if Spells(m, short, k) then long else short;
  }

  lemma ParentName(m: Memory, k: nat)
    requires Linked(m) && 0 < k < TABLE_SIZE && Live(m, k) && Parent(m, k) != 0
    ensures 0 < Parent(m, k) < TABLE_SIZE
    ensures var p := Parent(m, k);
            Component(m.inodes[k].fileName) && Component(m.inodes[p].fileName) &&
            m.inodes[k].parentDir == m.inodes[p].fileName
  {
    assert ChildOk(m, k) && ChildOk(m, Parent(m, k));
  }

  /** "/b/c" and "/c/b/c" end in the same two names. */
  lemma TwoPaths(c: string, b: string)
    requires Component(c) && Component(b)
    ensures var short, long := Join([b, c]), Join([c, b, c]);
            WellFormed(short) && WellFormed(long) && KeyOf(short) == (c, b) && KeyOf(long) == (c, b) && short != long
  {
    PathSplitting([b, c]);
    PathSplitting([c, b, c]);
    JoinLonger(c, b);
    hide Join, WellFormed, RelativeParentName, BaseName, Component;
  }

  lemma JoinLonger(c: string, b: string)
    ensures |Join([c, b, c])| > |Join([b, c])|
  {
    assert [c, b, c][..2] == [c, b] && [c, b][..1] == [c] && [c][..0] == [];
    assert [b, c][..1] == [b] && [b][..0] == [];
    assert Join([b, c]) == Join([b]) + "/" + c;
    assert Join([c, b, c]) == Join([c, b]) + "/" + c;
    assert Join([c, b]) == Join([c]) + "/" + b;
    assert |Join([b])| == |b| + 1 && |Join([c])| == |c| + 1;
  }

  /** The directory has an entry of that name. */
  predicate HasEntryNamed(m: Memory, q: nat, name: string)
    requires Sane(m) && q < TABLE_SIZE
  {
    assert SaneRecord(m.inodes[q], q);
    exists j :: 0 <= j < MAX_FILES_IN_DIR && Entries(m, q)[j] != Null &&
                m.inodes[Entries(m, q)[j].index].fileName == name
  }

  /** What a caller can check before looking the path up: going down the path, the directory
      found for each prefix has an entry with the next name. */
  predicate PrefixesListed(m: Memory, path: string)
    requires Sane(m) && WellFormed(path)
    decreases |path|
  {
    var directory := if ParentPath(path) == "" then At(0) else Find(m, ParentPath(path));
    (ParentPath(path) != "" ==> PrefixesListed(m, ParentPath(path))) &&
    directory.At? && HasEntryNamed(m, directory.index, BaseName(path))
  }

  lemma EntryWithName(m: Memory, q: nat, k: nat)
    requires TreeInv(m) && q < TABLE_SIZE && At(k) in Entries(m, q)
    ensures k < TABLE_SIZE && HasEntryNamed(m, q, m.inodes[k].fileName)
  {
    assert EntryOk(m, q, k);
    var j :| 0 <= j < MAX_FILES_IN_DIR && Entries(m, q)[j] == At(k);
    assert Entries(m, q)[j] != Null && m.inodes[Entries(m, q)[j].index].fileName == m.inodes[k].fileName;
  }

  /** For each path, exactly when lookup returns the inode the path spells. */
  lemma {:induction false} LookupIsTrueIff(m: Memory, path: string)
    requires TreeInv(m) && WellFormed(path)
    ensures PrefixesListed(m, path) <==> exists k :: Spells(m, path, k)
    ensures PrefixesListed(m, path) <==> Find(m, path).At? && Spells(m, path, Find(m, path).index)
    decreases |path|
  {
    WellFormedParts(path);
    var prefix := ParentPath(path);
    if prefix != "" {
      LookupIsTrueIff(m, prefix);
    }
    forall k | Spells(m, path, k) ensures Find(m, path) == At(k) && PrefixesListed(m, path) {
      SpelledKey(m, path, k);
      FindReturnsLive(m, path, k);
      assert ChildOk(m, k);
      EntryWithName(m, Parent(m, k), k);
      if prefix != "" {
        SpelledKey(m, prefix, Parent(m, k));
        FindReturnsLive(m, prefix, Parent(m, k));
      }
    }
    if PrefixesListed(m, path) {
      var q := if prefix == "" then 0 else Find(m, prefix).index;
      ListedChildSpells(m, path, q);
    }
  }

  lemma ListedChildSpells(m: Memory, path: string, q: nat)
    requires TreeInv(m) && WellFormed(path) && q < TABLE_SIZE
    requires Spells(m, ParentPath(path), q) && HasEntryNamed(m, q, BaseName(path))
    ensures exists k :: Spells(m, path, k)
  {
    var j :| 0 <= j < MAX_FILES_IN_DIR && Entries(m, q)[j] != Null &&
             m.inodes[Entries(m, q)[j].index].fileName == BaseName(path);
    var e := Entries(m, q)[j];
    assert e in Entries(m, q);
    assert EntryOk(m, q, e.index);
    assert Spells(m, path, e.index);
  }

  // ---- Steps and true paths ----

  lemma {:induction false} SpellsKept(m: Memory, m': Memory, path: string, k: nat)
    requires ChildrenOk(m) && Spells(m, path, k)
    requires forall j: nat :: 0 < j < TABLE_SIZE && Live(m, j) && (j == k || exists e :: At(e) in Entries(m, j)) ==>
               Live(m', j) && Parent(m', j) == Parent(m, j) && KeyAt(m', j) == KeyAt(m, j)
    ensures Spells(m', path, k)
    decreases |path|
  {
    if path != "" {
      assert ChildOk(m, k);
      SpellsKept(m, m', ParentPath(path), Parent(m, k));
    }
  }

  /** Creating keeps every true path; where lookup is right, creating below a true path makes
      the created path true. */
  lemma CreateExtendsTree(m: Memory, path: string, who: Caller, other: string, k: nat)
    requires Linked(m) && WellFormed(path) && ParentReady(m, path) && Creatable(m, path)
    requires CreateInode(m, path, who).1.At?
    requires Spells(m, other, k)
    ensures var (m', r) := CreateInode(m, path, who);
            && Spells(m', other, k)
            && (LookupInv(m) && other == ParentPath(path) ==> Spells(m', path, r.index))
  {
    var (m', r) := CreateInode(m, path, who);
    ReadyInstall(m, path);
    InstallEffect(m, FindParent(m, path).index, r.index, BaseName(path), RelativeParentName(path).value, who);
    SpellsKept(m, m', other, k);
    if LookupInv(m) && other == ParentPath(path) {
      SpelledParentIsFound(m, path, k);
    }
  }

  lemma SpelledParentIsFound(m: Memory, path: string, k: nat)
    requires TreeInv(m) && WellFormed(path) && Spells(m, ParentPath(path), k)
    ensures FindParent(m, path) == At(k)
  {
    WellFormedParts(path);
    if ParentPath(path) != "" {
      SpelledKey(m, ParentPath(path), k);
      FindReturnsLive(m, ParentPath(path), k);
    }
  }

  /** Removing an empty live inode leaves the true path of every other inode. */
  lemma RemoveKeepsOtherPaths(m: Memory, path: string, other: string, k: nat)
    requires Linked(m) && WellFormed(path) && RemoveAllowed(m, path) && path != "/"
    requires Spells(m, other, k) && Find(m, path) != At(k)
    ensures Spells(RemoveInode(m, path).0, other, k)
  {
    var m' := RemoveInode(m, path).0;
    if Find(m, path).At? {
      var f := Find(m, path).index;
      if Live(m, f) {
        RemoveEffect(m, path, f);
        assert forall e :: At(e) !in Entries(m, f);
        SpellsKept(m, m', other, k);
      } else {
        LinkedIsBack(m);
        RemoveStaleIsNoOp(m, path);
      }
    }
  }

  /** Why the tree asks less of a create than lookup does: a directory with room may get a name
      whose pair is live elsewhere. The tree is fine with it, lookup is not; and no path was
      created twice. */
  lemma SameNamesElsewhere(m: Memory, path: string, who: Caller, q: nat, k: nat)
    requires TreeInv(m) && WellFormed(path) && FirstFree(m, 1) < m.sb.numInodes
    requires Spells(m, ParentPath(path), q) && q < TABLE_SIZE && HasRoom(Entries(m, q))
    requires 0 < k < TABLE_SIZE && Live(m, k) && KeyAt(m, k) == KeyOf(path) && Parent(m, k) != q
    ensures Creatable(m, path) && ParentReady(m, path) && !CreateAllowed(m, path)
    ensures forall j :: !Spells(m, path, j)
    ensures var (m', r) := CreateInode(m, path, who);
            && Linked(m') && !LookupInv(m')
            && r.At? && Spells(m', path, r.index) && r.index != k
            && Find(m', path) == At(if r.index < k then r.index else k)
  {
    WellFormedParts(path);
    SpelledParentIsFound(m, path, q);
    RootIsLive(m, q);
    OnlyOneOfPair(m, path, q, k);
    CreateKeepsLinksIff(m, path, who);
    CreateKeepsLookupIff(m, path, who);
    CreateExtendsTree(m, path, who, ParentPath(path), q);
    hide Spells, Linked, LookupInv;
    LowerOneIsFound(m, path, who, k);
  }

  lemma RootIsLive(m: Memory, q: nat)
    requires Linked(m) && q < TABLE_SIZE && exists path :: Spells(m, path, q)
    ensures Live(m, q)
  {}

  lemma OnlyOneOfPair(m: Memory, path: string, q: nat, k: nat)
    requires TreeInv(m) && WellFormed(path) && Spells(m, ParentPath(path), q)
    requires 0 < k < TABLE_SIZE && Live(m, k) && KeyAt(m, k) == KeyOf(path) && Parent(m, k) != q
    ensures forall j :: !Spells(m, path, j)
  {
    WellFormedParts(path);
    forall j ensures !Spells(m, path, j) {
      if Spells(m, path, j) {
        SpelledKey(m, path, j);
        assert j == k;
        SpellsOne(m, ParentPath(path), q, Parent(m, k));
        assert false;
      }
    }
  }

  /** Where pairs are unique a path spells at most one inode. */
  lemma SpellsOne(m: Memory, path: string, j: nat, k: nat)
    requires TreeInv(m) && Spells(m, path, j) && Spells(m, path, k)
    ensures j == k
  {
    if path != "" {
      SpelledKey(m, path, j);
      SpelledKey(m, path, k);
    }
  }

  /** After such a create the lower of the two numbers answers to the pair, and the other inode
      is no longer found. */
  lemma LowerOneIsFound(m: Memory, path: string, who: Caller, k: nat)
    requires LookupInv(m) && WellFormed(path) && FirstFree(m, 1) < m.sb.numInodes && FindParent(m, path).At?
    requires 0 < k < TABLE_SIZE && Live(m, k) && KeyAt(m, k) == KeyOf(path)
    ensures Creatable(m, path)
    ensures var (m', r) := CreateInode(m, path, who);
            && m'.sb.numInodes <= TABLE_SIZE && r.At? && r.index != k
            && Find(m', path) == At(if r.index < k then r.index else k)
  {
    WellFormedParts(path);
    CreateIsInstall(m, path, who);
    CreateKeepsSane(m, path, who);
    var (m', r) := CreateInode(m, path, who);
    InstallNames(m, FindParent(m, path).index, r.index, BaseName(path), RelativeParentName(path).value, who);
    FindReturnsLive(m, path, k);
    hide CreateInode, Install, LookupInv, WellFormed, LastSlash, BaseName, RelativeParentName, FindParent;
    var x := if r.index < k then r.index else k;
    MatchesIsKey(m', path, x);
    forall y: nat | 0 < y < x ensures !Matches(m'.inodes[y], path) {
      MatchesIsKey(m', path, y);
      MatchesIsKey(m, path, y);
    }
    FirstMatchIsFound(m', path, x);
  }

  lemma FirstMatchIsFound(m: Memory, path: string, x: nat)
    requires Sane(m) && path != "/" && x < m.sb.numInodes && Matches(m.inodes[x], path)
    requires forall y: nat :: 0 < y < x ==> !Matches(m.inodes[y], path)
    ensures Find(m, path) == At(x)
  {
    OnlySlashFindsRoot(m, path);
  }
}
