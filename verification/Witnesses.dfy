/** Runs from a fresh format that end in each of the failures the exact guards rule out: none
    of them is only a theoretical state. */
module Witnesses {
  import opened Types
  import opened Paths
  import opened DirEntries
  import opened Inodes
  import opened Lookup
  import opened Links
  import opened Tree
  import opened Runs
  import opened TruePaths
  import opened Boot
  import opened Persistence
  import opened Remount
  import opened Sessions

  // ---- Names and short runs ----

  lemma Below(prefix: string, c: string)
    requires (prefix == "" || WellFormed(prefix)) && Component(c)
    ensures var path := prefix + "/" + c;
            && WellFormed(path) && BaseName(path) == c && ParentPath(path) == prefix
            && KeyOf(path) == (c, if prefix == "" then "/" else BaseName(prefix))
  {
    var path := prefix + "/" + c;
    SplitAppend(prefix, c);
    assert WellFormed(path);
    WellFormedParts(path);
  }

  /** The paths "/a", "/a/b", "/x" and "/x/a/b". */
  lemma SomePaths()
    ensures WellFormed("/a") && ParentPath("/a") == "" && KeyOf("/a") == ("a", "/")
    ensures WellFormed("/a/b") && ParentPath("/a/b") == "/a" && KeyOf("/a/b") == ("b", "a")
    ensures WellFormed("/x") && ParentPath("/x") == "" && KeyOf("/x") == ("x", "/")
    ensures WellFormed("/x/a/b") && KeyOf("/x/a/b") == ("b", "a")
  {
    assert Component("a") && Component("b") && Component("x");
    hide WellFormed, LastSlash, BaseName, ParentPath, RelativeParentName, KeyOf, IsCString, Component;
    Below("", "a");
    assert "" + "/" + "a" == "/a";
    Below("/a", "b");
    assert "/a" + "/" + "b" == "/a/b";
    Below("", "x");
    assert "" + "/" + "x" == "/x";
    Below("/x", "a");
    assert "/x" + "/" + "a" == "/x/a";
    Below("/x/a", "b");
    assert "/x/a" + "/" + "b" == "/x/a/b";
  }

  lemma {:induction false} RunSnoc(m: Memory, ops: seq<Op>, op: Op)
    requires TreeInv(m) && AllAllowed(m, ops) && WellFormed(op.path)
    ensures SafeOps(ops) && SafeOp(op) && SafeOps(ops + [op]) && TreeInv(Run(m, ops))
    ensures Run(m, ops + [op]) == Step(Run(m, ops), op)
    ensures Allowed(Run(m, ops), op) ==> AllAllowed(m, ops + [op])
    decreases |ops|
  {
    hide TreeInv, Sane, Step, Allowed, WellFormed, SafeOp;
    RunKeepsTree(m, ops);
    TreeFacts(m);
    WellFormedIsSafe(op);
    var all := ops + [op];
    if ops == [] {
      assert all[0] == op && all[1..] == [];
    } else {
      StepKeepsTreeIff(m, ops[0]);
      RunSnoc(Step(m, ops[0]), ops[1..], op);
      assert all[0] == ops[0] && all[1..] == ops[1..] + [op];
    }
  }

  /** The calls are all allowed, one after the other, and lead from a format to this memory. */
  ghost predicate GuardedRun(n: nat, who: Caller, ops: seq<Op>, m: Memory) {
    n <= TABLE_SIZE && Sane(Formatted(n, who)) && AllAllowed(Formatted(n, who), ops) &&
    SafeOps(ops) && m == Run(Formatted(n, who), ops)
  }

  lemma GuardedRunIsTree(n: nat, who: Caller, ops: seq<Op>, m: Memory)
    requires GuardedRun(n, who, ops, m)
    ensures TreeInv(m) && Sane(m) && m.sb.numInodes == n
    ensures forall k: nat :: k < TABLE_SIZE && !Live(m, k) ==> Empty(Entries(m, k))
  {
    FormattedIsTree(n, who);
    FormattedIsPrefix(n, who);
    RunKeepsTree(Formatted(n, who), ops);
    RunKeepsCount(Formatted(n, who), ops);
    hide Formatted;
    forall k: nat | k < TABLE_SIZE && !Live(m, k) ensures Empty(Entries(m, k)) {
      FreeIsEmpty(m, k);
    }
  }

  lemma PrefixLive(m: Memory, c: nat, p: nat)
    requires Prefix(m, c) && p <= c
    ensures Live(m, p)
  {}

  lemma FreeIsEmpty(m: Memory, k: nat)
    requires TreeInv(m) && k < TABLE_SIZE && !Live(m, k)
    ensures Empty(Entries(m, k))
  {
    forall j | 0 <= j < MAX_FILES_IN_DIR ensures Entries(m, k)[j] == Null {
      assert Entries(m, k)[j] in Entries(m, k);
      assert Entries(m, k)[j] != Null ==> EntryOk(m, k, Entries(m, k)[j].index);
    }
  }

  lemma NoCalls(n: nat, who: Caller)
    requires n <= TABLE_SIZE
    ensures GuardedRun(n, who, [], Formatted(n, who)) && Prefix(Formatted(n, who), 0)
  {
    FormattedIsPrefix(n, who);
  }

  /** A guarded run goes on with one more allowed create or remove. */
  lemma OneMoreCreate(n: nat, who: Caller, ops: seq<Op>, m: Memory, path: string)
    requires GuardedRun(n, who, ops, m) && Sane(m) && WellFormed(path) && CreateAllowed(m, path)
    ensures Creatable(m, path) && GuardedRun(n, who, ops + [Create(path, who)], CreateInode(m, path, who).0)
  {
    var op := Create(path, who);
    WellFormedIsSafe(op);
    FormattedIsTree(n, who);
    hide Formatted, CreateAllowed, TreeInv;
    RunSnoc(Formatted(n, who), ops, op);
  }

  lemma OneMoreRemove(n: nat, who: Caller, ops: seq<Op>, m: Memory, path: string)
    requires GuardedRun(n, who, ops, m) && Sane(m) && WellFormed(path) && RemoveAllowed(m, path)
    ensures path != "/" && GuardedRun(n, who, ops + [Op.Remove(path)], RemoveInode(m, path).0)
  {
    var op := Op.Remove(path);
    WellFormedIsSafe(op);
    FormattedIsTree(n, who);
    hide Formatted, RemoveAllowed, TreeInv;
    RunSnoc(Formatted(n, who), ops, op);
  }

  // ---- One directory, and a file in it ----

  /** Inode k is a live record without entries. */
  ghost predicate Childless(m: Memory, k: nat, p: nat, key: Key) {
    0 < k < TABLE_SIZE && Live(m, k) && Parent(m, k) == p && KeyAt(m, k) == key && Empty(Entries(m, k))
  }

  lemma FirstFreeIsNext(m: Memory, c: nat)
    requires Prefix(m, c) && c + 1 < m.sb.numInodes <= TABLE_SIZE
    ensures FirstFree(m, 1) == c + 1 && !Live(m, c + 1)
  {
    assert !Live(m, c + 1);
    if FirstFree(m, 1) < m.sb.numInodes {
      FirstFreeAfterPrefix(m, c);
    }
  }

  /** The new inode c + 1 below p, and nothing else, is what changed. */
  ghost predicate Grown(m: Memory, m': Memory, c: nat, p: nat, key: Key)
    requires p < TABLE_SIZE && c + 1 < TABLE_SIZE
  {
    Childless(m', c + 1, p, key) &&
    Entries(m', p) == AddEntry(Entries(m, p), c + 1) &&
    (forall k: nat :: k < TABLE_SIZE && k != c + 1 ==>
       KeyAt(m', k) == KeyAt(m, k) && Parent(m', k) == Parent(m, k) && (Live(m', k) <==> Live(m, k))) &&
    (forall q: nat :: q < TABLE_SIZE && q != p ==> Entries(m', q) == Entries(m, q))
  }

  lemma CreateGrows(m: Memory, c: nat, path: string, p: nat, who: Caller)
    requires TreeInv(m) && Prefix(m, c) && c + 1 < m.sb.numInodes <= TABLE_SIZE
    requires WellFormed(path) && FindParent(m, path) == At(p) && p <= c
    requires HasRoom(Entries(m, p)) && !LiveKey(m, KeyOf(path))
    ensures Creatable(m, path) && CreateAllowed(m, path)
    ensures var (m', r) := CreateInode(m, path, who);
            r == At(c + 1) && Prefix(m', c + 1) && Grown(m, m', c, p, KeyOf(path))
  {
    hide Linked, LookupInv, Prefix, Install, AddEntry, Sane, FirstFree, CreateInode, FindParent, Find, LiveKey;
    LinkedIsSane(m);
    FirstFreeIsNext(m, c);
    WellFormedParts(path);
    PrefixLive(m, c, p);
    CreateIsInstall(m, path, who);
    CreateExtendsPrefix(m, c, path, who);
    ReadyInstall(m, path);
    FreeIsEmpty(m, c + 1);
    InstallEffect(m, p, c + 1, BaseName(path), RelativeParentName(path).value, who);
  }

  /** A create that its guard allows, in a state where inodes 0 to c are live. */
  lemma NextCreate(n: nat, who: Caller, ops: seq<Op>, m: Memory, c: nat, path: string, p: nat)
    requires GuardedRun(n, who, ops, m) && Prefix(m, c) && c + 1 < n <= TABLE_SIZE
    requires Sane(m) && WellFormed(path) && FindParent(m, path) == At(p) && p <= c
    requires HasRoom(Entries(m, p)) && !LiveKey(m, KeyOf(path))
    ensures Creatable(m, path) && CreateAllowed(m, path)
    ensures var (m', r) := CreateInode(m, path, who);
            && r == At(c + 1) && GuardedRun(n, who, ops + [Create(path, who)], m') && Prefix(m', c + 1)
            && Grown(m, m', c, p, KeyOf(path))
  {
    hide *;
    GuardedRunIsTree(n, who, ops, m);
    CreateGrows(m, c, path, p, who);
    OneMoreCreate(n, who, ops, m, path);
  }

  lemma OneDirectory(n: nat, who: Caller) returns (m: Memory)
    requires 2 <= n <= TABLE_SIZE
    ensures GuardedRun(n, who, [Create("/a", who)], m) && Prefix(m, 1)
    ensures Childless(m, 1, 0, ("a", "/")) && Entries(m, 0) == AddEntry(NoEntries(), 1)
  {
    hide WellFormed, LastSlash, BaseName, ParentPath, RelativeParentName, KeyOf, IsCString, Component;
    SomePaths();
    NoCalls(n, who);
    var m0 := Formatted(n, who);
    assert Entries(m0, 0) == NoEntries() && HasRoom(NoEntries());
    ParentLookup(m0, "/a");
    assert !LiveKey(m0, ("a", "/"));
    hide Formatted;
    NextCreate(n, who, [], m0, 0, "/a", 0);
    m := CreateInode(m0, "/a", who).0;
    assert [] + [Create("/a", who)] == [Create("/a", who)];
  }

  lemma FileInDirectory(n: nat, who: Caller) returns (m: Memory)
    requires 3 <= n <= TABLE_SIZE
    ensures GuardedRun(n, who, [Create("/a", who), Create("/a/b", who)], m) && Prefix(m, 2)
    ensures Live(m, 1) && KeyAt(m, 1) == ("a", "/") && Parent(m, 1) == 0 && Childless(m, 2, 1, ("b", "a"))
    ensures Entries(m, 0) == AddEntry(NoEntries(), 1) && Entries(m, 1)[0] == At(2)
  {
    hide WellFormed, LastSlash, BaseName, ParentPath, RelativeParentName, KeyOf, IsCString, Component;
    SomePaths();
    var m1 := OneDirectory(n, who);
    hide GuardedRun, TreeInv;
    GuardedRunIsTree(n, who, [Create("/a", who)], m1);
    FindInTree(m1, "/a", 1);
    ParentLookup(m1, "/a/b");
    FileIsFresh(m1);
    hide Sane, Prefix, AddEntry, FindParent, Find, LiveKey, CreateInode;
    NextCreate(n, who, [Create("/a", who)], m1, 1, "/a/b", 1);
    m := CreateInode(m1, "/a/b", who).0;
    assert [Create("/a", who)] + [Create("/a/b", who)] == [Create("/a", who), Create("/a/b", who)];
  }

  lemma FileIsFresh(m: Memory)
    requires Prefix(m, 1) && Childless(m, 1, 0, ("a", "/"))
    ensures !LiveKey(m, ("b", "a")) && HasRoom(Entries(m, 1))
    ensures AddEntry(Entries(m, 1), 2)[0] == At(2)
  {
    assert "a" != "b";
    assert Entries(m, 1)[0] == Null;
  }

  // ---- The failures ----

  /** Create "/a", remove it, create "/a/b": the removed record is found as the parent, is
      reused for the new file, and becomes its own parent. */
  lemma RecordAdoptsItself(n: nat, who: Caller) returns (m: Memory)
    requires 2 <= n <= TABLE_SIZE
    ensures GuardedRun(n, who, [Create("/a", who), Op.Remove("/a")], m)
    ensures TreeInv(m) && WellFormed("/a/b") && Creatable(m, "/a/b")
    ensures var (m', r) := CreateInode(m, "/a/b", who);
            r == At(1) && Live(m', 1) && Parent(m', 1) == 1 && At(1) in Entries(m', 1) && !Linked(m')
  {
    hide WellFormed, LastSlash, BaseName, ParentPath, RelativeParentName, KeyOf, IsCString, Component;
    SomePaths();
    var m1 := OneDirectory(n, who);
    GuardedRunIsTree(n, who, [Create("/a", who)], m1);
    FindInTree(m1, "/a", 1);
    OneMoreRemove(n, who, [Create("/a", who)], m1, "/a");
    assert [Create("/a", who)] + [Op.Remove("/a")] == [Create("/a", who), Op.Remove("/a")];
    m := RemoveInode(m1, "/a").0;
    RemovedPathIsStillFound(m1, "/a");
    GuardedRunIsTree(n, who, [Create("/a", who), Op.Remove("/a")], m);
    hide GuardedRun, RemoveInode, Prefix;
    ParentLookup(m, "/a/b");
    assert FirstFree(m, 1) == 1 && FindParent(m, "/a/b") == At(1);
    CreateKeepsLinksIff(m, "/a/b", who);
    assert Entries(m, 1)[0] == Null;
    AddMembers(Entries(m, 1), 1);
  }

  /** Create "/a", create "/a/b", remove "/a": the file keeps a parent that is gone. Lookup
      still finds it. */
  lemma ParentRemovedFirst(n: nat, who: Caller) returns (m: Memory)
    requires 3 <= n <= TABLE_SIZE
    ensures GuardedRun(n, who, [Create("/a", who), Create("/a/b", who)], m)
    ensures TreeInv(m)
    ensures var m' := RemoveInode(m, "/a").0;
            && Live(m', 2) && Parent(m', 2) == 1 && !Live(m', 1) && !Linked(m')
            && LookupInv(m') && Find(m', "/a/b") == At(2)
  {
    hide WellFormed, LastSlash, BaseName, ParentPath, RelativeParentName, KeyOf, IsCString, Component;
    SomePaths();
    m := FileInDirectory(n, who);
    GuardedRunIsTree(n, who, [Create("/a", who), Create("/a/b", who)], m);
    hide GuardedRun, Prefix;
    FindReturnsLive(m, "/a", 1);
    RemoveKeepsLinksIff(m, "/a");
    RemoveEffect(m, "/a", 1);
    RemoveKeepsLookup(m, "/a");
    FindReturnsLive(RemoveInode(m, "/a").0, "/a/b", 2);
  }

  /** "/a/b" is inode 2 below inode 1, and "/x" is inode 3 without entries. */
  ghost predicate TwoDirectories(m: Memory) {
    Live(m, 1) && KeyAt(m, 1) == ("a", "/") && Parent(m, 1) == 0 &&
    Live(m, 2) && KeyAt(m, 2) == ("b", "a") && Parent(m, 2) == 1 &&
    Childless(m, 3, 0, ("x", "/"))
  }

  lemma MakeTwoDirectories(n: nat, who: Caller) returns (m: Memory)
    requires 4 <= n <= TABLE_SIZE
    ensures GuardedRun(n, who, [Create("/a", who), Create("/a/b", who), Create("/x", who)], m)
    ensures TwoDirectories(m)
  {
    hide *;
    var m2 := FileInDirectory(n, who);
    SomePaths();
    var two := [Create("/a", who), Create("/a/b", who)];
    GuardedRunIsTree(n, who, two, m2);
    XIsFresh(m2);
    NextCreate(n, who, two, m2, 2, "/x", 0);
    m := CreateInode(m2, "/x", who).0;
    assert two + [Create("/x", who)] == [Create("/a", who), Create("/a/b", who), Create("/x", who)];
    SecondDirectory(m2, m);
  }

  lemma SecondDirectory(m: Memory, m': Memory)
    requires Live(m, 1) && KeyAt(m, 1) == ("a", "/") && Parent(m, 1) == 0 && Childless(m, 2, 1, ("b", "a"))
    requires Grown(m, m', 2, 0, ("x", "/"))
    ensures TwoDirectories(m')
  {}

  /** Create "/a", create "/a/b", create "/x": the empty directory "/x" has no "a", but
      "/x/a/b" leads to the file of "/a". */
  lemma FoundInTheWrongPlace(n: nat, who: Caller) returns (m: Memory)
    requires 4 <= n <= TABLE_SIZE
    ensures GuardedRun(n, who, [Create("/a", who), Create("/a/b", who), Create("/x", who)], m)
    ensures TreeInv(m) && WellFormed("/x/a/b")
    ensures Find(m, "/x") == At(3) && Empty(Entries(m, 3))
    ensures Spells(m, "/a/b", 2) && Find(m, "/x/a/b") == At(2) && !PrefixesListed(m, "/x/a/b")
  {
    m := MakeTwoDirectories(n, who);
    hide WellFormed, LastSlash, BaseName, ParentPath, RelativeParentName, KeyOf, IsCString, Component;
    hide GuardedRun, TreeInv, PrefixesListed, Spells, Find;
    GuardedRunIsTree(n, who, [Create("/a", who), Create("/a/b", who), Create("/x", who)], m);
    SomePaths();
    FindInTree(m, "/x", 3);
    FindInTree(m, "/x/a/b", 2);
    SpellsTwo(m);
    Misplaced(m);
  }

  lemma Misplaced(m: Memory)
    requires TreeInv(m) && Spells(m, "/a/b", 2)
    ensures WellFormed("/x/a/b") && Sane(m) && !PrefixesListed(m, "/x/a/b")
  {
    hide TreeInv, PrefixesListed, Spells;
    SomePaths();
    TreeIsSane(m);
    LookupForgetsAncestors(m, 2, "/a/b", "/x/a/b");
    LookupIsTrueIff(m, "/x/a/b");
  }

  lemma XIsFresh(m: Memory)
    requires Sane(m) && Prefix(m, 2) && KeyAt(m, 1) == ("a", "/") && Childless(m, 2, 1, ("b", "a"))
    requires Entries(m, 0) == AddEntry(NoEntries(), 1)
    ensures WellFormed("/x") && FindParent(m, "/x") == At(0)
    ensures !LiveKey(m, ("x", "/")) && HasRoom(Entries(m, 0))
  {
    hide WellFormed, LastSlash, BaseName, ParentPath, RelativeParentName, KeyOf, IsCString, Component;
    SomePaths();
    ParentLookup(m, "/x");
    assert "x" != "a" && "x" != "b";
    assert Entries(m, 0)[1] == Null;
  }

  lemma FindInTree(m: Memory, path: string, k: nat)
    requires TreeInv(m) && WellFormed(path) && 0 < k < TABLE_SIZE && Live(m, k) && KeyAt(m, k) == KeyOf(path)
    ensures Find(m, path) == At(k)
  {
    FindReturnsLive(m, path, k);
  }

  lemma SpellsTwo(m: Memory)
    requires Live(m, 1) && Parent(m, 1) == 0 && m.inodes[1].fileName == "a"
    requires Live(m, 2) && Parent(m, 2) == 1 && m.inodes[2].fileName == "b"
    ensures Spells(m, "/a/b", 2)
  {
    SomePaths();
    assert Spells(m, "", 0) && Spells(m, "/a", 1);
  }

  // ---- Equal names in different places ----

  /** The paths "/a/a" and "/a/a/a" end in the same two names. */
  lemma NestedPaths()
    ensures WellFormed("/a") && ParentPath("/a") == "" && BaseName("/a") == "a" && KeyOf("/a") == ("a", "/")
    ensures WellFormed("/a/a") && ParentPath("/a/a") == "/a" && BaseName("/a/a") == "a" && KeyOf("/a/a") == ("a", "a")
    ensures WellFormed("/a/a/a") && ParentPath("/a/a/a") == "/a/a" && KeyOf("/a/a/a") == ("a", "a")
  {
    assert Component("a");
    hide WellFormed, LastSlash, BaseName, ParentPath, RelativeParentName, KeyOf, IsCString, Component;
    Below("", "a");
    assert "" + "/" + "a" == "/a";
    Below("/a", "a");
    assert "/a" + "/" + "a" == "/a/a";
    Below("/a/a", "a");
    assert "/a/a" + "/" + "a" == "/a/a/a";
  }

  lemma DirectoryInDirectory(n: nat, who: Caller) returns (m: Memory)
    requires 3 <= n <= TABLE_SIZE
    ensures GuardedRun(n, who, [Create("/a", who), Create("/a/a", who)], m) && Prefix(m, 2)
    ensures Live(m, 1) && KeyAt(m, 1) == ("a", "/") && Parent(m, 1) == 0 && Childless(m, 2, 1, ("a", "a"))
  {
    hide WellFormed, LastSlash, BaseName, ParentPath, RelativeParentName, KeyOf, IsCString, Component;
    NestedPaths();
    var m1 := OneDirectory(n, who);
    hide GuardedRun, TreeInv;
    GuardedRunIsTree(n, who, [Create("/a", who)], m1);
    FindInTree(m1, "/a", 1);
    ParentLookup(m1, "/a/a");
    assert "/" != "a";
    assert !LiveKey(m1, ("a", "a")) && Entries(m1, 1)[0] == Null;
    hide Sane, Prefix, AddEntry, FindParent, Find, LiveKey, CreateInode;
    NextCreate(n, who, [Create("/a", who)], m1, 1, "/a/a", 1);
    m := CreateInode(m1, "/a/a", who).0;
    assert [Create("/a", who)] + [Create("/a/a", who)] == [Create("/a", who), Create("/a/a", who)];
  }

  /** Create "/a", "/a/a" and "/a/a/a", no path twice and every parent ready: the tree is right,
      but the path of the new inode leads to its parent. */
  lemma SameNamesTwice(n: nat, who: Caller) returns (m: Memory)
    requires 4 <= n <= TABLE_SIZE
    ensures GuardedRun(n, who, [Create("/a", who), Create("/a/a", who)], m)
    ensures TreeInv(m) && WellFormed("/a/a/a") && Creatable(m, "/a/a/a") && ParentReady(m, "/a/a/a")
    ensures forall j :: !Spells(m, "/a/a/a", j)
    ensures var (m', r) := CreateInode(m, "/a/a/a", who);
            && r == At(3) && Linked(m') && !LookupInv(m')
            && Spells(m', "/a/a/a", 3) && Find(m', "/a/a/a") == At(2)
  {
    hide WellFormed, LastSlash, BaseName, ParentPath, RelativeParentName, KeyOf, IsCString, Component;
    NestedPaths();
    m := DirectoryInDirectory(n, who);
    GuardedRunIsTree(n, who, [Create("/a", who), Create("/a/a", who)], m);
    FirstFreeIsNext(m, 2);
    assert Entries(m, 2)[0] == Null;
    SpellsNested(m);
    hide GuardedRun, TreeInv, Prefix, Spells, Linked, LookupInv, CreateAllowed;
    SameNamesElsewhere(m, "/a/a/a", who, 2, 2);
    CreateTakesFirstFree(m, "/a/a/a", who);
  }

  lemma SpellsNested(m: Memory)
    requires Live(m, 1) && Parent(m, 1) == 0 && m.inodes[1].fileName == "a"
    requires Live(m, 2) && Parent(m, 2) == 1 && m.inodes[2].fileName == "a"
    ensures Spells(m, "/a/a", 2)
  {
    NestedPaths();
    assert Spells(m, "", 0) && Spells(m, "/a", 1);
  }

  lemma CreateTakesFirstFree(m: Memory, path: string, who: Caller)
    requires Creatable(m, path)
    ensures var r := CreateInode(m, path, who).1; r.At? ==> r.index == FirstFree(m, 1)
  {}

  // ---- A hole in a directory ----

  /** Create "/a", create "/x", remove "/a": the file "/x" is live and found, and the root lists
      nothing. */
  lemma HoleHidesFile(n: nat, who: Caller) returns (m: Memory)
    requires 3 <= n <= TABLE_SIZE
    ensures GuardedRun(n, who, [Create("/a", who), Create("/x", who), Op.Remove("/a")], m)
    ensures TreeInv(m) && WellFormed("/x") && Find(m, "/x") == At(2) && Live(m, 2) && Parent(m, 2) == 0
    ensures Listed(Entries(m, 0)) == []
  {
    hide WellFormed, LastSlash, BaseName, ParentPath, RelativeParentName, KeyOf, IsCString, Component;
    SomePaths();
    var m2 := TwoFiles(n, who);
    var two := [Create("/a", who), Create("/x", who)];
    GuardedRunIsTree(n, who, two, m2);
    FindInTree(m2, "/a", 1);
    OneMoreRemove(n, who, two, m2, "/a");
    assert two + [Op.Remove("/a")] == [Create("/a", who), Create("/x", who), Op.Remove("/a")];
    m := RemoveInode(m2, "/a").0;
    GuardedRunIsTree(n, who, two + [Op.Remove("/a")], m);
    RemoveEffect(m2, "/a", 1);
    FindInTree(m, "/x", 2);
    hide TreeInv, GuardedRun, Sane, Find, RemoveInode;
    RemovedFromFront(m2);
  }

  /** "/a" and "/x" are inodes 1 and 2, both in the root. */
  ghost predicate TwoInRoot(m: Memory) {
    Childless(m, 1, 0, ("a", "/")) && Childless(m, 2, 0, ("x", "/")) &&
    Entries(m, 0)[0] == At(1) && Entries(m, 0)[1] == At(2) &&
    forall j :: 2 <= j < MAX_FILES_IN_DIR ==> Entries(m, 0)[j] == Null
  }

  lemma TwoFiles(n: nat, who: Caller) returns (m: Memory)
    requires 3 <= n <= TABLE_SIZE
    ensures GuardedRun(n, who, [Create("/a", who), Create("/x", who)], m) && TwoInRoot(m)
  {
    hide *;
    SomePaths();
    var m1 := OneDirectory(n, who);
    GuardedRunIsTree(n, who, [Create("/a", who)], m1);
    XBesideA(m1);
    NextCreate(n, who, [Create("/a", who)], m1, 1, "/x", 0);
    m := CreateInode(m1, "/x", who).0;
    assert [Create("/a", who)] + [Create("/x", who)] == [Create("/a", who), Create("/x", who)];
    TwoGrown(m1, m);
  }

  lemma XBesideA(m: Memory)
    requires Sane(m) && Prefix(m, 1) && Childless(m, 1, 0, ("a", "/")) && Entries(m, 0) == AddEntry(NoEntries(), 1)
    ensures WellFormed("/x") && FindParent(m, "/x") == At(0)
    ensures !LiveKey(m, ("x", "/")) && HasRoom(Entries(m, 0))
  {
    hide WellFormed, LastSlash, BaseName, ParentPath, RelativeParentName, KeyOf, IsCString, Component;
    SomePaths();
    ParentLookup(m, "/x");
    assert "x" != "a";
    assert Entries(m, 0)[1] == Null;
  }

  lemma TwoGrown(m: Memory, m': Memory)
    requires Prefix(m, 1) && Childless(m, 1, 0, ("a", "/")) && Entries(m, 0) == AddEntry(NoEntries(), 1)
    requires Grown(m, m', 1, 0, ("x", "/"))
    ensures TwoInRoot(m')
  {
    FirstNullIs(NoEntries(), 0);
    FirstNullIs(Entries(m, 0), 1);
  }

  lemma RemovedFromFront(m: Memory)
    requires TreeInv(m) && TwoInRoot(m)
    ensures SaneSlots(Entries(m, 0)) && m.inodes[1].inumber == 1 && Listed(Unlink(m, Entries(m, 0), 1)) == []
  {
    assert SaneRecord(m.inodes[0], 0) && SaneRecord(m.inodes[1], 1);
    assert ChildOk(m, 1);
    var dc := Entries(m, 0);
    FirstNullIs(dc, 2);
    assert FindEntry(m, dc, 1, 0) == 0;
    RemoveTruncates(dc, 0);
  }

  // ---- A full directory ----

  /** Thirty-one and more different names. */
  function LongName(k: nat): (c: string) {
    seq(k + 1, _ => 'a')
  }

  function RootPath(k: nat): string {
    "/" + LongName(k)
  }

  function RootCreates(c: nat, who: Caller): (ops: seq<Op>)
    ensures |ops| == c
  {
    if c == 0 then [] else RootCreates(c - 1, who) + [Create(RootPath(c - 1), who)]
  }

  lemma RootPathParts(k: nat)
    requires k <= MAX_FILES_IN_DIR
    ensures WellFormed(RootPath(k)) && ParentPath(RootPath(k)) == ""
    ensures KeyOf(RootPath(k)) == (LongName(k), "/")
  {
    assert Component(LongName(k));
    Below("", LongName(k));
    assert "" + "/" + LongName(k) == RootPath(k);
  }

  /** The root lists inodes 1 to c in order, with the first c names, and nothing else is live. */
  ghost predicate RootHolds(m: Memory, c: nat) {
    c <= MAX_FILES_IN_DIR && Prefix(m, c) &&
    (forall j :: 0 <= j < MAX_FILES_IN_DIR ==> Entries(m, 0)[j] == if j < c then At(j + 1) else Null) &&
    (forall j :: 0 <= j < c ==> KeyAt(m, j + 1) == (LongName(j), "/"))
  }

  /** Another file for the root, if it has room. */
  lemma RootTakesOne(m: Memory, c: nat, who: Caller)
    requires TreeInv(m) && RootHolds(m, c) && c < MAX_FILES_IN_DIR && c + 1 < m.sb.numInodes
    ensures WellFormed(RootPath(c)) && CreateAllowed(m, RootPath(c)) && Creatable(m, RootPath(c))
    ensures RootHolds(CreateInode(m, RootPath(c), who).0, c + 1)
  {
    RootPathParts(c);
    WellFormedParts(RootPath(c));
    FirstFreeIsNext(m, c);
    FirstNullIs(Entries(m, 0), c);
    FreshLongName(m, c);
    CreateExtendsPrefix(m, c, RootPath(c), who);
    ReadyInstall(m, RootPath(c));
    InstallEffect(m, 0, c + 1, LongName(c), "/", who);
  }

  lemma FreshLongName(m: Memory, c: nat)
    requires RootHolds(m, c)
    ensures !LiveKey(m, (LongName(c), "/"))
  {
    forall k | 0 < k < TABLE_SIZE && Live(m, k) ensures KeyAt(m, k) != (LongName(c), "/") {
      assert KeyAt(m, k - 1 + 1) == (LongName(k - 1), "/");
      assert |LongName(k - 1)| != |LongName(c)|;
    }
  }

  /** Calls that put c files into the root. */
  lemma {:induction false} FillRoot(n: nat, who: Caller, c: nat) returns (m: Memory)
    requires c <= MAX_FILES_IN_DIR && c + 1 < n <= TABLE_SIZE
    ensures GuardedRun(n, who, RootCreates(c, who), m) && RootHolds(m, c)
  {
    if c == 0 {
      NoCalls(n, who);
      m := Formatted(n, who);
      assert Entries(m, 0) == NoEntries();
    } else {
      var before := FillRoot(n, who, c - 1);
      hide GuardedRun, TreeInv, RootHolds, RootPath, LongName;
      GuardedRunIsTree(n, who, RootCreates(c - 1, who), before);
      RootTakesOne(before, c - 1, who);
      OneMoreCreate(n, who, RootCreates(c - 1, who), before, RootPath(c - 1));
      m := CreateInode(before, RootPath(c - 1), who).0;
    }
  }

  /** Thirty files in the root, and a thirty-first: its create succeeds, and no directory lists
      the new inode. */
  lemma FullDirectory(n: nat, who: Caller) returns (m: Memory)
    requires 32 <= n <= TABLE_SIZE
    ensures GuardedRun(n, who, RootCreates(30, who), m)
    ensures TreeInv(m) && WellFormed(RootPath(30)) && Creatable(m, RootPath(30)) && !HasRoom(Entries(m, 0))
    ensures var (m', r) := CreateInode(m, RootPath(30), who);
            && r == At(31) && Live(m', 31) && (forall q: nat :: q < TABLE_SIZE ==> At(31) !in Entries(m', q))
            && !Linked(m')
  {
    m := FillRoot(n, who, 30);
    GuardedRunIsTree(n, who, RootCreates(30, who), m);
    hide GuardedRun, TreeInv, RootHolds;
    RootOverflows(m, who);
  }

  lemma RootOverflows(m: Memory, who: Caller)
    requires TreeInv(m) && RootHolds(m, 30) && 31 < m.sb.numInodes
    ensures WellFormed(RootPath(30)) && Creatable(m, RootPath(30)) && !HasRoom(Entries(m, 0))
    ensures var (m', r) := CreateInode(m, RootPath(30), who);
            && r == At(31) && Live(m', 31) && (forall q: nat :: q < TABLE_SIZE ==> At(31) !in Entries(m', q))
            && !Linked(m')
  {
    RootPathParts(30);
    WellFormedParts(RootPath(30));
    FirstFreeIsNext(m, 30);
    FirstNullIs(Entries(m, 0), 30);
    NotListed(m, 31);
    hide Install, RootPath, LongName, EntriesOk, KeysUnique, LiveBeforeStale, NoDoubleEntries, Prefix, Acyclic;
    FullParentBreaks(m, 0, 31, LongName(30), "/", who);
  }

  lemma NotListed(m: Memory, k: nat)
    requires EntriesOk(m) && !Live(m, k)
    ensures forall q: nat :: q < TABLE_SIZE ==> At(k) !in Entries(m, q)
  {}

  // ---- The last inode ----

  /** A blank image formatted for two inodes, one file, and the next mount: the file's inode is
      taken but has no record, and what was a tree is none any more. */
  lemma LastInodeIsLost(image: seq<byte>, who: Caller, beyond: seq<byte>, stack: seq<byte>)
    requires |image| >= 4 * BLOCK_SIZE && forall k :: 0 <= k < |image| ==> image[k] == 0
    requires |beyond| >= 544 && |stack| == SUPERBLOCK_SIZE
    ensures var s0, call := FormattedState(image, 2, who), Call(Create("/a", who), beyond);
            && Sane(s0.mem) && SafeOp(call.op) && Covers(s0.mem.sb, beyond)
            && var s := CallStep(s0, call);
               && TreeInv(s.mem) && Live(s.mem, 1) && Mountable(s.image, stack)
               && var m := Mounted(s.image, stack);
                  && Live(m, 1) && m.inodes[1] == ZeroFcb() && !Linked(m)
  {
    SomePaths();
    FirstCreate(2, who, "/a");
    ZeroImageIsBlank(image, 2, who);
    FormattedIsSteady(image, 2, who);
    FormattedParts(image, 2, who);
    FormatGeometry(ZeroMemory(), 2, who);
    var s0, call := FormattedState(image, 2, who), Call(Create("/a", who), beyond);
    assert Covers(s0.mem.sb, beyond);
    StepOfCreate(s0.mem, "/a", who);
    hide Formatted, FormattedState, Persisted, LastSlotIs, Mounted, Mountable, Step, TreeInv;
    CallKeepsFaithful(s0, call);
    CallKeepsLastSlot(s0, call, Blank());
    var s := CallStep(s0, call);
    FirstCreateIsLive(s0.mem, who);
    RemountKeepsTreeIff(s, stack);
    MountWithBlankLast(s, stack);
  }

  lemma StepOfCreate(m: Memory, path: string, who: Caller)
    requires Sane(m) && WellFormed(path)
    ensures SafeOp(Create(path, who)) && Creatable(m, path)
    ensures Step(m, Create(path, who)) == CreateInode(m, path, who).0
  {
    WellFormedIsSafe(Create(path, who));
  }

  lemma FirstCreateIsLive(m: Memory, who: Caller)
    requires Sane(m) && WellFormed("/a") && Creatable(m, "/a") && CreateInode(m, "/a", who).1 == At(1)
    ensures Live(CreateInode(m, "/a", who).0, 1)
  {}
}
