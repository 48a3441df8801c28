/** What `sfs_readdir` shows of a directory. */
module Listing {
  import opened Types
  import opened Paths
  import opened DirEntries
  import opened Inodes
  import opened Lookup
  import opened Links
  import opened Tree
  import opened Runs
  import opened Boot

  /** The names handed to the filler after "." and "..". */
  function ListedNames(m: Memory, q: nat): (names: seq<string>)
    requires Sane(m) && q < TABLE_SIZE
    ensures |names| <= MAX_FILES_IN_DIR
  {
    assert SaneRecord(m.inodes[q], q);
    var entries := Listed(Entries(m, q));
    seq(|entries|, j requires 0 <= j < |entries| => m.inodes[entries[j].index].fileName)
  }

  /** Exactly the names of the entries before the first empty slot, in their order. */
  lemma NamesAreEntries(m: Memory, q: nat)
    requires Sane(m) && q < TABLE_SIZE
    ensures var names, dc := ListedNames(m, q), Entries(m, q);
            && (|names| < MAX_FILES_IN_DIR ==> dc[|names|] == Null)
            && forall j :: 0 <= j < |names| ==>
                 dc[j] != Null && dc[j].index < TABLE_SIZE && names[j] == m.inodes[dc[j].index].fileName
  {
    assert SaneRecord(m.inodes[q], q);
  }

  /** In every reachable state, listed names are names of live inodes that have the directory as
      parent. */
  lemma ListingIsSound(m: Memory, q: nat, j: nat)
    requires AllBack(m) && q < TABLE_SIZE && j < |ListedNames(m, q)|
    ensures var e := Entries(m, q)[j];
            && e.At? && 0 < e.index < TABLE_SIZE && Live(m, e.index) && Parent(m, e.index) == q
            && ListedNames(m, q)[j] == m.inodes[e.index].fileName
  {
    var e := Entries(m, q)[j];
    assert e in Entries(m, q);
    assert BackOk(m, q, e.index);
  }

  /** No inode is listed twice in any reachable state, and in a tree with unique pairs no name. */
  lemma ListingHasNoRepeats(m: Memory, q: nat, i: nat, j: nat)
    requires AllBack(m) && q < TABLE_SIZE && i < j < |ListedNames(m, q)|
    ensures Entries(m, q)[i] != Entries(m, q)[j]
    ensures TreeInv(m) ==> ListedNames(m, q)[i] != ListedNames(m, q)[j]
  {
    ListingIsSound(m, q, i);
    ListingIsSound(m, q, j);
    assert NoDuplicates(Entries(m, q));
    if TreeInv(m) {
      ListedNamesDiffer(m, q, i, j);
    }
  }

  lemma ListedNamesDiffer(m: Memory, q: nat, i: nat, j: nat)
    requires TreeInv(m) && q < TABLE_SIZE && i < j < |ListedNames(m, q)|
    requires Entries(m, q)[i] != Entries(m, q)[j]
    ensures ListedNames(m, q)[i] != ListedNames(m, q)[j]
  {
    LinkedIsBack(m);
    ListingIsSound(m, q, i);
    ListingIsSound(m, q, j);
    var x, y := Entries(m, q)[i].index, Entries(m, q)[j].index;
    assert ChildOk(m, x) && ChildOk(m, y);
    assert KeyAt(m, x) != KeyAt(m, y);
  }

  /** Every live child of the directory is among the listed names. */
  ghost predicate ShowsAll(m: Memory, q: nat)
    requires Sane(m) && q < TABLE_SIZE
  {
    forall k :: 0 < k < TABLE_SIZE && Live(m, k) && Parent(m, k) == q ==> IsShown(m, q, k)
  }

  ghost predicate IsShown(m: Memory, q: nat, k: nat)
    requires Sane(m) && q < TABLE_SIZE && k < TABLE_SIZE
  {
    exists j :: 0 <= j < |ListedNames(m, q)| && Entries(m, q)[j] == At(k) &&
                ListedNames(m, q)[j] == m.inodes[k].fileName
  }

  /** The listing shows every live child exactly when the array has no hole before an entry. */
  lemma ListingIsCompleteIff(m: Memory, q: nat)
    requires Linked(m) && q < TABLE_SIZE
    ensures ShowsAll(m, q) <==>
            forall i, j :: 0 <= i < j < MAX_FILES_IN_DIR && Entries(m, q)[j] != Null ==> Entries(m, q)[i] != Null
  {
    if NoHoles(Entries(m, q)) {
      WithoutHolesAllShown(m, q);
    }
    if ShowsAll(m, q) {
      AllShownNoHoles(m, q);
    }
  }

  lemma WithoutHolesAllShown(m: Memory, q: nat)
    requires Linked(m) && q < TABLE_SIZE && NoHoles(Entries(m, q))
    ensures ShowsAll(m, q)
  {
    LinkedIsSane(m);
    hide Sane, Acyclic, EntriesOk, NoDoubleEntries, RootOk, BitmapOk, NoHoles, IsShown;
    forall k | 0 < k < TABLE_SIZE && Live(m, k) && Parent(m, k) == q ensures IsShown(m, q, k) {
      assert ChildOk(m, k);
      var j :| 0 <= j < |Entries(m, q)| && Entries(m, q)[j] == At(k);
      EntryIsShown(m, q, j, k);
    }
  }

  lemma EntryIsShown(m: Memory, q: nat, j: nat, k: nat)
    requires Sane(m) && q < TABLE_SIZE && NoHoles(Entries(m, q)) && j < MAX_FILES_IN_DIR && k < TABLE_SIZE
    requires Entries(m, q)[j] == At(k)
    ensures IsShown(m, q, k)
  {
    NamesAreEntries(m, q);
    hide Sane, ListedNames;
    assert j < |ListedNames(m, q)|;
  }

  lemma AllShownNoHoles(m: Memory, q: nat)
    requires Linked(m) && q < TABLE_SIZE && ShowsAll(m, q)
    ensures NoHoles(Entries(m, q))
  {
    LinkedIsSane(m);
    NamesAreEntries(m, q);
    var dc, n := Entries(m, q), |ListedNames(m, q)|;
    assert NoDuplicates(dc);
    hide Sane, Acyclic, ChildrenOk, NoDoubleEntries, ListedNames, NoDuplicates;
    forall i, j | 0 <= i < j < |dc| && dc[j] != Null ensures dc[i] != Null {
      assert dc[j] in dc;
      assert EntryOk(m, q, dc[j].index);
      assert IsShown(m, q, dc[j].index);
      var l :| 0 <= l < n && dc[l] == dc[j];
      SameSlot(dc, l, j);
    }
  }

  lemma SameSlot(dc: Slots, l: nat, j: nat)
    requires NoDuplicates(dc) && l < |dc| && j < |dc| && dc[l] == dc[j] != Null
    ensures l == j
  {}

  /** Where lookup is right as well, it is enough that every child's name appears. */
  lemma NamesAreCompleteIff(m: Memory, q: nat)
    requires TreeInv(m) && q < TABLE_SIZE
    ensures (forall k :: 0 < k < TABLE_SIZE && Live(m, k) && Parent(m, k) == q ==>
               m.inodes[k].fileName in ListedNames(m, q))
            <==>
            forall i, j :: 0 <= i < j < MAX_FILES_IN_DIR && Entries(m, q)[j] != Null ==> Entries(m, q)[i] != Null
  {
    ListingIsCompleteIff(m, q);
    LinkedIsBack(m);
    forall k: nat | 0 < k < TABLE_SIZE && Live(m, k) && Parent(m, k) == q
      ensures m.inodes[k].fileName in ListedNames(m, q) <==> IsShown(m, q, k)
    {
      if m.inodes[k].fileName in ListedNames(m, q) {
        var j :| 0 <= j < |ListedNames(m, q)| && ListedNames(m, q)[j] == m.inodes[k].fileName;
        ListingIsSound(m, q, j);
        OneOfAName(m, k, Entries(m, q)[j].index);
      }
    }
  }

  lemma OneOfAName(m: Memory, k: nat, x: nat)
    requires TreeInv(m) && 0 < k < TABLE_SIZE && 0 < x < TABLE_SIZE && Live(m, k) && Live(m, x)
    requires Parent(m, k) == Parent(m, x) && m.inodes[k].fileName == m.inodes[x].fileName
    ensures k == x
  {
    assert ChildOk(m, k) && ChildOk(m, x);
  }

  // ---- Listings along a run ----

  /** The step takes an entry out of directory q. */
  predicate LeavesDir(m: Memory, op: Op, q: nat)
    requires Sane(m)
  {
    op.Remove? && var f := Find(m, op.path);
    f.At? && Live(m, f.index) && Parent(m, f.index) == q
  }

  ghost predicate NoneLeaves(m: Memory, ops: seq<Op>, q: nat)
    requires Sane(m) && SafeOps(ops)
    decreases |ops|
  {
    ops == [] || (!LeavesDir(m, ops[0], q) && NoneLeaves(Step(m, ops[0]), ops[1..], q))
  }

  /** The inode a step links into directory q, if it does. */
  function Joins(m: Memory, op: Op, q: nat): seq<Ptr>
    requires Sane(m) && SafeOp(op)
  {
    if StepResult(m, op).At? && FindParent(m, op.path) == At(q) then [StepResult(m, op)] else []
  }

  function AllJoining(m: Memory, ops: seq<Op>, q: nat): seq<Ptr>
    requires Sane(m) && SafeOps(ops)
    decreases |ops|
  {
    if ops == [] then [] else Joins(m, ops[0], q) + AllJoining(Step(m, ops[0]), ops[1..], q)
  }

  lemma CreateAppends(m: Memory, path: string, who: Caller, q: nat)
    requires Linked(m) && WellFormed(path) && Creatable(m, path) && ParentReady(m, path)
    requires q < TABLE_SIZE && NoHoles(Entries(m, q))
    ensures var (m', r) := CreateInode(m, path, who);
            && NoHoles(Entries(m', q))
            && Listed(Entries(m', q)) ==
               Listed(Entries(m, q)) + if r.At? && FindParent(m, path) == At(q) then [r] else []
  {
    var r := CreateInode(m, path, who).1;
    if r.At? {
      var p := FindParent(m, path).index;
      ReadyInstall(m, path);
      InstallEffect(m, p, r.index, BaseName(path), RelativeParentName(path).value, who);
      if p == q {
        AddAppends(Entries(m, q), r.index);
      }
    }
  }

  lemma RemoveElsewhere(m: Memory, path: string, q: nat)
    requires AllBack(m) && WellFormed(path) && path != "/" && q < TABLE_SIZE
    requires !LeavesDir(m, Op.Remove(path), q)
    ensures Entries(RemoveInode(m, path).0, q) == Entries(m, q)
  {
    if Find(m, path).At? {
      var f := Find(m, path).index;
      if Live(m, f) {
        RemoveEffect(m, path, f);
      } else {
        RemoveStaleIsNoOp(m, path);
      }
    }
  }

  lemma StepAppends(m: Memory, op: Op, q: nat)
    requires Linked(m) && WellFormed(op.path) && SafeOp(op) && Ready(m, op) && q < TABLE_SIZE
    requires NoHoles(Entries(m, q)) && !LeavesDir(m, op, q)
    ensures var m' := Step(m, op);
            NoHoles(Entries(m', q)) && Listed(Entries(m', q)) == Listed(Entries(m, q)) + Joins(m, op, q)
  {
    match Creation(op) {
      case Some(who) => CreateAppends(m, op.path, who, q);
      case None =>
        if op.Remove? {
          LinkedIsBack(m);
          RemoveElsewhere(m, op.path, q);
        }
    }
  }

  /** The name a step adds to directory q's listing, if it does. */
  function JoiningName(m: Memory, op: Op, q: nat): seq<string>
    requires Sane(m) && SafeOp(op)
  {
    if StepResult(m, op).At? && FindParent(m, op.path) == At(q) then [BaseName(op.path)] else []
  }

  function AllJoiningNames(m: Memory, ops: seq<Op>, q: nat): seq<string>
    requires Sane(m) && SafeOps(ops)
    decreases |ops|
  {
    if ops == [] then [] else JoiningName(m, ops[0], q) + AllJoiningNames(Step(m, ops[0]), ops[1..], q)
  }

  /** A step that takes nothing out of the directory leaves the names of its entries. */
  lemma StepKeepsName(m: Memory, op: Op, k: nat)
    requires Sane(m) && WellFormed(op.path) && SafeOp(op) && k < TABLE_SIZE && Live(m, k) && k != 0
    ensures Step(m, op).inodes[k].fileName == m.inodes[k].fileName
  {
    hide WellFormed, CreateInode, RemoveInode;
    match Creation(op) {
      case Some(who) => CreateOutcome(m, op.path, who);
      case None => if op.Remove? { RemoveOutcome(m, op.path); }
    }
  }

  lemma StepNamesNew(m: Memory, op: Op)
    requires Sane(m) && WellFormed(op.path) && SafeOp(op) && StepResult(m, op).At?
    ensures StepResult(m, op).index < TABLE_SIZE
    ensures Step(m, op).inodes[StepResult(m, op).index].fileName == BaseName(op.path)
  {
    hide WellFormed, CreateInode;
    CreateOutcome(m, op.path, Creation(op).value);
  }

  lemma NamesOfListed(m: Memory, q: nat)
    requires Sane(m) && q < TABLE_SIZE
    ensures var names, listed := ListedNames(m, q), Listed(Entries(m, q));
            && |names| == |listed|
            && forall j :: 0 <= j < |names| ==>
                 listed[j].At? && listed[j].index < TABLE_SIZE && names[j] == m.inodes[listed[j].index].fileName
  {
    NamesAreEntries(m, q);
  }

  lemma NamesAppend(m: Memory, m': Memory, q: nat, joins: seq<Ptr>, added: seq<string>)
    requires Sane(m) && Sane(m') && q < TABLE_SIZE && |joins| == |added|
    requires Listed(Entries(m', q)) == Listed(Entries(m, q)) + joins
    requires forall j :: 0 <= j < |joins| ==>
               joins[j].At? && joins[j].index < TABLE_SIZE && m'.inodes[joins[j].index].fileName == added[j]
    requires forall e :: e in Listed(Entries(m, q)) ==>
               e.At? && e.index < TABLE_SIZE && m'.inodes[e.index].fileName == m.inodes[e.index].fileName
    ensures ListedNames(m', q) == ListedNames(m, q) + added
  {
    NamesOfListed(m, q);
    NamesOfListed(m', q);
    hide Sane, Listed, ListedNames, Entries;
    var listed, listed' := Listed(Entries(m, q)), Listed(Entries(m', q));
    var names, names' := ListedNames(m, q), ListedNames(m', q);
    forall j | 0 <= j < |names'| ensures names'[j] == (names + added)[j] {
      if j < |listed| {
        assert listed'[j] == listed[j] && listed[j] in listed;
      } else {
        assert listed'[j] == joins[j - |listed|];
      }
    }
  }

  lemma StepAppendsName(m: Memory, op: Op, q: nat)
    requires Linked(m) && WellFormed(op.path) && SafeOp(op) && Ready(m, op) && q < TABLE_SIZE
    requires NoHoles(Entries(m, q)) && !LeavesDir(m, op, q)
    ensures ListedNames(Step(m, op), q) == ListedNames(m, q) + JoiningName(m, op, q)
  {
    StepAppends(m, op, q);
    LinkedIsBack(m);
    LinkedIsSane(m);
    if StepResult(m, op).At? {
      StepNamesNew(m, op);
    }
    hide Step, StepResult, Linked, Ready, WellFormed, SafeOp, LeavesDir, FindParent, NoHoles, Sane, Listed, AllBack;
    forall e | e in Listed(Entries(m, q))
      ensures e.At? && e.index < TABLE_SIZE && Step(m, op).inodes[e.index].fileName == m.inodes[e.index].fileName
    {
      ListedIsLive(m, q, e);
      StepKeepsName(m, op, e.index);
    }
    NamesAppend(m, Step(m, op), q, Joins(m, op, q), JoiningName(m, op, q));
  }

  lemma ListedIsLive(m: Memory, q: nat, e: Ptr)
    requires AllBack(m) && q < TABLE_SIZE && e in Listed(Entries(m, q))
    ensures e.At? && 0 < e.index < TABLE_SIZE && Live(m, e.index)
  {
    assert e in Entries(m, q);
    assert e.At? ==> BackOk(m, q, e.index);
  }

  /** The names handed out grow in the same way: by the last component of each created path. */
  lemma {:induction false} NamesGrowInOrder(m: Memory, ops: seq<Op>, q: nat)
    requires Linked(m) && AllReady(m, ops) && SafeOps(ops) && q < TABLE_SIZE
    requires NoHoles(Entries(m, q)) && NoneLeaves(m, ops, q)
    ensures ListedNames(Run(m, ops), q) == ListedNames(m, q) + AllJoiningNames(m, ops, q)
    decreases |ops|
  {
    hide Linked, Step, Ready, WellFormed, SafeOp, LeavesDir, NoHoles, ListedNames, JoiningName, Sane;
    LinkedIsSane(m);
    if ops != [] {
      StepAppends(m, ops[0], q);
      StepAppendsName(m, ops[0], q);
      StepKeepsLinksIff(m, ops[0]);
      NamesGrowInOrder(Step(m, ops[0]), ops[1..], q);
    }
  }

  lemma Associates(a: seq<Ptr>, b: seq<Ptr>, c: seq<Ptr>)
    ensures (a + b) + c == a + (b + c)
  {}

  /** As long as nothing is removed from it, a directory lists what it listed before and then
      all new children in the order of their creation. */
  lemma {:induction false} ListingGrowsInOrder(m: Memory, ops: seq<Op>, q: nat)
    requires Linked(m) && AllReady(m, ops) && SafeOps(ops) && q < TABLE_SIZE
    requires NoHoles(Entries(m, q)) && NoneLeaves(m, ops, q)
    ensures Listed(Entries(Run(m, ops), q)) == Listed(Entries(m, q)) + AllJoining(m, ops, q)
    ensures NoHoles(Entries(Run(m, ops), q))
    decreases |ops|
  {
    if ops != [] {
      StepAppends(m, ops[0], q);
      StepKeepsLinksIff(m, ops[0]);
      var m1 := Step(m, ops[0]);
      ListingGrowsInOrder(m1, ops[1..], q);
      Associates(Listed(Entries(m, q)), Joins(m, ops[0], q), AllJoining(m1, ops[1..], q));
    }
  }

  // ---- When listings stay complete ----

  /** Taking out live inode f closes the gap in its directory: the directory was full, or no
      entry comes after f's and no hole before it. */
  predicate LeavesNoHole(m: Memory, f: nat)
    requires f < TABLE_SIZE
  {
    0 <= Parent(m, f) < TABLE_SIZE &&
    var dc := Entries(m, Parent(m, f));
    exists j :: 0 <= j < MAX_FILES_IN_DIR && dc[j] == At(f) && Closes(dc, j)
  }

  /** After a remove, the directory it took the entry from has no holes exactly under that
      guard; the listing shows every child exactly then, if the remove keeps the tree. */
  lemma RemoveKeepsListingIff(m: Memory, path: string, f: nat)
    requires Linked(m) && WellFormed(path) && Find(m, path) == At(f) && Live(m, f)
    ensures path != "/" && 0 <= Parent(m, f) < TABLE_SIZE
    ensures var m' := RemoveInode(m, path).0;
            && (NoHoles(Entries(m', Parent(m, f))) <==> LeavesNoHole(m, f))
            && (RemoveAllowed(m, path) ==> (ShowsAll(m', Parent(m, f)) <==> LeavesNoHole(m, f)))
  {
    WellFormedParts(path);
    hide Linked, RemoveInode, Find, RemoveAllowed, Closes, ShowsAll, WellFormed, Sane, NoHoles;
    LinkedIsSane(m);
    RemoveStrikes(m, path, f);
    RemoveEffect(m, path, f);
    var dc, m' := Entries(m, Parent(m, f)), RemoveInode(m, path).0;
    var j := FindEntry(m, dc, f, 0);
    RemoveKeepsNoHolesIff(dc, j);
    OnlyEntry(m, Parent(m, f), j);
    if RemoveAllowed(m, path) {
      RemoveKeepsLinksIff(m, path);
      ListingIsCompleteIff(m', Parent(m, f));
    }
  }

  lemma OnlyEntry(m: Memory, q: nat, j: nat)
    requires NoDoubleEntries(m) && q < TABLE_SIZE && j < MAX_FILES_IN_DIR && Entries(m, q)[j] != Null
    ensures forall i :: 0 <= i < MAX_FILES_IN_DIR && Entries(m, q)[i] == Entries(m, q)[j] ==> i == j
  {
    assert NoDuplicates(Entries(m, q));
  }

  /** In a directory without holes that guard means: f is the last entry, or the directory is
      full. */
  lemma LastEntryLeavesNoHole(m: Memory, f: nat, j: nat)
    requires Linked(m) && 0 < f < TABLE_SIZE && 0 <= Parent(m, f) < TABLE_SIZE && j < MAX_FILES_IN_DIR
    requires NoHoles(Entries(m, Parent(m, f))) && Entries(m, Parent(m, f))[j] == At(f)
    ensures var dc := Entries(m, Parent(m, f));
            LeavesNoHole(m, f) <==> !HasRoom(dc) || j + 1 == FirstNull(dc, 0)
  {
    var dc := Entries(m, Parent(m, f));
    OnlyEntry(m, Parent(m, f), j);
    assert j < FirstNull(dc, 0);
    ClosesWithoutHoles(dc, j);
    hide Closes, Linked;
  }

  /** No directory has a hole: `sfs_readdir` shows every child everywhere. */
  ghost predicate AllListed(m: Memory) {
    forall q: nat :: q < TABLE_SIZE ==> NoHoles(Entries(m, q))
  }

  /** What a call must meet for the listings: a remove takes out the last entry or leaves a full
      directory. */
  ghost predicate Tidy(m: Memory, op: Op)
    requires Sane(m)
  {
    op.Remove? && Find(m, op.path).At? && Live(m, Find(m, op.path).index) ==>
      LeavesNoHole(m, Find(m, op.path).index)
  }

  /** A call that keeps the tree keeps complete listings complete exactly when it is tidy. */
  lemma StepKeepsListingsIff(m: Memory, op: Op)
    requires Linked(m) && AllListed(m) && WellFormed(op.path) && SafeOp(op) && Ready(m, op)
    ensures AllListed(Step(m, op)) <==> Tidy(m, op)
  {
    hide Linked, WellFormed, SafeOp, Ready, NoHoles, LeavesNoHole, Find, Step;
    LinkedIsSane(m);
    var m' := Step(m, op);
    if op.Remove? && Find(m, op.path).At? && Live(m, Find(m, op.path).index) {
      RemoveInTree(m, op);
    } else {
      forall q: nat | q < TABLE_SIZE ensures NoHoles(Entries(m', q)) {
        StepAppends(m, op, q);
      }
    }
  }

  lemma RemoveInTree(m: Memory, op: Op)
    requires Linked(m) && AllListed(m) && WellFormed(op.path) && SafeOp(op) && op.Remove?
    requires Find(m, op.path).At? && Live(m, Find(m, op.path).index)
    ensures AllListed(Step(m, op)) <==> Tidy(m, op)
  {
    var f := Find(m, op.path).index;
    hide Linked, WellFormed, NoHoles, LeavesNoHole, Find, RemoveInode, RemoveAllowed, ShowsAll, Live;
    LinkedIsSane(m);
    LinkedIsBack(m);
    assert Step(m, op) == RemoveInode(m, op.path).0;
    hide Sane, Step, SafeOp;
    RemoveKeepsListingIff(m, op.path, f);
    forall q: nat | q < TABLE_SIZE && q != Parent(m, f) ensures Entries(Step(m, op), q) == Entries(m, q) {
      RemoveElsewhere(m, op.path, q);
    }
  }

  /** All listings are complete at the start and after every call. */
  ghost predicate AlwaysListed(m: Memory, ops: seq<Op>)
    requires Sane(m) && SafeOps(ops)
    decreases |ops|
  {
    (forall q: nat :: q < TABLE_SIZE ==> ShowsAll(m, q)) &&
    (ops != [] ==> AlwaysListed(Step(m, ops[0]), ops[1..]))
  }

  ghost predicate AllTidy(m: Memory, ops: seq<Op>)
    requires Sane(m) && SafeOps(ops)
    decreases |ops|
  {
    ops == [] || (Tidy(m, ops[0]) && AllTidy(Step(m, ops[0]), ops[1..]))
  }

  lemma AllListedIff(m: Memory)
    requires Linked(m)
    ensures AllListed(m) <==> forall q: nat :: q < TABLE_SIZE ==> ShowsAll(m, q)
  {
    hide Linked, ShowsAll, Sane;
    LinkedIsSane(m);
    forall q: nat | q < TABLE_SIZE ensures ShowsAll(m, q) <==> NoHoles(Entries(m, q)) {
      ListingIsCompleteIff(m, q);
    }
  }

  /** Over a run that keeps the tree, readdir shows every child of every directory all the time
      exactly when every remove is tidy. */
  lemma {:induction false} RunKeepsListingsIff(m: Memory, ops: seq<Op>)
    requires Linked(m) && AllListed(m) && AllReady(m, ops)
    ensures SafeOps(ops) && Sane(m) && (AlwaysListed(m, ops) <==> AllTidy(m, ops))
    decreases |ops|
  {
    hide Linked, AllListed, Step, Tidy, Ready, WellFormed, SafeOp, ShowsAll;
    LinkedIsSane(m);
    AllReadyIsSafe(m, ops);
    AllListedIff(m);
    if ops != [] {
      StepKeepsLinksIff(m, ops[0]);
      StepKeepsListingsIff(m, ops[0]);
      var m1 := Step(m, ops[0]);
      AllListedIff(m1);
      if Tidy(m, ops[0]) {
        RunKeepsListingsIff(m1, ops[1..]);
      }
    }
  }

  lemma ListingsFromFormat(n: nat, who: Caller, ops: seq<Op>)
    requires n <= TABLE_SIZE && Sane(Formatted(n, who)) && AllReady(Formatted(n, who), ops)
    ensures SafeOps(ops) && (AlwaysListed(Formatted(n, who), ops) <==> AllTidy(Formatted(n, who), ops))
  {
    FormattedIsTree(n, who);
    assert AllListed(Formatted(n, who));
    hide Formatted;
    RunKeepsListingsIff(Formatted(n, who), ops);
  }
}
