/** The bitmap and the directories count the same inodes. */
module Conservation {
  import opened Types
  import opened Paths
  import opened DirEntries
  import opened Inodes
  import opened Links
  import opened Tree
  import opened Runs

  /** Number of set entries of the inode bitmap. */
  function SetBits(m: Memory): nat {
    multiset(m.sb.ibmap)[1]
  }

  /** Number of occupied slots. */
  function CountEntries(dc: Slots): int {
    |dc| - multiset(dc)[Null]
  }

  function Share(m: Memory, q: nat): int
    requires q < TABLE_SIZE
  {
    if Live(m, q) then CountEntries(Entries(m, q)) else 0
  }

  /** Occupied slots of the live inodes below `bound`. */
  function EntriesOfLive(m: Memory, bound: nat): int
    requires bound <= TABLE_SIZE
  {
    if bound == 0 then 0 else EntriesOfLive(m, bound - 1) + Share(m, bound - 1)
  }

  /** Every inode but the root is an entry somewhere. */
  predicate Conserved(m: Memory) {
    SetBits(m) == 1 + EntriesOfLive(m, TABLE_SIZE)
  }

  lemma {:induction false} ShareChange(m: Memory, m': Memory, p: nat, bound: nat)
    requires p < TABLE_SIZE && bound <= TABLE_SIZE
    requires forall q: nat :: q < TABLE_SIZE && q != p ==> Share(m', q) == Share(m, q)
    ensures EntriesOfLive(m', bound) ==
            EntriesOfLive(m, bound) + if p < bound then Share(m', p) - Share(m, p) else 0
  {
    if bound > 0 {
      ShareChange(m, m', p, bound - 1);
    }
  }

  lemma {:induction false} EmptyCountsNothing(s: seq<Ptr>)
    requires Empty(s)
    ensures multiset(s)[Null] == |s|
  {
    if s != [] {
      EmptyCountsNothing(s[1..]);
      assert s == [s[0]] + s[1..];
    }
  }

  lemma FreeSharesNothing(m: Memory, q: nat)
    requires EntriesOk(m) && q < TABLE_SIZE && !Live(m, q)
    ensures CountEntries(Entries(m, q)) == 0
  {
    var dc := Entries(m, q);
    forall j | 0 <= j < |dc| ensures dc[j] == Null {
      assert dc[j] in dc;
      assert dc[j] != Null ==> EntryOk(m, q, dc[j].index);
    }
    EmptyCountsNothing(dc);
  }

  lemma InstallConserves(m: Memory, p: nat, i: nat, name: Name, parentDir: Name, who: Caller)
    requires EntriesOk(m) && InstallOk(m, p, i, name, parentDir) && LastSlotLast(Entries(m, p))
    ensures var m' := Install(m, p, i, name, parentDir, who);
            && SetBits(m') == SetBits(m) + 1
            && EntriesOfLive(m', TABLE_SIZE) == EntriesOfLive(m, TABLE_SIZE) + 1
  {
    hide Install, AddEntry, EntriesOk, LastSlotLast;
    InstallEffect(m, p, i, name, parentDir, who);
    AddKeeps(Entries(m, p), i);
    FreeSharesNothing(m, i);
    ShareChange(m, Install(m, p, i, name, parentDir, who), p, TABLE_SIZE);
  }

  /** A successful create adds one on both sides. */
  lemma CreateConserves(m: Memory, path: string, who: Caller)
    requires Linked(m) && WellFormed(path) && ParentReady(m, path) && Creatable(m, path)
    ensures var (m', r) := CreateInode(m, path, who);
            && (r.At? ==> SetBits(m') == SetBits(m) + 1)
            && (r.At? ==> EntriesOfLive(m', TABLE_SIZE) == EntriesOfLive(m, TABLE_SIZE) + 1)
            && (r == Null ==> m' == m)
  {
    hide Install, SetBits, EntriesOfLive;
    if CreateInode(m, path, who).1.At? {
      var p := FindParent(m, path).index;
      ReadyInstall(m, path);
      assert SaneRecord(m.inodes[p], p);
      InstallConserves(m, p, FirstFree(m, 1), BaseName(path), RelativeParentName(path).value, who);
    }
  }

  /** Inode f is freed and its entry in p becomes empty: both counts lose one. */
  lemma FreeingLosesOne(m: Memory, m': Memory, p: nat, f: nat)
    requires p < TABLE_SIZE && f < TABLE_SIZE && p != f && Live(m, p) && Live(m, f) && Empty(Entries(m, f))
    requires m'.sb.ibmap == m.sb.ibmap[f := 0]
    requires forall q: nat :: q < TABLE_SIZE && q != p ==> Entries(m', q) == Entries(m, q)
    requires At(f) in Entries(m, p)
    requires multiset(Entries(m', p)) == multiset(Entries(m, p)) - multiset{At(f)} + multiset{Null}
    ensures SetBits(m') == SetBits(m) - 1
    ensures EntriesOfLive(m', TABLE_SIZE) == EntriesOfLive(m, TABLE_SIZE) - 1
  {
    EmptyCountsNothing(Entries(m, f));
    ShareChange(m, m', p, TABLE_SIZE);
  }

  lemma DetachConserves(m: Memory, path: string, f: nat)
    requires Linked(m) && WellFormed(path) && path != "/" && Find(m, path) == At(f)
    requires Live(m, f) && Empty(Entries(m, f))
    ensures var m' := RemoveInode(m, path).0;
            && SetBits(m') == SetBits(m) - 1
            && EntriesOfLive(m', TABLE_SIZE) == EntriesOfLive(m, TABLE_SIZE) - 1
  {
    hide SetBits, EntriesOfLive, RemoveInode, Find, RemoveAt, DoubleStep, LastSlotLast;
    RemoveStrikes(m, path, f);
    RemoveEffect(m, path, f);
    ParentIsLive(m, f);
    var dc := Entries(m, Parent(m, f));
    RemoveKeeps(dc, FindEntry(m, dc, f, 0));
    FreeingLosesOne(m, RemoveInode(m, path).0, Parent(m, f), f);
  }

  /** Removing an empty live inode takes one from both sides. */
  lemma RemoveConserves(m: Memory, path: string)
    requires Linked(m) && WellFormed(path) && RemoveAllowed(m, path) && path != "/"
    ensures var m' := RemoveInode(m, path).0; var r := Find(m, path);
            if r.At? && Live(m, r.index) then
              SetBits(m') == SetBits(m) - 1 &&
              EntriesOfLive(m', TABLE_SIZE) == EntriesOfLive(m, TABLE_SIZE) - 1
            else m' == m
  {
    hide Linked, SetBits, EntriesOfLive;
    LinkedIsSane(m);
    LinkedIsBack(m);
    if Find(m, path).At? {
      if Live(m, Find(m, path).index) {
        DetachConserves(m, path, Find(m, path).index);
      } else {
        RemoveStaleIsNoOp(m, path);
      }
    }
  }

  lemma ParentIsLive(m: Memory, f: nat)
    requires ChildrenOk(m) && 0 < f < TABLE_SIZE && Live(m, f)
    ensures Live(m, Parent(m, f))
  {
    assert ChildOk(m, f);
  }

  /** Conservation over every run of ready calls. */
  lemma {:induction false} RunConserves(m: Memory, ops: seq<Op>)
    requires Linked(m) && Conserved(m) && AllReady(m, ops) && SafeOps(ops)
    ensures Conserved(Run(m, ops))
    decreases |ops|
  {
    if ops != [] {
      StepKeepsLinksIff(m, ops[0]);
      match Creation(ops[0]) {
        case Some(who) => CreateConserves(m, ops[0].path, who);
        case None => if ops[0].Remove? { RemoveConserves(m, ops[0].path); }
      }
      RunConserves(Step(m, ops[0]), ops[1..]);
    }
  }
}
