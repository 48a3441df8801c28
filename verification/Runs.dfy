/** Runs of file system calls: what every run keeps, and the simple map they implement. */
module Runs {
  import opened Types
  import opened Paths
  import opened DirEntries
  import opened Inodes
  import opened Lookup
  import opened Links
  import opened Tree

  // ---- Steps ----

  datatype Op =
    | Create(path: string, who: Caller)
    | Mkdir(path: string, who: Caller)
    | Remove(path: string)  // sfs_unlink and sfs_rmdir both just call remove_inode

  /** The two modes `sfs_mkdir` acts on. The second is the value -32348 takes when it is
      compared with the unsigned `mode_t`. */
  const DIR_MODE: int := 493
  const FILE_MODE: int := 0x1_0000_0000 - 32348

  /** The mode `sfs_mkdir` creates with; for any other mode it creates nothing. */
  function MkdirMode(mode: int): Option<int> {
    if mode == DIR_MODE then Some(S_IFDIR)
    else if mode == FILE_MODE then Some(S_IFREG)
    else None
  }

  /** The `create_inode` call a step makes, if it makes one. */
  function Creation(op: Op): Option<Caller> {
    match op
    case Create(_, who) => Some(who)
    case Mkdir(_, who) =>
      (match MkdirMode(who.mode) case Some(mode) => Some(who.(mode := mode)) case None => None)
    case Remove(_) => None
  }

  /** What C demands of the argument: names fit their buffers, and the root, which has no
      parent record, is not removed. */
  predicate SafeOp(op: Op) {
    IsCString(op.path) && |BaseName(op.path)| < NAME_SIZE && (op.Remove? ==> op.path != "/")
  }

  function Step(m: Memory, op: Op): (m': Memory)
    requires Sane(m) && SafeOp(op)
    ensures Sane(m') && m'.sb.numInodes == m.sb.numInodes
  {
    match Creation(op)
    case Some(who) => CreateKeepsSane(m, op.path, who); CreateInode(m, op.path, who).0
    case None => if op.Remove? then RemoveKeepsSane(m, op.path); RemoveInode(m, op.path).0 else m
  }

  /** What `create_inode` returned in a step. */
  function StepResult(m: Memory, op: Op): Ptr
    requires Sane(m) && SafeOp(op)
  {
    match Creation(op)
    case Some(who) => CreateInode(m, op.path, who).1
    case None => Null
  }

  /** What each call of the kernel comes down to, with the modes `sfs_mkdir` takes and makes. */
  lemma StepIs(m: Memory, path: string, who: Caller)
    requires Sane(m) && SafeOp(Create(path, who))
    ensures Creatable(m, path)
    ensures Step(m, Create(path, who)) == CreateInode(m, path, who).0
    ensures StepResult(m, Create(path, who)) == CreateInode(m, path, who).1
    ensures path != "/" ==> Step(m, Op.Remove(path)) == RemoveInode(m, path).0
    ensures path != "/" ==> StepResult(m, Op.Remove(path)) == Null
    ensures var (m', r) := CreateInode(m, path, who.(mode := 0x4000));
            who.mode == 493 ==> Step(m, Mkdir(path, who)) == m' && StepResult(m, Mkdir(path, who)) == r
    ensures var (m', r) := CreateInode(m, path, who.(mode := 0x8000));
            who.mode == 4294934948 ==> Step(m, Mkdir(path, who)) == m' && StepResult(m, Mkdir(path, who)) == r
    ensures who.mode != 493 && who.mode != 4294934948 ==>
              Step(m, Mkdir(path, who)) == m && StepResult(m, Mkdir(path, who)) == Null
  {
    hide CreateInode, RemoveInode;
  }

  predicate SafeOps(ops: seq<Op>) {
    forall i :: 0 <= i < |ops| ==> SafeOp(ops[i])
  }

  function Run(m: Memory, ops: seq<Op>): (m': Memory)
    requires Sane(m) && SafeOps(ops)
    ensures Sane(m')
    decreases |ops|
  {
    if ops == [] then m else Run(Step(m, ops[0]), ops[1..])
  }

  /** In every reachable state, whatever paths were used, the double-stepping scan of a
      directory ends exactly at its capacity and a removal takes out exactly one entry. */
  lemma RemovalIsAlwaysExact(m: Memory, ops: seq<Op>, q: nat, j: nat)
    requires Sane(m) && SafeOps(ops) && q < TABLE_SIZE && j < MAX_FILES_IN_DIR
    requires Entries(Run(m, ops), q)[j] != Null
    ensures var dc := Entries(Run(m, ops), q);
            && DoubleStep(dc, 0) == MAX_FILES_IN_DIR
            && multiset(RemoveAt(dc, j)) == multiset(dc) - multiset{dc[j]} + multiset{Null}
  {
    assert SaneRecord(Run(m, ops).inodes[q], q);
    RemoveKeeps(Entries(Run(m, ops), q), j);
  }

  lemma WellFormedIsSafe(op: Op)
    requires WellFormed(op.path)
    ensures SafeOp(op)
  {
    WellFormedParts(op.path);
  }

  predicate AllWellFormed(ops: seq<Op>) {
    forall i :: 0 <= i < |ops| ==> WellFormed(ops[i].path)
  }

  lemma StepKeepsBack(m: Memory, op: Op)
    requires AllBack(m) && WellFormed(op.path)
    ensures SafeOp(op) && AllBack(Step(m, op))
  {
    WellFormedIsSafe(op);
    match Creation(op)
    case Some(who) => CreateKeepsBack(m, op.path, who);
    case None => if op.Remove? { RemoveKeepsBack(m, op.path); }
  }

  /** Over every run, without any guard, directories list live inodes only, each at most once,
      and each of these points back. */
  lemma {:induction false} RunKeepsBack(m: Memory, ops: seq<Op>)
    requires AllBack(m) && AllWellFormed(ops)
    ensures Sane(m) && SafeOps(ops) && AllBack(Run(m, ops))
    decreases |ops|
  {
    hide Step, WellFormed, SafeOp, BackLinks, NoDoubleEntries, BitmapOk, Sane;
    if ops != [] {
      StepKeepsBack(m, ops[0]);
      RunKeepsBack(Step(m, ops[0]), ops[1..]);
      assert ops == [ops[0]] + ops[1..];
    }
  }

  // ---- Guarded runs keep the tree ----

  ghost predicate Ready(m: Memory, op: Op)
    requires Sane(m) && WellFormed(op.path)
  {
    (Creation(op).Some? ==> ParentReady(m, op.path)) &&
    (op.Remove? ==> RemoveAllowed(m, op.path))
  }

  ghost predicate AllReady(m: Memory, ops: seq<Op>)
    requires Sane(m)
    decreases |ops|
  {
    ops == [] ||
    (SafeOp(ops[0]) && WellFormed(ops[0].path) && Ready(m, ops[0]) &&
     AllReady(Step(m, ops[0]), ops[1..]))
  }

  lemma {:induction false} AllReadyIsSafe(m: Memory, ops: seq<Op>)
    requires Sane(m) && AllReady(m, ops)
    ensures SafeOps(ops)
    decreases |ops|
  {
    if ops != [] {
      AllReadyIsSafe(Step(m, ops[0]), ops[1..]);
      assert ops == [ops[0]] + ops[1..];
    }
  }

  /** One step on a well-formed path keeps the tree exactly when it is ready: parent live with
      room, or removed directory empty. Equal names may occur anywhere. */
  lemma StepKeepsLinksIff(m: Memory, op: Op)
    requires Linked(m) && WellFormed(op.path)
    ensures SafeOp(op) && (Linked(Step(m, op)) <==> Ready(m, op))
  {
    WellFormedIsSafe(op);
    match Creation(op)
    case Some(who) => CreateKeepsLinksIff(m, op.path, who);
    case None => if op.Remove? { RemoveKeepsLinksIff(m, op.path); }
  }

  lemma {:induction false} RunKeepsLinks(m: Memory, ops: seq<Op>)
    requires Linked(m) && AllReady(m, ops)
    ensures SafeOps(ops) && Linked(Run(m, ops))
    decreases |ops|
  {
    AllReadyIsSafe(m, ops);
    if ops != [] {
      StepKeepsLinksIff(m, ops[0]);
      RunKeepsLinks(Step(m, ops[0]), ops[1..]);
    }
  }

  // ---- The tree together with lookup ----

  ghost predicate Allowed(m: Memory, op: Op)
    requires Sane(m) && WellFormed(op.path)
  {
    Ready(m, op) && (Creation(op).Some? ==> FreshKey(m, op.path))
  }

  ghost predicate AllAllowed(m: Memory, ops: seq<Op>)
    requires Sane(m)
    decreases |ops|
  {
    ops == [] ||
    (SafeOp(ops[0]) && WellFormed(ops[0].path) && Allowed(m, ops[0]) &&
     AllAllowed(Step(m, ops[0]), ops[1..]))
  }

  lemma StepKeepsTreeIff(m: Memory, op: Op)
    requires TreeInv(m) && WellFormed(op.path)
    ensures SafeOp(op) && (TreeInv(Step(m, op)) <==> Allowed(m, op))
  {
    StepKeepsLinksIff(m, op);
    StepKeepsLookupIff(m, op);
    hide Linked, LookupInv, Step, Ready, FreshKey;
  }

  /** The runs that keep tree and lookup are those that keep the tree and repeat no live pair. */
  lemma {:induction false} AllAllowedIff(m: Memory, ops: seq<Op>)
    requires Sane(m)
    ensures AllAllowed(m, ops) <==> AllReady(m, ops) && FreshCreates(m, ops)
    decreases |ops|
  {
    if ops != [] && SafeOp(ops[0]) {
      AllAllowedIff(Step(m, ops[0]), ops[1..]);
    }
  }

  lemma RunKeepsTree(m: Memory, ops: seq<Op>)
    requires TreeInv(m) && AllAllowed(m, ops)
    ensures SafeOps(ops) && TreeInv(Run(m, ops))
  {
    AllAllowedIff(m, ops);
    RunKeepsLinks(m, ops);
    RunIsMap(m, ops);
  }

  // ---- The map that runs implement ----

  /** What the file system means: the inode of every live (name, parent name) pair. */
  ghost function LiveMap(m: Memory): map<Key, nat>
    requires KeysUnique(m)
  {
    map k: nat | 0 < k < TABLE_SIZE && Live(m, k) :: KeyAt(m, k) := k
  }

  function LeastUnused(used: set<nat>, n: int, i: nat): nat
    decreases n - i
  {
    if i < n && i in used then LeastUnused(used, n, i + 1) else i
  }

  lemma LiveMapHas(m: Memory, key: Key)
    requires KeysUnique(m)
    ensures key in LiveMap(m) <==> LiveKey(m, key)
    ensures key in LiveMap(m) ==>
              var k := LiveMap(m)[key]; 0 < k < TABLE_SIZE && Live(m, k) && KeyAt(m, k) == key
  {}

  lemma LiveMapAt(m: Memory, k: nat)
    requires KeysUnique(m) && 0 < k < TABLE_SIZE && Live(m, k)
    ensures KeyAt(m, k) in LiveMap(m) && LiveMap(m)[KeyAt(m, k)] == k
  {}

  /** Lookup answers from the map: the bound inode, or nothing live. */
  lemma FindRefinesMap(m: Memory, path: string)
    requires LookupInv(m) && WellFormed(path)
    ensures var a, r := LiveMap(m), Find(m, path);
            && (KeyOf(path) in a ==> r == At(a[KeyOf(path)]))
            && (KeyOf(path) !in a ==> r == Null || !Live(m, r.index))
  {
    LiveMapHas(m, KeyOf(path));
    if KeyOf(path) in LiveMap(m) {
      FindReturnsLive(m, path, LiveMap(m)[KeyOf(path)]);
    } else {
      FindMissesWithoutLive(m, path);
    }
  }

  lemma {:induction false} LeastUnusedIsFirstFree(m: Memory, i: nat)
    requires KeysUnique(m) && 0 < i && m.sb.numInodes <= TABLE_SIZE
    ensures var n := m.sb.numInodes; var u := LeastUnused(LiveMap(m).Values, n, i);
            u == FirstFree(m, i)
    decreases m.sb.numInodes - i
  {
    if i < m.sb.numInodes {
      if Live(m, i) {
        assert LiveMap(m)[KeyAt(m, i)] == i;
        LeastUnusedIsFirstFree(m, i + 1);
      }
    }
  }

  /** Creating a fresh pair binds it to the least unused number; it goes through exactly when
      there is one and a record answers to the parent path. */
  lemma CreateBinds(m: Memory, path: string, who: Caller)
    requires LookupInv(m) && WellFormed(path) && FreshKey(m, path)
    ensures Creatable(m, path) && LookupInv(CreateInode(m, path, who).0)
    ensures var (m', r) := CreateInode(m, path, who);
            var i := LeastUnused(LiveMap(m).Values, m.sb.numInodes, 1);
            && r == (if i < m.sb.numInodes && FindParent(m, path).At? then At(i) else Null)
            && LiveMap(m') == if r.At? then LiveMap(m)[KeyOf(path) := i] else LiveMap(m)
  {
    CreateKeepsLookupIff(m, path, who);
    WellFormedParts(path);
    LeastUnusedIsFirstFree(m, 1);
    hide Install, LookupInv, LiveMap;
    if CreateInode(m, path, who).1.At? {
      var i := FirstFree(m, 1);
      InstallNames(m, FindParent(m, path).index, i, BaseName(path), RelativeParentName(path).value, who);
      LookupKeys(m);
      LookupKeys(CreateInode(m, path, who).0);
      TakingBinds(m, CreateInode(m, path, who).0, i);
    }
  }

  lemma LookupKeys(m: Memory)
    requires LookupInv(m)
    ensures Sane(m) && KeysUnique(m)
  {}

  /** Inode i becomes live and nothing else changes: the map gains one binding. */
  lemma TakingBinds(m: Memory, m': Memory, i: nat)
    requires KeysUnique(m) && KeysUnique(m') && 0 < i < TABLE_SIZE && !Live(m, i)
    requires forall k :: Live(m', k) <==> Live(m, k) || k == i
    requires forall k: nat :: k < TABLE_SIZE && k != i ==> KeyAt(m', k) == KeyAt(m, k)
    ensures LiveMap(m') == LiveMap(m)[KeyAt(m', i) := i]
  {
    hide LiveMap, KeysUnique;
    var b := LiveMap(m)[KeyAt(m', i) := i];
    LiveMapAt(m', i);
    forall key: Key ensures BoundAlike(LiveMap(m'), b, key) {
      SameBinding(m, m', key);
      SameBinding(m', m, key);
    }
    SameMap(LiveMap(m'), b);
  }

  /** Live inode f becomes free and nothing else changes: the map loses one binding. */
  lemma FreeingUnbinds(m: Memory, m': Memory, f: nat)
    requires KeysUnique(m) && KeysUnique(m') && 0 < f < TABLE_SIZE && Live(m, f)
    requires forall k :: Live(m', k) <==> Live(m, k) && k != f
    requires forall k: nat :: k < TABLE_SIZE ==> KeyAt(m', k) == KeyAt(m, k)
    ensures LiveMap(m') == LiveMap(m) - {KeyAt(m, f)}
  {
    hide LiveMap, KeysUnique;
    var b := LiveMap(m) - {KeyAt(m, f)};
    LiveMapAt(m, f);
    forall key: Key ensures BoundAlike(LiveMap(m'), b, key) {
      SameBinding(m, m', key);
      SameBinding(m', m, key);
      LiveMapHas(m', key);
    }
    SameMap(LiveMap(m'), b);
  }

  /** Nothing changes its liveness or name: the map stays. */
  lemma NothingUnbinds(m: Memory, m': Memory)
    requires KeysUnique(m) && KeysUnique(m')
    requires forall k: nat :: k < TABLE_SIZE ==> Live(m', k) == Live(m, k) && KeyAt(m', k) == KeyAt(m, k)
    ensures LiveMap(m') == LiveMap(m)
  {
    hide LiveMap, KeysUnique;
    forall key: Key ensures BoundAlike(LiveMap(m'), LiveMap(m), key) {
      SameBinding(m, m', key);
      SameBinding(m', m, key);
    }
    SameMap(LiveMap(m'), LiveMap(m));
  }

  ghost predicate BoundAlike(a: map<Key, nat>, b: map<Key, nat>, key: Key) {
    (key in a <==> key in b) && (key in a ==> a[key] == b[key])
  }

  lemma SameMap(a: map<Key, nat>, b: map<Key, nat>)
    requires forall key :: BoundAlike(a, b, key)
    ensures a == b
  {
    forall key: Key ensures key in a <==> key in b {
      assert BoundAlike(a, b, key);
    }
    forall key | key in a ensures a[key] == b[key] {
      assert BoundAlike(a, b, key);
    }
  }

  /** A binding whose inode is live with the same pair in another memory is a binding there. */
  lemma SameBinding(m: Memory, m': Memory, key: Key)
    requires KeysUnique(m) && KeysUnique(m')
    ensures key in LiveMap(m) ==>
              var k := LiveMap(m)[key];
              0 < k < TABLE_SIZE && Live(m, k) && KeyAt(m, k) == key &&
              (Live(m', k) && KeyAt(m', k) == key ==> key in LiveMap(m') && LiveMap(m')[key] == k)
  {
    hide LiveMap;
    LiveMapHas(m, key);
    if key in LiveMap(m) {
      var k := LiveMap(m)[key];
      if Live(m', k) && KeyAt(m', k) == key {
        LiveMapAt(m', k);
      }
    }
  }

  /** Removing unbinds exactly the path's pair, whatever the file or directory contains. */
  lemma RemoveUnbinds(m: Memory, path: string)
    requires LookupInv(m) && WellFormed(path)
    ensures path != "/" && LookupInv(RemoveInode(m, path).0)
    ensures LiveMap(RemoveInode(m, path).0) == LiveMap(m) - {KeyOf(path)}
  {
    RemoveKeepsLookup(m, path);
    LookupKeys(m);
    LookupKeys(RemoveInode(m, path).0);
    hide LookupInv, Sane, KeysUnique, LiveMap, RemoveInode, Find;
    FindRefinesMap(m, path);
    FindNoneIsUnbound(m, path);
    if Find(m, path).At? {
      RemoveNames(m, path);
      var f, m' := Find(m, path).index, RemoveInode(m, path).0;
      if Live(m, f) {
        FoundKey(m, path);
        FreeingUnbinds(m, m', f);
      } else {
        NothingUnbinds(m, m');
        Unmapped(LiveMap(m), KeyOf(path));
      }
    } else {
      Unmapped(LiveMap(m), KeyOf(path));
    }
  }

  lemma FoundKey(m: Memory, path: string)
    requires m.sb.numInodes <= TABLE_SIZE && WellFormed(path) && Find(m, path).At?
    ensures KeyAt(m, Find(m, path).index) == KeyOf(path)
  {
    WellFormedParts(path);
    MatchesIsKey(m, path, Find(m, path).index);
  }

  lemma FindNoneIsUnbound(m: Memory, path: string)
    requires LookupInv(m) && WellFormed(path)
    ensures Find(m, path) == Null ==> path != "/" && RemoveInode(m, path).0 == m
  {
    WellFormedParts(path);
  }

  lemma Unmapped(a: map<Key, nat>, key: Key)
    requires key !in a
    ensures a - {key} == a
  {}

  // ---- Runs whose creates repeat no live pair ----

  /** The one guard of these runs; removes are free. */
  ghost predicate FreshCreates(m: Memory, ops: seq<Op>)
    requires Sane(m)
    decreases |ops|
  {
    ops == [] ||
    (SafeOp(ops[0]) && WellFormed(ops[0].path) &&
     (Creation(ops[0]).Some? ==> FreshKey(m, ops[0].path)) &&
     FreshCreates(Step(m, ops[0]), ops[1..]))
  }

  /** What a step does to the map of n inodes, given only whether a create went through: the
      map itself gives the number. */
  function Bind(a: map<Key, nat>, n: int, op: Op, ok: bool): map<Key, nat>
    requires WellFormed(op.path)
  {
    if op.Remove? then a - {KeyOf(op.path)}
    else if ok then a[KeyOf(op.path) := LeastUnused(a.Values, n, 1)]
    else a
  }

  /** Which steps made an inode. */
  function Oks(m: Memory, ops: seq<Op>): (oks: seq<bool>)
    requires Sane(m) && SafeOps(ops)
    ensures |oks| == |ops|
    decreases |ops|
  {
    if ops == [] then [] else [StepResult(m, ops[0]).At?] + Oks(Step(m, ops[0]), ops[1..])
  }

  function BindAll(a: map<Key, nat>, n: int, ops: seq<Op>, oks: seq<bool>): map<Key, nat>
    requires AllWellFormed(ops) && |oks| == |ops|
    decreases |ops|
  {
    if ops == [] then a else BindAll(Bind(a, n, ops[0], oks[0]), n, ops[1..], oks[1..])
  }

  /** One step on a well-formed path keeps lookup right exactly when it does not create a
      second live inode of a pair. */
  lemma StepKeepsLookupIff(m: Memory, op: Op)
    requires LookupInv(m) && WellFormed(op.path)
    ensures SafeOp(op)
    ensures LookupInv(Step(m, op)) <==> (Creation(op).Some? ==> FreshKey(m, op.path))
  {
    WellFormedIsSafe(op);
    match Creation(op)
    case Some(who) => CreateKeepsLookupIff(m, op.path, who);
    case None => if op.Remove? { RemoveKeepsLookup(m, op.path); }
  }

  lemma StepBinds(m: Memory, op: Op)
    requires LookupInv(m) && WellFormed(op.path) && SafeOp(op)
    requires Creation(op).Some? ==> FreshKey(m, op.path)
    ensures LookupInv(Step(m, op))
    ensures LiveMap(Step(m, op)) == Bind(LiveMap(m), m.sb.numInodes, op, StepResult(m, op).At?)
    ensures StepResult(m, op).At? ==> StepResult(m, op) == At(LeastUnused(LiveMap(m).Values, m.sb.numInodes, 1))
  {
    StepKeepsLookupIff(m, op);
    hide CreateInode, RemoveInode, LiveMap, FreshKey;
    match Creation(op)
    case Some(who) => CreateBinds(m, op.path, who);
    case None => if op.Remove? { RemoveUnbinds(m, op.path); }
  }

  /** Over every run whose creates repeat no live pair, with stale parents, full directories
      and removed directories of any content, the table and its stale records behave as a
      plain map from pairs to numbers, in which every create that goes through takes the least
      unused number. */
  lemma {:induction false} RunIsMap(m: Memory, ops: seq<Op>)
    requires LookupInv(m) && FreshCreates(m, ops)
    ensures SafeOps(ops) && AllWellFormed(ops) && LookupInv(Run(m, ops))
    ensures LiveMap(Run(m, ops)) == BindAll(LiveMap(m), m.sb.numInodes, ops, Oks(m, ops))
    decreases |ops|
  {
    hide LookupInv, Sane, Step, StepResult, Bind, LiveMap, KeysUnique, FreshKey, SafeOp, WellFormed;
    LookupKeys(m);
    if ops != [] {
      StepBinds(m, ops[0]);
      RunIsMap(Step(m, ops[0]), ops[1..]);
      assert ops == [ops[0]] + ops[1..];
      assert Oks(m, ops)[1..] == Oks(Step(m, ops[0]), ops[1..]);
    }
  }

  /** Lookup at the end of such a run: the number the pair was last bound to, or nothing live. */
  lemma RunThenFind(m: Memory, ops: seq<Op>, path: string)
    requires LookupInv(m) && FreshCreates(m, ops) && WellFormed(path)
    ensures SafeOps(ops) && AllWellFormed(ops)
    ensures var a := BindAll(LiveMap(m), m.sb.numInodes, ops, Oks(m, ops));
            var r := Find(Run(m, ops), path);
            if KeyOf(path) in a then r == At(a[KeyOf(path)]) else r == Null || !Live(Run(m, ops), r.index)
  {
    hide LookupInv, Sane, LiveMap, Run, BindAll, Oks, FreshCreates, KeysUnique, Find;
    LookupKeys(m);
    RunIsMap(m, ops);
    FindRefinesMap(Run(m, ops), path);
  }

  // ---- What mkdir makes ----

  /** A directory made with mode 0755, for a fresh pair while a number and a parent are to be
      had, is live, found by its path, and its record says it is a directory. */
  lemma MkdirMakesDirectory(m: Memory, path: string, who: Caller)
    requires Sane(m) && WellFormed(path) && !LiveKey(m, KeyOf(path)) && who.mode == 493
    requires FirstFree(m, 1) < m.sb.numInodes && FindParent(m, path).At?
    ensures SafeOp(Mkdir(path, who)) && FirstFree(m, 1) < TABLE_SIZE
    ensures var m', i := Step(m, Mkdir(path, who)), FirstFree(m, 1);
            && StepResult(m, Mkdir(path, who)) == At(i)
            && Live(m', i) && Find(m', path) == At(i) && m'.inodes[i].mode == 0x4000
            && m'.inodes[i].parentInumber == FindParent(m, path).index
  {
    WellFormedIsSafe(Mkdir(path, who));
    var whoDir := who.(mode := 0x4000);
    StepIs(m, path, who);
    CreateOutcome(m, path, whoDir);
    CreatedIsFound(m, path, whoDir);
    hide CreateInode, Step, StepResult, Find, FindParent;
    ShortIs(CreateInode(m, path, whoDir).0.inodes[FirstFree(m, 1)].mode, 0x4000);
  }

  lemma ShortIs(x: short, y: short)
    requires (x - y) % 0x10000 == 0
    ensures x == y
  {}

  // ---- On trees the map alone decides ----

  /** Creating binds the pair to the least unused number, if there is one and the parent is
      the root or bound itself. */
  function SpecCreate(a: map<Key, nat>, n: int, path: string): map<Key, nat>
    requires WellFormed(path)
  {
    var i := LeastUnused(a.Values, n, 1);
    if i < n && (ParentPath(path) == "" || KeyOf(ParentPath(path)) in a) then a[KeyOf(path) := i]
    else a
  }

  function SpecStep(a: map<Key, nat>, n: int, op: Op): map<Key, nat>
    requires WellFormed(op.path)
  {
    if Creation(op).Some? then SpecCreate(a, n, op.path)
    else if op.Remove? then a - {KeyOf(op.path)}
    else a
  }

  function SpecRun(a: map<Key, nat>, n: int, ops: seq<Op>): map<Key, nat>
    requires AllWellFormed(ops)
    decreases |ops|
  {
    if ops == [] then a else SpecRun(SpecStep(a, n, ops[0]), n, ops[1..])
  }

  lemma CreateRefinesMap(m: Memory, path: string, who: Caller)
    requires TreeInv(m) && WellFormed(path) && CreateAllowed(m, path)
    ensures Creatable(m, path) && LookupInv(CreateInode(m, path, who).0)
    ensures LiveMap(CreateInode(m, path, who).0) == SpecCreate(LiveMap(m), m.sb.numInodes, path)
  {
    CreateBinds(m, path, who);
    LeastUnusedIsFirstFree(m, 1);
    WellFormedParts(path);
    hide LookupInv, LiveMap, CreateInode;
    if ParentPath(path) != "" {
      FindRefinesMap(m, ParentPath(path));
    }
  }

  lemma StepRefinesMap(m: Memory, op: Op)
    requires TreeInv(m) && WellFormed(op.path) && SafeOp(op) && Allowed(m, op)
    ensures TreeInv(Step(m, op)) && LiveMap(Step(m, op)) == SpecStep(LiveMap(m), m.sb.numInodes, op)
  {
    StepKeepsTreeIff(m, op);
    hide Sane, Linked, LiveBeforeStale, CreateInode, RemoveInode, LiveMap, SpecCreate, RemoveAllowed;
    match Creation(op)
    case Some(who) => CreateRefinesMap(m, op.path, who);
    case None => if op.Remove? { RemoveUnbinds(m, op.path); }
  }

  /** Over every run that keeps the tree the map also decides which creates go through. */
  lemma {:induction false} RunRefinesMap(m: Memory, ops: seq<Op>)
    requires TreeInv(m) && AllAllowed(m, ops)
    ensures SafeOps(ops) && AllWellFormed(ops) && TreeInv(Run(m, ops))
    ensures LiveMap(Run(m, ops)) == SpecRun(LiveMap(m), m.sb.numInodes, ops)
    decreases |ops|
  {
    hide TreeInv, Sane, Step, SpecStep, LiveMap, KeysUnique, Allowed, SafeOp, WellFormed;
    RunKeepsTree(m, ops);
    TreeFacts(m);
    if ops != [] {
      StepRefinesMap(m, ops[0]);
      RunRefinesMap(Step(m, ops[0]), ops[1..]);
      assert ops == [ops[0]] + ops[1..];
    }
  }

  lemma TreeFacts(m: Memory)
    requires TreeInv(m)
    ensures Sane(m) && KeysUnique(m)
  {}
}
