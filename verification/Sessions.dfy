/** Whole lifetimes of a file system: any number of sessions of calls, each ending in an unmount
    or a crash, and the next mount. */
module Sessions {
  import opened Types
  import opened Paths
  import opened DirEntries
  import opened Inodes
  import opened Lookup
  import opened Links
  import opened Tree
  import opened Runs
  import opened Boot
  import opened Format
  import opened Codec
  import opened Persistence
  import opened Remount

  // ---- Sessions ----

  /** A session: the calls made while mounted, the flush of `sfs_destroy` (none if the process
      just ends), and what the next mount's buffer held. */
  datatype Session = Session(calls: seq<Call>, unmount: Option<seq<byte>>, stack: seq<byte>)

  predicate SafeSession(sb: Superblock, x: Session) {
    SafeCalls(x.calls) && AllCover(sb, x.calls) && |x.stack| == SUPERBLOCK_SIZE &&
    (x.unmount.Some? ==> Covers(sb, x.unmount.value))
  }

  predicate SafeSessions(sb: Superblock, xs: seq<Session>) {
    forall j :: 0 <= j < |xs| ==> SafeSession(sb, xs[j])
  }

  function Blank(): (bytes: seq<byte>)
    ensures |bytes| == FCB_SIZE
  {
    seq(FCB_SIZE, _ => 0)
  }

  /** The image is faithful and the slot that is never written is blank. */
  ghost predicate Steady(s: State) {
    Faithful(s) && LastSlotIs(s, Blank())
  }

  lemma RunIsSteady(s: State, calls: seq<Call>)
    requires Steady(s) && SafeCalls(calls) && AllCover(s.mem.sb, calls)
    ensures Sane(s.mem) && Steady(CallRun(s, calls))
    ensures SafeOps(Ops(calls)) && CallRun(s, calls).mem == Run(s.mem, Ops(calls))
    ensures var sb := CallRun(s, calls).mem.sb; sb == s.mem.sb.(ibmap := sb.ibmap)
  {
    hide Faithful, LastSlotIs, CallRun, Run;
    SaneState(s);
    RunKeepsFaithful(s, calls);
    RunKeepsLastSlot(s, calls, Blank());
    RunKeepsSuper(s.mem, Ops(calls));
  }

  lemma {:induction false} RunKeepsSuper(m: Memory, ops: seq<Op>)
    requires Sane(m) && SafeOps(ops)
    ensures var sb := Run(m, ops).sb; sb == m.sb.(ibmap := sb.ibmap)
    decreases |ops|
  {
    if ops != [] {
      StepKeepsGeometry(m, ops[0]);
      hide Step, Sane, SafeOp;
      RunKeepsSuper(Step(m, ops[0]), ops[1..]);
    }
  }

  /** `sfs_destroy` flushes once more. */
  function Unmounted(s: State, unmount: Option<seq<byte>>): State
    requires s.mem.sb.numInodes <= TABLE_SIZE
    requires unmount.Some? ==> Covers(s.mem.sb, unmount.value)
  {
    match unmount
    case None => s
    case Some(beyond) => State(s.mem, Flush(s.image, s.mem, beyond))
  }

  /** The flush at the unmount brings any image up to the memory, whatever the image held. */
  lemma UnmountPersists(s: State, beyond: seq<byte>)
    requires s.mem.sb.numInodes <= TABLE_SIZE && Geometry(s.mem.sb) && Covers(s.mem.sb, beyond)
    ensures var s' := Unmounted(s, Some(beyond));
            s'.mem == s.mem && Persisted(s'.image, s.mem) && s'.image == Flush(s.image, s.mem, beyond)
    ensures Unmounted(s, None) == s
  {
    hide Flush, Persisted, Geometry, Covers;
    FlushPersists(s.image, s.mem, beyond);
  }

  lemma UnmountIsSteady(s: State, unmount: Option<seq<byte>>)
    requires Steady(s) && (unmount.Some? ==> Covers(s.mem.sb, unmount.value))
    ensures s.mem.sb.numInodes <= TABLE_SIZE && Steady(Unmounted(s, unmount)) && Unmounted(s, unmount).mem == s.mem
  {
    hide Flush, Persisted, NoData, SlotOffset;
    if unmount.Some? {
      PersistedGeometry(s.image, s.mem);
      FlushPersists(s.image, s.mem, unmount.value);
      FlushSkipsLast(s.image, s.mem, unmount.value, Blank());
    }
  }

  lemma PersistedGeometry(image: seq<byte>, m: Memory)
    requires Persisted(image, m)
    ensures Geometry(m.sb)
  {}

  /** The state when the session has ended. */
  function SessionEnd(s: State, x: Session): (s': State)
    requires Steady(s) && SafeSession(s.mem.sb, x)
    ensures Steady(s') && s'.mem.sb == s.mem.sb.(ibmap := s'.mem.sb.ibmap)
    ensures Sane(s.mem) && SafeOps(Ops(x.calls)) && s'.mem == Run(s.mem, Ops(x.calls))
  {
    RunIsSteady(s, x.calls);
    UnmountIsSteady(CallRun(s, x.calls), x.unmount);
    Unmounted(CallRun(s, x.calls), x.unmount)
  }

  /** Mounting a steady image gives a steady state. */
  lemma MountIsSteady(s: State, stack: seq<byte>)
    requires Steady(s) && |stack| == SUPERBLOCK_SIZE
    ensures Mountable(s.image, stack)
    ensures var s' := State(Mounted(s.image, stack), s.image); Steady(s') && s'.mem.sb == s.mem.sb
  {
    hide Mounted, Mountable, Persisted, NoData, Holds, SlotOffset, Geometry;
    MountWithBlankLast(s, stack);
    var m := Mounted(s.image, stack);
    BlankingKeepsSane(s.mem, m);
    BlankingKeepsImage(s.image, s.mem, m);
  }

  lemma BlankingKeepsSane(m: Memory, m': Memory)
    requires Sane(m) && NoData(m) && m'.sb == m.sb && m.sb.numInodes >= 2
    requires forall k :: 0 <= k < TABLE_SIZE ==>
               m'.inodes[k] == if k < m.sb.numInodes - 1 then m.inodes[k] else ZeroFcb()
    ensures Sane(m') && NoData(m')
  {
    forall k | 0 <= k < TABLE_SIZE ensures SaneRecord(m'.inodes[k], k) && m'.inodes[k].fileSize == 0 {
      assert SaneRecord(m.inodes[k], k) && m.inodes[k].fileSize == 0;
    }
  }

  lemma BlankingKeepsImage(image: seq<byte>, m: Memory, m': Memory)
    requires Persisted(image, m) && m'.sb == m.sb
    requires forall k :: 0 <= k < TABLE_SIZE && k < m.sb.numInodes - 1 ==> m'.inodes[k] == m.inodes[k]
    ensures Persisted(image, m')
  {
    hide SlotOffset, FcbBytes, SuperblockBytes, Holds;
  }

  /** The state after a session and the next mount. */
  function AfterSession(s: State, x: Session): (s': State)
    requires Steady(s) && SafeSession(s.mem.sb, x)
    ensures Steady(s') && s'.mem.sb == s.mem.sb.(ibmap := s'.mem.sb.ibmap)
  {
    var end := SessionEnd(s, x);
    MountIsSteady(end, x.stack);
    State(Mounted(end.image, x.stack), end.image)
  }

  lemma SafeTail(sb: Superblock, sb': Superblock, xs: seq<Session>)
    requires xs != [] && SafeSessions(sb, xs) && sb' == sb.(ibmap := sb'.ibmap)
    ensures SafeSessions(sb', xs[1..])
  {
    hide SafeCalls;
    forall j | 0 <= j < |xs[1..]| ensures SafeSession(sb', xs[1..][j]) {
      assert SafeSession(sb, xs[j + 1]);
    }
  }

  function AfterSessions(s: State, xs: seq<Session>): (s': State)
    requires Steady(s) && SafeSessions(s.mem.sb, xs)
    ensures Steady(s') && s'.mem.sb == s.mem.sb.(ibmap := s'.mem.sb.ibmap)
    decreases |xs|
  {
    if xs == [] then s
    else
      SafeTail(s.mem.sb, AfterSession(s, xs[0]).mem.sb, xs);
      AfterSessions(AfterSession(s, xs[0]), xs[1..])
  }

  lemma FormattedIsSteady(image: seq<byte>, n: nat, who: Caller)
    requires 2 <= n <= TABLE_SIZE && LastSlotIs(State(Formatted(n, who), image), Blank())
    ensures Steady(FormattedState(image, n, who)) && FormattedState(image, n, who).mem.sb == Formatted(n, who).sb
  {
    hide Faithful, LastSlotIs, Formatted, FormatImage;
    FormattedIsFaithful(image, n, who);
    FormattedLastSlot(image, n, who, Blank());
  }

  /** The calls of the session keep the tree, and the last inode is free at its end. */
  ghost predicate TreeSession(s: State, x: Session)
    requires Steady(s) && SafeSession(s.mem.sb, x)
  {
    Sane(s.mem) && AllReady(s.mem, Ops(x.calls)) && !Live(SessionEnd(s, x).mem, s.mem.sb.numInodes - 1)
  }

  ghost predicate TreeSessions(s: State, xs: seq<Session>)
    requires Steady(s) && SafeSessions(s.mem.sb, xs)
    decreases |xs|
  {
    xs == [] ||
    (SafeSession(s.mem.sb, xs[0]) && TreeSession(s, xs[0]) &&
     SafeSessions(AfterSession(s, xs[0]).mem.sb, xs[1..]) &&
     TreeSessions(AfterSession(s, xs[0]), xs[1..]))
  }

  lemma SessionSurvivesIff(s: State, x: Session)
    requires Steady(s) && SafeSession(s.mem.sb, x) && Linked(s.mem)
    requires Sane(s.mem) && AllReady(s.mem, Ops(x.calls))
    ensures Linked(AfterSession(s, x).mem) <==> !Live(SessionEnd(s, x).mem, s.mem.sb.numInodes - 1)
  {
    hide Linked, Faithful, LastSlotIs, Mounted, Mountable, SessionEnd, Run, AllReady;
    RunKeepsLinks(s.mem, Ops(x.calls));
    RemountKeepsTreeIff(SessionEnd(s, x), x.stack);
  }

  lemma {:induction false} SessionsKeepTree(s: State, xs: seq<Session>)
    requires Steady(s) && SafeSessions(s.mem.sb, xs) && Linked(s.mem) && TreeSessions(s, xs)
    ensures Linked(AfterSessions(s, xs).mem)
    decreases |xs|
  {
    hide *;
    if xs == [] {
      NoMoreSessions(s);
    } else {
      NextTreeSession(s, xs);
      TreeSessionSurvives(s, xs[0]);
      SessionsKeepTree(AfterSession(s, xs[0]), xs[1..]);
    }
  }

  lemma TreeSessionSurvives(s: State, x: Session)
    requires Steady(s) && SafeSession(s.mem.sb, x) && Linked(s.mem) && TreeSession(s, x)
    ensures Linked(AfterSession(s, x).mem)
  {
    hide Linked, Steady, AfterSession, SessionEnd, SafeSession, AllReady, Live, Sane;
    SessionSurvivesIff(s, x);
  }

  lemma NoMoreSessions(s: State)
    requires Steady(s) && SafeSessions(s.mem.sb, [])
    ensures AfterSessions(s, []) == s
  {}

  lemma NextTreeSession(s: State, xs: seq<Session>)
    requires Steady(s) && SafeSessions(s.mem.sb, xs) && TreeSessions(s, xs) && xs != []
    ensures SafeSession(s.mem.sb, xs[0]) && TreeSession(s, xs[0])
    ensures var s1 := AfterSession(s, xs[0]);
            && SafeSessions(s1.mem.sb, xs[1..]) && TreeSessions(s1, xs[1..])
            && AfterSessions(s, xs) == AfterSessions(s1, xs[1..])
  {
    hide Steady, AfterSession, SafeSession, TreeSession, SafeSessions, AfterSessions;
    NextSession(s, xs);
  }

  lemma NextSession(s: State, xs: seq<Session>)
    requires Steady(s) && SafeSessions(s.mem.sb, xs) && xs != []
    ensures SafeSession(s.mem.sb, xs[0])
    ensures var s1 := AfterSession(s, xs[0]);
            SafeSessions(s1.mem.sb, xs[1..]) && AfterSessions(s, xs) == AfterSessions(s1, xs[1..])
  {
    FirstSession(s.mem.sb, xs);
    hide Steady, AfterSession, SafeSession;
    SafeTail(s.mem.sb, AfterSession(s, xs[0]).mem.sb, xs);
  }

  /** Over any number of sessions from the format of an image with a blank last slot, with any
      calls on any paths in each, the next mount finds the superblock (up to the data bit of
      the last inode) and all records but the last inode's. */
  lemma SessionsComeBack(image: seq<byte>, n: nat, who: Caller, xs: seq<Session>, x: Session)
    requires 2 <= n <= TABLE_SIZE && LastSlotIs(State(Formatted(n, who), image), Blank())
    requires SafeSessions(Formatted(n, who).sb, xs) && SafeSession(Formatted(n, who).sb, x)
    ensures var s0 := FormattedState(image, n, who);
            && Steady(s0) && s0.mem.sb == Formatted(n, who).sb
            && var s := AfterSessions(s0, xs);
               && SafeSession(s.mem.sb, x) && ComesBack(SessionEnd(s, x), x.stack)
  {
    hide Formatted, FormattedState, LastSlotIs, Faithful, ComesBack, SessionEnd, SafeCalls;
    FormattedIsSteady(image, n, who);
    var s := AfterSessions(FormattedState(image, n, who), xs);
    SafeSessionOf(Formatted(n, who).sb, s.mem.sb, x);
    SteadyCount(SessionEnd(s, x));
    FaithfulRemount(SessionEnd(s, x), x.stack);
  }

  lemma SteadyCount(s: State)
    requires Steady(s)
    ensures s.mem.sb.numInodes >= 2
  {}

  lemma SafeSessionOf(sb: Superblock, sb': Superblock, x: Session)
    requires SafeSession(sb, x) && sb' == sb.(ibmap := sb'.ibmap)
    ensures SafeSession(sb', x)
  {}

  /** The state is a tree, and after one more session of ready calls it comes back from the mount
      exactly when the last inode is free at the unmount. */
  ghost predicate SurvivesNextIff(s: State, x: Session) {
    Steady(s) && SafeSession(s.mem.sb, x) && Sane(s.mem) && Linked(s.mem) &&
    (AllReady(s.mem, Ops(x.calls)) ==>
       (Linked(AfterSession(s, x).mem) <==> !Live(SessionEnd(s, x).mem, s.mem.sb.numInodes - 1)))
  }

  lemma NextSurvivesIff(s: State, x: Session)
    requires Steady(s) && SafeSession(s.mem.sb, x) && Linked(s.mem)
    ensures SurvivesNextIff(s, x)
  {
    hide Steady, Linked, AfterSession, SessionEnd, SafeSession, AllReady, Live, Sane;
    LinkedIsSane(s.mem);
    if AllReady(s.mem, Ops(x.calls)) {
      SessionSurvivesIff(s, x);
    }
  }

  /** Over any number of sessions of ready calls from the format of an image with a blank last slot:
      as long as the last inode is free at every unmount the tree comes back each time, and
      at the next unmount it comes back exactly when the last inode is free again. */
  lemma SessionsSurviveIff(image: seq<byte>, n: nat, who: Caller, xs: seq<Session>, x: Session)
    requires 2 <= n <= TABLE_SIZE && LastSlotIs(State(Formatted(n, who), image), Blank())
    requires SafeSessions(Formatted(n, who).sb, xs) && SafeSession(Formatted(n, who).sb, x)
    ensures var s0 := FormattedState(image, n, who);
            && Steady(s0) && SafeSessions(s0.mem.sb, xs)
            && (TreeSessions(s0, xs) ==> SurvivesNextIff(AfterSessions(s0, xs), x))
  {
    hide *;
    FormattedIsSteady(image, n, who);
    FormattedIsTree(n, who);
    TreeParts(Formatted(n, who));
    FormattedParts(image, n, who);
    var s0 := FormattedState(image, n, who);
    if TreeSessions(s0, xs) {
      SessionsKeepTree(s0, xs);
      SafeSessionOf(s0.mem.sb, AfterSessions(s0, xs).mem.sb, x);
      NextSurvivesIff(AfterSessions(s0, xs), x);
    }
  }

  // ---- Entries over a mount ----

  lemma SteadyParts(s: State)
    requires Steady(s)
    ensures Sane(s.mem) && NoData(s.mem) && s.mem.sb.numInodes >= 2
  {}

  /** No directory that a mount brings back lists the last inode or one behind it. */
  ghost predicate LastIsUnlisted(m: Memory) {
    forall q: nat, k: nat :: q < m.sb.numInodes - 1 && q < TABLE_SIZE && At(k) in Entries(m, q) ==>
      k < m.sb.numInodes - 1
  }

  /** A mount leaves every entry pointing to a live inode that points back exactly when no
      directory lists the last inode. */
  lemma MountKeepsBackIff(s: State, stack: seq<byte>)
    requires Steady(s) && AllBack(s.mem) && |stack| == SUPERBLOCK_SIZE
    ensures Mountable(s.image, stack)
    ensures AllBack(Mounted(s.image, stack)) <==> LastIsUnlisted(s.mem)
  {
    SteadyParts(s);
    hide Mounted, Mountable, Faithful, LastSlotIs, Sane, NoData, AllBack;
    MountWithBlankLast(s, stack);
    BlankingKeepsBackIff(s.mem, Mounted(s.image, stack));
  }

  lemma BlankingKeepsBackIff(m: Memory, m': Memory)
    requires AllBack(m) && NoData(m) && BlankFromLast(m, m')
    ensures AllBack(m') <==> LastIsUnlisted(m)
  {
    BlankingKeepsSane(m, m');
    hide Sane;
    var last := m.sb.numInodes - 1;
    forall q: nat | q < TABLE_SIZE
      ensures if q < last then Entries(m', q) == Entries(m, q) else forall k :: At(k) !in Entries(m', q)
    {
      assert forall j :: 0 <= j < MAX_FILES_IN_DIR ==> ZeroFcb().dirContents[j] == Null;
    }
    forall q: nat | q < TABLE_SIZE ensures NoDuplicates(Entries(m', q)) {
      assert NoDuplicates(Entries(m, q));
    }
    forall q: nat, k: nat | q < last && q < TABLE_SIZE && At(k) in Entries(m, q)
      ensures BackOk(m', q, k) <==> k < last
    {
      assert BackOk(m, q, k);
    }
  }

  // ---- Fresh disks ----

  lemma ZeroImageIsBlank(image: seq<byte>, n: nat, who: Caller)
    requires 2 <= n <= TABLE_SIZE && forall k :: 0 <= k < |image| ==> image[k] == 0
    requires (3 + (n - 1) / 4) * BLOCK_SIZE + (n - 1) % 4 * FCB_SIZE + FCB_SIZE <= |image|
    ensures LastSlotIs(State(Formatted(n, who), image), Blank())
  {
    FormatGeometry(ZeroMemory(), n, who);
    var sb := Formatted(n, who).sb;
    SlotPlace(sb, n - 1);
    var at := SlotOffset(sb, n - 1);
    hide SlotOffset;
    assert image[at..at + FCB_SIZE] == Blank();
  }

  /** Formatting any disk of zeros that gets at least two inodes and whose inodes fit the table
      gives a state from which the theorems about sessions start. */
  lemma FreshDiskIsSteady(image: seq<byte>, who: Caller)
    requires forall k :: 0 <= k < |image| ==> image[k] == 0
    requires InodesFor(|image|) >= 2 && |image| <= MAX_DISK
    ensures var n := InodesFor(|image|);
            && n <= TABLE_SIZE && LastSlotIs(State(Formatted(n, who), image), Blank())
            && Steady(FormattedState(image, n, who))
  {
    TableSufficesIff(|image|);
    RegionsFit(|image|);
    hide InodesFor, Formatted, LastSlotIs, Faithful, FormattedState;
    ZeroImageIsBlank(image, InodesFor(|image|), who);
    FormattedIsSteady(image, InodesFor(|image|), who);
  }

  // ---- Lookup over sessions ----

  /** Only the last inode can be live without a name: a mount brings it back blank. */
  ghost predicate OnlyLastUnnamed(m: Memory) {
    forall k :: 0 < k < TABLE_SIZE && Live(m, k) && m.inodes[k].fileName == "" ==> k == m.sb.numInodes - 1
  }

  lemma CreateKeepsNames(m: Memory, path: string, who: Caller)
    requires Sane(m) && WellFormed(path) && Creatable(m, path) && OnlyLastUnnamed(m)
    ensures OnlyLastUnnamed(CreateInode(m, path, who).0)
  {
    WellFormedParts(path);
    if CreateInode(m, path, who).1.At? {
      CreateIsInstall(m, path, who);
      InstallNames(m, FindParent(m, path).index, FirstFree(m, 1), BaseName(path), RelativeParentName(path).value, who);
      hide Sane, Install, CreateInode, RelativeParentName, LastSlash, FindParent;
    }
  }

  lemma StepKeepsNames(m: Memory, op: Op)
    requires Sane(m) && WellFormed(op.path) && SafeOp(op) && OnlyLastUnnamed(m)
    ensures OnlyLastUnnamed(Step(m, op))
  {
    WellFormedParts(op.path);
    hide CreateInode, RemoveInode, WellFormed;
    match Creation(op) {
      case Some(who) => CreateKeepsNames(m, op.path, who);
      case None =>
        if op.Remove? {
          RemoveKeepsLive(m, op.path);
        }
    }
  }

  lemma RemoveKeepsLive(m: Memory, path: string)
    requires Sane(m) && WellFormed(path) && OnlyLastUnnamed(m)
    ensures path != "/" && OnlyLastUnnamed(RemoveInode(m, path).0)
  {
    WellFormedParts(path);
    if Find(m, path).At? {
      RemoveNames(m, path);
      hide RemoveInode, Sane;
    }
  }

  lemma {:induction false} RunKeepsNames(m: Memory, ops: seq<Op>)
    requires Sane(m) && FreshCreates(m, ops) && SafeOps(ops) && OnlyLastUnnamed(m)
    ensures OnlyLastUnnamed(Run(m, ops))
    decreases |ops|
  {
    hide Step, Sane, SafeOp, WellFormed, FreshKey, OnlyLastUnnamed;
    if ops != [] {
      StepKeepsNames(m, ops[0]);
      RunKeepsNames(Step(m, ops[0]), ops[1..]);
    }
  }

  /** What a mount does to the map: the last inode's pair is forgotten, its number is not. */
  function Forget(a: map<Key, nat>, last: nat): map<Key, nat> {
    var kept := map key | key in a && a[key] != last :: a[key];
    if last in a.Values then kept[("", "") := last] else kept
  }

  /** Every other live inode is found by its pair after a mount as before, whether or not the
      last inode is live. */
  lemma MountKeepsLookup(s: State, stack: seq<byte>)
    requires Steady(s) && LookupInv(s.mem) && OnlyLastUnnamed(s.mem) && |stack| == SUPERBLOCK_SIZE
    ensures Mountable(s.image, stack)
    ensures var m := Mounted(s.image, stack);
            && LookupInv(m) && OnlyLastUnnamed(m)
            && LiveMap(m) == Forget(LiveMap(s.mem), s.mem.sb.numInodes - 1)
  {
    hide Mounted, Mountable, LastSlotIs, Persisted, NoData, Sane;
    hide LookupInv, OnlyLastUnnamed, LiveMap, Forget, KeysUnique;
    SteadyParts(s);
    LookupKeys(s.mem);
    MountWithBlankLast(s, stack);
    BlankLastKeepsLookup(s.mem, Mounted(s.image, stack));
    BlankLastForgets(s.mem, Mounted(s.image, stack));
  }

  lemma BlankLastKeepsLookup(m: Memory, m': Memory)
    requires LookupInv(m) && OnlyLastUnnamed(m) && NoData(m) && BlankFromLast(m, m')
    ensures LookupInv(m') && OnlyLastUnnamed(m')
  {
    BlankingKeepsSane(m, m');
    hide Sane;
    forall y: nat, z: nat | 0 < y < TABLE_SIZE && 0 < z < TABLE_SIZE && Live(m', y) && Live(m', z) && y != z
      ensures KeyAt(m', y) != KeyAt(m', z)
    {
      PairsAfterMount(m, m', y);
      PairsAfterMount(m, m', z);
    }
    forall y: nat, x: nat | 0 < y < TABLE_SIZE && 0 < x < TABLE_SIZE && Live(m', y) && !Live(m', x)
      ensures KeyAt(m', y) == KeyAt(m', x) && m'.inodes[y].fileName != "" ==> y < x
    {
      PairsAfterMount(m, m', y);
      BlankPair(m, m', x);
    }
    forall k: nat | 0 < k < TABLE_SIZE && Live(m', k)
      ensures k < m.sb.numInodes && (m'.inodes[k].fileName == "" ==> k == m.sb.numInodes - 1)
    {
      PairsAfterMount(m, m', k);
    }
  }

  lemma BlankPair(m: Memory, m': Memory, k: nat)
    requires BlankFromLast(m, m') && k < TABLE_SIZE
    ensures KeyAt(m', k) == if k < m.sb.numInodes - 1 then KeyAt(m, k) else ("", "")
  {}

  /** Every live inode but the last keeps its pair, and it is not the blank one. */
  lemma PairsAfterMount(m: Memory, m': Memory, k: nat)
    requires LookupInv(m) && OnlyLastUnnamed(m) && BlankFromLast(m, m') && 0 < k < TABLE_SIZE && Live(m, k)
    ensures k < m.sb.numInodes && Live(m', k)
    ensures if k == m.sb.numInodes - 1 then KeyAt(m', k) == ("", "")
            else KeyAt(m', k) == KeyAt(m, k) != ("", "")
  {}

  lemma ForgetAt(a: map<Key, nat>, last: nat, key: Key)
    ensures var b := Forget(a, last);
            if key == ("", "") && last in a.Values then key in b && b[key] == last
            else (key in b <==> key in a && a[key] != last) && (key in b ==> b[key] == a[key])
  {}

  lemma LastBound(m: Memory, last: nat)
    requires KeysUnique(m) && 0 < last < TABLE_SIZE
    ensures last in LiveMap(m).Values <==> Live(m, last)
  {
    if Live(m, last) {
      LiveMapAt(m, last);
    }
  }

  lemma BlankLastForgets(m: Memory, m': Memory)
    requires LookupInv(m) && LookupInv(m') && OnlyLastUnnamed(m) && BlankFromLast(m, m')
    ensures LiveMap(m') == Forget(LiveMap(m), m.sb.numInodes - 1)
  {
    hide *;
    LookupKeys(m);
    LookupKeys(m');
    SameBits(m, m');
    LastAfter(m, m');
    var a, a', last := LiveMap(m), LiveMap(m'), m.sb.numInodes - 1;
    forall key: Key ensures Moved(a, a', last, key) {
      BindingBefore(m, m', key);
      BindingAfter(m, m', key);
      MovedFrom(a, a', last, key);
    }
    MovedIsForgotten(a, a', last);
  }

  /** The binding of one pair before and after a mount. */
  ghost predicate Moved(a: map<Key, nat>, a': map<Key, nat>, last: nat, key: Key) {
    (key in a' ==> if a'[key] == last then key == ("", "") && last in a.Values else key in a && a[key] == a'[key]) &&
    (key in a && a[key] != last ==> key != ("", "") && key in a' && a'[key] == a[key])
  }

  lemma MovedFrom(a: map<Key, nat>, a': map<Key, nat>, last: nat, key: Key)
    requires key in a' ==> if a'[key] == last then key == ("", "") && last in a.Values
                           else key in a && a[key] == a'[key]
    requires key in a && a[key] != last ==> key != ("", "") && key in a' && a'[key] == a[key]
    ensures Moved(a, a', last, key)
  {}

  lemma MovedIsForgotten(a: map<Key, nat>, a': map<Key, nat>, last: nat)
    requires forall key :: Moved(a, a', last, key)
    requires last in a.Values ==> ("", "") in a' && a'[("", "")] == last
    ensures a' == Forget(a, last)
  {
    hide Forget;
    forall key: Key ensures BoundAlike(a', Forget(a, last), key) {
      assert Moved(a, a', last, key);
      ForgetAt(a, last, key);
    }
    SameMap(a', Forget(a, last));
  }

  /** A binding after the mount was there before, except the blank one. */
  lemma BindingBefore(m: Memory, m': Memory, key: Key)
    requires LookupInv(m) && LookupInv(m') && OnlyLastUnnamed(m) && BlankFromLast(m, m')
    ensures key in LiveMap(m') ==>
              if LiveMap(m')[key] == m.sb.numInodes - 1 then key == ("", "") && Live(m, m.sb.numInodes - 1)
              else key != ("", "") && key in LiveMap(m) && LiveMap(m)[key] == LiveMap(m')[key]
  {
    hide *;
    SameBits(m, m');
    LookupKeys(m);
    LookupKeys(m');
    LiveMapHas(m', key);
    if key in LiveMap(m') {
      PairsAfterMount(m, m', LiveMap(m')[key]);
      LiveMapAt(m, LiveMap(m')[key]);
    }
  }

  lemma BindingAfter(m: Memory, m': Memory, key: Key)
    requires LookupInv(m) && LookupInv(m') && OnlyLastUnnamed(m) && BlankFromLast(m, m')
    ensures key in LiveMap(m) && LiveMap(m)[key] != m.sb.numInodes - 1 ==>
              key != ("", "") && key in LiveMap(m') && LiveMap(m')[key] == LiveMap(m)[key]
  {
    hide LiveMap, LookupInv, OnlyLastUnnamed, BlankFromLast, Live, KeysUnique, Sane;
    LookupKeys(m);
    LookupKeys(m');
    LiveMapHas(m, key);
    if key in LiveMap(m) {
      PairsAfterMount(m, m', LiveMap(m)[key]);
      LiveMapAt(m', LiveMap(m)[key]);
    }
  }

  lemma LastAfter(m: Memory, m': Memory)
    requires LookupInv(m) && LookupInv(m') && OnlyLastUnnamed(m) && BlankFromLast(m, m')
    ensures var last := m.sb.numInodes - 1;
            && (last in LiveMap(m).Values <==> Live(m, last))
            && (Live(m, last) ==> ("", "") in LiveMap(m') && LiveMap(m')[("", "")] == last)
  {
    SameBits(m, m');
    hide LiveMap, LookupInv, OnlyLastUnnamed, BlankFromLast, Live, KeysUnique, Sane;
    LookupKeys(m);
    LookupKeys(m');
    LastBound(m, m.sb.numInodes - 1);
    if Live(m, m.sb.numInodes - 1) {
      PairsAfterMount(m, m', m.sb.numInodes - 1);
      LiveMapAt(m', m.sb.numInodes - 1);
    }
  }

  lemma SameBits(m: Memory, m': Memory)
    requires BlankFromLast(m, m') && LookupInv(m)
    ensures 1 <= m.sb.numInodes - 1 < TABLE_SIZE && forall k :: Live(m', k) <==> Live(m, k)
  {}

  /** Lookup of a single path across a mount. */
  lemma LookupSurvivesMount(s: State, stack: seq<byte>, k: nat, path: string)
    requires Steady(s) && LookupInv(s.mem) && OnlyLastUnnamed(s.mem) && |stack| == SUPERBLOCK_SIZE
    requires 0 < k < s.mem.sb.numInodes - 1 && Live(s.mem, k) && WellFormed(path)
    ensures k < TABLE_SIZE && Mountable(s.image, stack)
    ensures var m := Mounted(s.image, stack);
            && m.sb.numInodes <= TABLE_SIZE && Live(m, k)
            && (Find(m, path) == At(k) <==> KeyAt(s.mem, k) == KeyOf(path))
  {
    hide Mounted, Mountable, Faithful, LastSlotIs;
    MountKeepsLookup(s, stack);
    MountWithBlankLast(s, stack);
    FindReturnsLive(Mounted(s.image, stack), path, k);
  }

  /** Tree and lookup together: both survive a mount exactly when the last inode is free. */
  lemma MountKeepsTreeAndLookupIff(s: State, stack: seq<byte>)
    requires Steady(s) && TreeInv(s.mem) && |stack| == SUPERBLOCK_SIZE
    ensures Mountable(s.image, stack)
    ensures TreeInv(Mounted(s.image, stack)) <==> !Live(s.mem, s.mem.sb.numInodes - 1)
  {
    TreeHasNames(s.mem);
    hide Linked, LookupInv, OnlyLastUnnamed, Mounted, Mountable, Faithful, LastSlotIs, Live;
    MountKeepsLookup(s, stack);
    RemountKeepsTreeIff(s, stack);
  }

  lemma TreeHasNames(m: Memory)
    requires Linked(m)
    ensures OnlyLastUnnamed(m)
  {
    forall k | 0 < k < TABLE_SIZE && Live(m, k) ensures m.inodes[k].fileName != "" {
      assert ChildOk(m, k);
    }
  }

  /** In every session no create repeats a live pair; removes are free. */
  ghost predicate FreshSessions(s: State, xs: seq<Session>)
    requires Steady(s) && SafeSessions(s.mem.sb, xs)
    decreases |xs|
  {
    xs == [] ||
    (SafeSession(s.mem.sb, xs[0]) && Sane(s.mem) && FreshCreates(s.mem, Ops(xs[0].calls)) &&
     SafeSessions(AfterSession(s, xs[0]).mem.sb, xs[1..]) &&
     FreshSessions(AfterSession(s, xs[0]), xs[1..]))
  }

  predicate WellFormedSessions(xs: seq<Session>) {
    forall j :: 0 <= j < |xs| ==> AllWellFormed(Ops(xs[j].calls))
  }

  /** Which calls of a session made an inode. */
  function SessionOk(s: State, x: Session): (oks: seq<bool>)
    requires Steady(s) && SafeSession(s.mem.sb, x)
    ensures |oks| == |x.calls|
  {
    var end := SessionEnd(s, x);
    Oks(s.mem, Ops(x.calls))
  }

  function SessionOks(s: State, xs: seq<Session>): (okss: seq<seq<bool>>)
    requires Steady(s) && SafeSessions(s.mem.sb, xs)
    ensures OksFor(xs, okss)
    decreases |xs|
  {
    hide Steady, SafeSession, OksFor;
    if xs == [] then NoOks(); []
    else
      FirstSession(s.mem.sb, xs);
      SafeTail(s.mem.sb, AfterSession(s, xs[0]).mem.sb, xs);
      var first, rest := SessionOk(s, xs[0]), SessionOks(AfterSession(s, xs[0]), xs[1..]);
      MoreOks(xs, first, rest);
      [first] + rest
  }

  lemma FirstSession(sb: Superblock, xs: seq<Session>)
    requires xs != [] && SafeSessions(sb, xs)
    ensures SafeSession(sb, xs[0])
  {}

  predicate OksFor(xs: seq<Session>, okss: seq<seq<bool>>) {
    |okss| == |xs| && forall j :: 0 <= j < |xs| ==> |okss[j]| == |xs[j].calls|
  }

  lemma NoOks()
    ensures OksFor([], [])
  {}

  lemma MoreOks(xs: seq<Session>, first: seq<bool>, rest: seq<seq<bool>>)
    requires xs != [] && |first| == |xs[0].calls| && OksFor(xs[1..], rest)
    ensures OksFor(xs, [first] + rest)
  {}

  /** The plain map through all sessions: the calls bind and unbind, a mount forgets. */
  function BindSessions(a: map<Key, nat>, n: nat, xs: seq<Session>, okss: seq<seq<bool>>): map<Key, nat>
    requires n >= 1 && WellFormedSessions(xs)
    requires OksFor(xs, okss)
    decreases |xs|
  {
    if xs == [] then a
    else BindSessions(Forget(BindAll(a, n, Ops(xs[0].calls), okss[0]), n - 1), n, xs[1..], okss[1..])
  }

  lemma SessionIsMap(s: State, x: Session)
    requires Steady(s) && SafeSession(s.mem.sb, x) && LookupInv(s.mem) && OnlyLastUnnamed(s.mem)
    requires FreshCreates(s.mem, Ops(x.calls))
    ensures SafeOps(Ops(x.calls)) && AllWellFormed(Ops(x.calls))
    ensures var m, n := AfterSession(s, x).mem, s.mem.sb.numInodes;
            && LookupInv(m) && OnlyLastUnnamed(m) && n >= 2
            && LiveMap(m) == Forget(BindAll(LiveMap(s.mem), n, Ops(x.calls), Oks(s.mem, Ops(x.calls))), n - 1)
  {
    hide LookupInv, OnlyLastUnnamed, Faithful, LastSlotIs, SessionEnd, Mounted, LiveMap, BindAll, Forget, Oks;
    hide FreshCreates, Run, SafeSession, Mountable, Sane;
    LookupKeys(s.mem);
    var end := SessionEnd(s, x);
    RunIsMap(s.mem, Ops(x.calls));
    RunKeepsNames(s.mem, Ops(x.calls));
    SteadyCount(end);
    SafeSessionStack(s.mem.sb, x);
    MountKeepsLookup(end, x.stack);
  }

  lemma SafeSessionStack(sb: Superblock, x: Session)
    requires SafeSession(sb, x)
    ensures |x.stack| == SUPERBLOCK_SIZE
  {}

  lemma {:induction false} SessionsAreMap(s: State, xs: seq<Session>)
    requires Steady(s) && SafeSessions(s.mem.sb, xs) && LookupInv(s.mem) && OnlyLastUnnamed(s.mem)
    requires FreshSessions(s, xs)
    ensures s.mem.sb.numInodes >= 2 && WellFormedSessions(xs)
    ensures var m := AfterSessions(s, xs).mem;
            && LookupInv(m) && OnlyLastUnnamed(m)
            && LiveMap(m) == BindSessions(LiveMap(s.mem), s.mem.sb.numInodes, xs, SessionOks(s, xs))
    decreases |xs|
  {
    hide Steady, LookupInv, OnlyLastUnnamed, AfterSession, SessionEnd, LiveMap, SafeSession, FreshCreates, BindAll;
    hide Forget, Sane, Oks, AllWellFormed;
    SteadyCount(s);
    LookupKeys(s.mem);
    if xs != [] {
      SessionIsMap(s, xs[0]);
      var s1 := AfterSession(s, xs[0]);
      LookupKeys(s1.mem);
      SessionsAreMap(s1, xs[1..]);
      assert xs == [xs[0]] + xs[1..];
      assert SessionOks(s, xs)[1..] == SessionOks(s1, xs[1..]);
    }
  }

  /** From the format on, through any number of sessions whose creates repeat no live pair,
      lookup answers from the plain map; a remount only forgets the last inode's pair. */
  lemma LifetimeIsMap(image: seq<byte>, n: nat, who: Caller, xs: seq<Session>, path: string)
    requires 2 <= n <= TABLE_SIZE && LastSlotIs(State(Formatted(n, who), image), Blank())
    requires SafeSessions(Formatted(n, who).sb, xs) && WellFormed(path)
    ensures var s0 := FormattedState(image, n, who);
            && Steady(s0) && SafeSessions(s0.mem.sb, xs)
            && (FreshSessions(s0, xs) ==>
                  WellFormedSessions(xs) &&
                  AnswersFrom(AfterSessions(s0, xs).mem, BindSessions(map[], n, xs, SessionOks(s0, xs)), path))
  {
    hide *;
    FormattedIsSteady(image, n, who);
    FormattedParts(image, n, who);
    FormattedBindsNothing(n, who);
    var s0 := FormattedState(image, n, who);
    if FreshSessions(s0, xs) {
      SessionsAreMap(s0, xs);
      AnswersFromMap(AfterSessions(s0, xs).mem, path);
    }
  }

  /** Lookup of the path gives the bound number, or nothing live. */
  ghost predicate AnswersFrom(m: Memory, a: map<Key, nat>, path: string)
    requires WellFormed(path)
  {
    m.sb.numInodes <= TABLE_SIZE &&
    if KeyOf(path) in a then Find(m, path) == At(a[KeyOf(path)])
    else Find(m, path) == Null || !Live(m, Find(m, path).index)
  }

  lemma AnswersFromMap(m: Memory, path: string)
    requires LookupInv(m) && WellFormed(path)
    ensures KeysUnique(m) && AnswersFrom(m, LiveMap(m), path)
  {
    LookupKeys(m);
    FindRefinesMap(m, path);
  }

  lemma FormattedBindsNothing(n: nat, who: Caller)
    requires n <= TABLE_SIZE
    ensures var m := Formatted(n, who);
            LookupInv(m) && KeysUnique(m) && OnlyLastUnnamed(m) && LiveMap(m) == map[] && m.sb.numInodes == n
  {
    FormattedIsTree(n, who);
    FormattedIsPrefix(n, who);
  }
}
