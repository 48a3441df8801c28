/** Runs of calls with their flushes, and mounting the image again. */
module Remount {
  import opened Types
  import opened DirEntries
  import opened Inodes
  import opened Links
  import opened Tree
  import opened Runs
  import opened Boot
  import opened Codec
  import opened Persistence

  /** The mounted file system: the memory and the disk image. */
  datatype State = State(mem: Memory, image: seq<byte>)

  /** A call, and the memory behind the superblock that its flush copies along. */
  datatype Call = Call(op: Op, beyond: seq<byte>)

  /** A create flushes when it made an inode, a remove when it found one. */
  predicate Flushes(m: Memory, op: Op)
    requires Sane(m) && SafeOp(op)
  {
    StepResult(m, op).At? || (op.Remove? && RemoveInode(m, op.path).1)
  }

  predicate SafeCalls(calls: seq<Call>) {
    forall j :: 0 <= j < |calls| ==> SafeOp(calls[j].op)
  }

  function Ops(calls: seq<Call>): (ops: seq<Op>)
    ensures |ops| == |calls| && forall j :: 0 <= j < |ops| ==> ops[j] == calls[j].op
  {
    seq(|calls|, j requires 0 <= j < |calls| => calls[j].op)
  }

  predicate AllCover(sb: Superblock, calls: seq<Call>) {
    forall j :: 0 <= j < |calls| ==> Covers(sb, calls[j].beyond)
  }

  function CallStep(s: State, call: Call): (s': State)
    requires Sane(s.mem) && SafeOp(call.op) && Covers(s.mem.sb, call.beyond)
    ensures Sane(s'.mem)
  {
    var mem := Step(s.mem, call.op);
    StepKeepsGeometry(s.mem, call.op);
    State(mem, if Flushes(s.mem, call.op) then Flush(s.image, mem, call.beyond) else s.image)
  }

  /** Calls change nothing of the superblock but the inode bitmap. */
  lemma StepKeepsGeometry(m: Memory, op: Op)
    requires Sane(m) && SafeOp(op)
    ensures var m' := Step(m, op);
            && m'.sb == m.sb.(ibmap := m'.sb.ibmap)
            && (!Flushes(m, op) ==> m' == m)
  {}

  /** What a call does to memory and image: a create that made an inode and a remove that found
      one flush the new memory, every other call leaves both as they were. */
  lemma CallOutcome(s: State, call: Call)
    requires Sane(s.mem) && SafeOp(call.op) && Covers(s.mem.sb, call.beyond)
    ensures var s' := CallStep(s, call);
            && s'.mem == Step(s.mem, call.op)
            && s'.mem.sb.numInodes <= TABLE_SIZE && Covers(s'.mem.sb, call.beyond)
            && (!call.op.Remove? ==>
                  if StepResult(s.mem, call.op).At? then s'.image == Flush(s.image, s'.mem, call.beyond) else s' == s)
            && (call.op.Remove? ==>
                  if Find(s.mem, call.op.path).At? then s'.image == Flush(s.image, s'.mem, call.beyond) else s' == s)
  {
    StepKeepsGeometry(s.mem, call.op);
    hide Flush, Step, StepResult, Sane;
    if call.op.Remove? {
      RemovalTarget(s.mem, call.op.path);
    }
  }

  function CallRun(s: State, calls: seq<Call>): (s': State)
    requires Sane(s.mem) && SafeCalls(calls) && AllCover(s.mem.sb, calls)
    ensures Sane(s'.mem)
    decreases |calls|
  {
    if calls == [] then s
    else
      StepKeepsGeometry(s.mem, calls[0].op);
      CallRun(CallStep(s, calls[0]), calls[1..])
  }

  /** The image is faithful: it holds the memory, and nothing is stored in files. */
  ghost predicate Faithful(s: State) {
    Sane(s.mem) && NoData(s.mem) && Persisted(s.image, s.mem)
  }

  lemma SaneState(s: State)
    requires Faithful(s)
    ensures Sane(s.mem)
  {}

  /** The bytes in the last inode's slot. */
  predicate LastSlotIs(s: State, bytes: seq<byte>) {
    Geometry(s.mem.sb) && s.mem.sb.numInodes >= 2 &&
    Holds(s.image, SlotOffset(s.mem.sb, s.mem.sb.numInodes - 1), bytes)
  }

  lemma SanePointers(m: Memory)
    requires Sane(m)
    ensures PointersOk(m)
  {
    forall k | 0 <= k < TABLE_SIZE ensures InTable(m.inodes[k].dirContents) {
      assert SaneRecord(m.inodes[k], k);
    }
  }

  lemma StepKeepsNoData(m: Memory, op: Op)
    requires Sane(m) && SafeOp(op) && NoData(m)
    ensures NoData(Step(m, op))
  {
    var m' := Step(m, op);
    StepKeepsGeometry(m, op);
    forall k: nat | k < TABLE_SIZE ensures m'.inodes[k].fileSize == m.inodes[k].fileSize {
      StepKeepsSize(m, op, k);
    }
  }

  lemma StepKeepsSize(m: Memory, op: Op, k: nat)
    requires Sane(m) && SafeOp(op) && k < TABLE_SIZE
    ensures Step(m, op).inodes[k].fileSize == m.inodes[k].fileSize
  {
    hide CreateInode, RemoveInode;
    match Creation(op)
    case Some(who) => CreateKeepsSize(m, op.path, who, k);
    case None => if op.Remove? { RemoveKeepsSize(m, op.path, k); }
  }

  lemma CreateKeepsSize(m: Memory, path: string, who: Caller, k: nat)
    requires Sane(m) && Creatable(m, path) && k < TABLE_SIZE
    ensures CreateInode(m, path, who).0.inodes[k].fileSize == m.inodes[k].fileSize
  {
    hide Sane, FindParent, FirstFree;
  }

  lemma RemoveKeepsSize(m: Memory, path: string, k: nat)
    requires Sane(m) && path != "/" && k < TABLE_SIZE
    ensures RemoveInode(m, path).0.inodes[k].fileSize == m.inodes[k].fileSize
  {
    RemovalTarget(m, path);
    hide Sane, Find, Unlink;
  }

  lemma SameSlots(sb: Superblock, sb': Superblock, i: nat)
    requires Geometry(sb) && sb' == sb.(ibmap := sb'.ibmap)
    ensures Geometry(sb') && SlotOffset(sb', i) == SlotOffset(sb, i)
  {}

  /** Every call, allowed or not, leaves the image faithful, and changes nothing of the
      superblock but the inode bitmap. */
  lemma CallKeepsFaithful(s: State, call: Call)
    requires Faithful(s) && SafeOp(call.op) && Covers(s.mem.sb, call.beyond)
    ensures var s' := CallStep(s, call);
            Faithful(s') && s'.mem == Step(s.mem, call.op) && s'.mem.sb == s.mem.sb.(ibmap := s'.mem.sb.ibmap)
  {
    hide Flush, SuperblockBytes, FcbBytes, SlotOffset, Step;
    var m' := Step(s.mem, call.op);
    StepKeepsGeometry(s.mem, call.op);
    StepKeepsNoData(s.mem, call.op);
    if Flushes(s.mem, call.op) {
      FlushPersists(s.image, m', call.beyond);
    }
  }

  lemma CallKeepsLastSlot(s: State, call: Call, bytes: seq<byte>)
    requires Faithful(s) && LastSlotIs(s, bytes) && SafeOp(call.op) && Covers(s.mem.sb, call.beyond)
    ensures LastSlotIs(CallStep(s, call), bytes)
  {
    hide Flush, SuperblockBytes, FcbBytes, SlotOffset, Step, Persisted, Flushes, Holds, NoData;
    var m' := Step(s.mem, call.op);
    StepKeepsGeometry(s.mem, call.op);
    SameSlots(s.mem.sb, m'.sb, m'.sb.numInodes - 1);
    if Flushes(s.mem, call.op) {
      FlushSkipsLast(s.image, m', call.beyond, bytes);
    }
  }

  lemma CoverTail(sb: Superblock, sb': Superblock, calls: seq<Call>)
    requires calls != [] && AllCover(sb, calls) && sb' == sb.(ibmap := sb'.ibmap)
    ensures AllCover(sb', calls[1..])
  {}

  lemma {:induction false} RunKeepsFaithful(s: State, calls: seq<Call>)
    requires Faithful(s) && SafeCalls(calls) && AllCover(s.mem.sb, calls)
    ensures Faithful(CallRun(s, calls))
    ensures SafeOps(Ops(calls)) && CallRun(s, calls).mem == Run(s.mem, Ops(calls))
    decreases |calls|
  {
    hide Faithful, CallStep, Sane, SafeOp, Step, Covers;
    SaneState(s);
    if calls != [] {
      CallKeepsFaithful(s, calls[0]);
      OpsTail(calls);
      CoverTail(s.mem.sb, CallStep(s, calls[0]).mem.sb, calls);
      RunKeepsFaithful(CallStep(s, calls[0]), calls[1..]);
    }
  }

  lemma OpsTail(calls: seq<Call>)
    requires calls != [] && SafeCalls(calls)
    ensures Ops(calls)[1..] == Ops(calls[1..]) && SafeOps(Ops(calls))
  {}

  lemma {:induction false} RunKeepsLastSlot(s: State, calls: seq<Call>, bytes: seq<byte>)
    requires Faithful(s) && LastSlotIs(s, bytes) && SafeCalls(calls) && AllCover(s.mem.sb, calls)
    ensures LastSlotIs(CallRun(s, calls), bytes)
    decreases |calls|
  {
    hide Faithful, CallStep, LastSlotIs, Sane, SafeOp, Step, Covers;
    SaneState(s);
    if calls != [] {
      CallKeepsFaithful(s, calls[0]);
      CallKeepsLastSlot(s, calls[0], bytes);
      CoverTail(s.mem.sb, CallStep(s, calls[0]).mem.sb, calls);
      RunKeepsLastSlot(CallStep(s, calls[0]), calls[1..], bytes);
    }
  }

  /** The state right after formatting an image for n inodes. */
  function FormattedState(image: seq<byte>, n: nat, who: Caller): State
    requires n <= TABLE_SIZE
  {
    State(Formatted(n, who), FormatImage(image, ZeroMemory(), n, who))
  }

  lemma FormattedHasNoData(n: nat, who: Caller)
    requires n <= TABLE_SIZE
    ensures Sane(Formatted(n, who)) && NoData(Formatted(n, who)) && Formatted(n, who).sb.numInodes == n
  {
    FormattedIsPrefix(n, who);
  }

  lemma FormattedIsFaithful(image: seq<byte>, n: nat, who: Caller)
    requires n <= TABLE_SIZE
    ensures Faithful(FormattedState(image, n, who)) && Formatted(n, who).sb.numInodes == n
  {
    FormattedHasNoData(n, who);
    hide FormatImage, Formatted, Persisted, NoData, Sane;
    FormatPersists(image, n, who);
  }

  lemma FormattedLastSlot(image: seq<byte>, n: nat, who: Caller, bytes: seq<byte>)
    requires 2 <= n <= TABLE_SIZE && LastSlotIs(State(Formatted(n, who), image), bytes)
    ensures LastSlotIs(FormattedState(image, n, who), bytes)
  {
    hide Formatted, FormatImage, Sane, NoData, Holds, SlotOffset, Geometry, ZeroMemory, FormattedState;
    FormattedHasNoData(n, who);
    FormatSkipsLast(image, n, who, bytes);
    FormattedParts(image, n, who);
  }

  lemma FormattedParts(image: seq<byte>, n: nat, who: Caller)
    requires n <= TABLE_SIZE
    ensures FormattedState(image, n, who).mem == Formatted(n, who)
    ensures FormattedState(image, n, who).image == FormatImage(image, ZeroMemory(), n, who)
  {
    hide Formatted, FormatImage, ZeroMemory;
  }

  /** The superblock on the image fits the table. */
  predicate Mountable(image: seq<byte>, stack: seq<byte>) {
    |stack| == SUPERBLOCK_SIZE &&
    var sb := SuperblockFound(image, stack);
    sb.numInodes <= TABLE_SIZE && sb.inodeStartIndex >= 0
  }

  /** What the next `sfs_init` makes of the image, in a fresh process. */
  function Mounted(image: seq<byte>, stack: seq<byte>): Memory
    requires Mountable(image, stack)
  {
    LoadImage(image, ZeroMemory(), stack)
  }

  /** The next mount finds the superblock (up to the data bit of the last inode) and all
      records but the last inode's; behind that all are blank. */
  predicate ComesBack(s: State, stack: seq<byte>) {
    Mountable(s.image, stack) &&
    var n, m := s.mem.sb.numInodes, Mounted(s.image, stack);
    && 1 <= n <= TABLE_SIZE
    && m.sb == s.mem.sb.(dbmap := s.mem.sb.dbmap[n - 1 := m.sb.dbmap[n - 1]])
    && (forall k :: 0 <= k < n - 1 ==> m.inodes[k] == s.mem.inodes[k])
    && (forall k :: n <= k < TABLE_SIZE ==> m.inodes[k] == ZeroFcb())
  }

  /** Remount round trip, over all runs of calls on all paths, from the format of any image. */
  lemma RemountRoundTrip(image: seq<byte>, n: nat, who: Caller, calls: seq<Call>, stack: seq<byte>)
    requires 1 <= n <= TABLE_SIZE && |stack| == SUPERBLOCK_SIZE
    requires SafeCalls(calls) && AllCover(Formatted(n, who).sb, calls)
    ensures Sane(Formatted(n, who)) && ComesBack(CallRun(FormattedState(image, n, who), calls), stack)
  {
    hide Formatted, Faithful, ComesBack;
    FormattedIsTree(n, who);
    FormattedIsFaithful(image, n, who);
    FaithfulComesBack(FormattedState(image, n, who), calls, stack);
  }

  lemma FaithfulComesBack(s: State, calls: seq<Call>, stack: seq<byte>)
    requires Faithful(s) && SafeCalls(calls) && AllCover(s.mem.sb, calls)
    requires 1 <= s.mem.sb.numInodes && |stack| == SUPERBLOCK_SIZE
    ensures ComesBack(CallRun(s, calls), stack)
  {
    hide *;
    RunKeepsFaithful(s, calls);
    SaneState(s);
    RunKeepsCount(s.mem, Ops(calls));
    FaithfulRemount(CallRun(s, calls), stack);
  }

  lemma FaithfulRemount(s: State, stack: seq<byte>)
    requires Faithful(s) && 1 <= s.mem.sb.numInodes && |stack| == SUPERBLOCK_SIZE
    ensures ComesBack(s, stack)
  {
    hide LoadImage, SuperblockFound, Holds, Sane;
    var n := s.mem.sb.numInodes;
    SanePointers(s.mem);
    SaneCount(s.mem);
    LoadRestores(s.image, s.mem, ZeroMemory(), stack);
    NoDataBits(s.mem, Mounted(s.image, stack));
  }

  lemma SaneCount(m: Memory)
    requires Sane(m)
    ensures 0 <= m.sb.numInodes <= TABLE_SIZE
  {}

  /** Without data the data bits of all records but the last inode's come back. */
  lemma NoDataBits(m: Memory, r: Memory)
    requires NoData(m) && 1 <= m.sb.numInodes <= TABLE_SIZE
    requires r.sb == m.sb.(dbmap := r.sb.dbmap)
    requires forall k :: 0 <= k < m.sb.numInodes - 1 ==> r.sb.dbmap[k] == DataBit(m.inodes[k], m.sb.dbmap[k])
    requires forall k :: m.sb.numInodes - 1 < k < MAX_BLOCKS ==> r.sb.dbmap[k] == m.sb.dbmap[k]
    ensures var last := m.sb.numInodes - 1; r.sb == m.sb.(dbmap := m.sb.dbmap[last := r.sb.dbmap[last]])
  {
    var last := m.sb.numInodes - 1;
    assert r.sb.dbmap == m.sb.dbmap[last := r.sb.dbmap[last]];
  }

  lemma {:induction false} RunKeepsCount(m: Memory, ops: seq<Op>)
    requires Sane(m) && SafeOps(ops)
    ensures Run(m, ops).sb.numInodes == m.sb.numInodes
    decreases |ops|
  {
    hide Step, Sane;
    if ops != [] {
      RunKeepsCount(Step(m, ops[0]), ops[1..]);
    }
  }

  // ---- The last inode ----

  /** Blanking records of free inodes keeps a tree a tree. */
  lemma BlankingKeepsTree(m: Memory, m': Memory)
    requires Linked(m) && m'.sb == m.sb
    requires forall k :: 0 <= k < TABLE_SIZE ==>
               m'.inodes[k] == m.inodes[k] || (m'.inodes[k] == ZeroFcb() && !Live(m, k))
    ensures Linked(m')
  {
    forall k | 0 <= k < TABLE_SIZE ensures SaneRecord(m'.inodes[k], k) {
      assert SaneRecord(m.inodes[k], k);
    }
    forall k | 0 < k < TABLE_SIZE && Live(m', k) ensures ChildOk(m', k) {
      assert ChildOk(m, k);
    }
    forall q: nat, k: nat | q < TABLE_SIZE && At(k) in Entries(m', q) ensures EntryOk(m', q, k) {
      assert forall j :: 0 <= j < MAX_FILES_IN_DIR ==> ZeroFcb().dirContents[j] == Null;
      assert EntryOk(m, q, k);
    }
    forall q: nat | q < TABLE_SIZE ensures NoDuplicates(Entries(m', q)) {
      assert NoDuplicates(Entries(m, q));
    }
    var d :| Ranked(m, d);
    forall k | 0 < k < TABLE_SIZE && Live(m', k) ensures RankOk(m', d, k) {
      assert RankOk(m, d, k);
    }
    assert Ranked(m', d);
  }

  /** The records from the last inode on are blank, everything else is as it was. */
  ghost predicate BlankFromLast(m: Memory, m': Memory) {
    m'.sb == m.sb && m.sb.numInodes >= 2 &&
    forall k :: 0 <= k < TABLE_SIZE ==> m'.inodes[k] == if k < m.sb.numInodes - 1 then m.inodes[k] else ZeroFcb()
  }

  /** Mounting an image whose last slot is blank: every record comes back or is blank, and the
      last inode's is blank. */
  lemma MountWithBlankLast(s: State, stack: seq<byte>)
    requires Faithful(s) && LastSlotIs(s, seq(FCB_SIZE, _ => 0)) && |stack| == SUPERBLOCK_SIZE
    ensures Mountable(s.image, stack)
    ensures var m, n := Mounted(s.image, stack), s.mem.sb.numInodes;
            && m.sb == s.mem.sb && m.inodes[n - 1] == ZeroFcb()
            && forall k :: 0 <= k < TABLE_SIZE ==>
                 m.inodes[k] == if k < n - 1 then s.mem.inodes[k] else ZeroFcb()
    ensures BlankFromLast(s.mem, Mounted(s.image, stack))
  {
    hide LoadImage, SuperblockFound, Holds;
    var n := s.mem.sb.numInodes;
    SanePointers(s.mem);
    LoadBlanksLast(s.image, s.mem, ZeroMemory(), stack);
  }

  /** A tree whose records from the last inode on are blanked is a tree exactly when the last
      inode is free. */
  lemma BlankLastIff(m: Memory, m': Memory)
    requires Linked(m) && m.sb.numInodes >= 2 && m'.sb == m.sb
    requires forall k :: 0 <= k < TABLE_SIZE ==>
               m'.inodes[k] == if k < m.sb.numInodes - 1 then m.inodes[k] else ZeroFcb()
    ensures Linked(m') <==> !Live(m, m.sb.numInodes - 1)
  {
    hide Linked, Sane;
    LiveAreCounted(m);
    if Live(m, m.sb.numInodes - 1) {
      BlankIsNoChild(m', m.sb.numInodes - 1);
    } else {
      BlankingKeepsTree(m, m');
    }
  }

  /** On an image whose last slot is blank, a tree survives a remount exactly when the last
      inode is not taken; taken, it comes back allocated but without a name. */
  lemma RemountKeepsTreeIff(s: State, stack: seq<byte>)
    requires Faithful(s) && Linked(s.mem) && LastSlotIs(s, seq(FCB_SIZE, _ => 0))
    requires |stack| == SUPERBLOCK_SIZE
    ensures Mountable(s.image, stack)
    ensures Linked(Mounted(s.image, stack)) <==> !Live(s.mem, s.mem.sb.numInodes - 1)
  {
    hide Linked, Faithful, Mounted, Mountable;
    MountWithBlankLast(s, stack);
    BlankLastIff(s.mem, Mounted(s.image, stack));
  }

  lemma LiveAreCounted(m: Memory)
    requires Linked(m)
    ensures m.sb.numInodes <= TABLE_SIZE
    ensures forall k :: 0 < k < TABLE_SIZE && m.sb.numInodes <= k ==> !Live(m, k)
  {
    forall k | 0 < k < TABLE_SIZE && Live(m, k) ensures k < m.sb.numInodes {
      assert ChildOk(m, k);
    }
  }

  lemma BlankIsNoChild(m: Memory, k: nat)
    requires 0 < k < TABLE_SIZE && Live(m, k) && m.inodes[k].fileName == ""
    ensures !Linked(m)
  {
    assert !ChildOk(m, k);
  }
}
