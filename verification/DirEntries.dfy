/** A directory's array of entries: the slot logic of `add_to_direntry`,
    `indexed_remove_from_direntry` and `sfs_readdir`, for an array of any capacity. */
module DirEntries {
  import opened Types

  /** First empty slot at or after i; the capacity if there is none. */
  function FirstNull(dc: seq<Ptr>, i: nat): (r: nat)
    requires i <= |dc|
    ensures i <= r <= |dc|
    ensures r < |dc| ==> dc[r] == Null
    ensures forall j :: i <= j < r ==> dc[j] != Null
    decreases |dc| - i
  {
    if i < |dc| && dc[i] != Null then FirstNull(dc, i + 1) else i
  }

  predicate HasRoom(dc: seq<Ptr>) {
    FirstNull(dc, 0) < |dc|
  }

  /** `add_to_direntry`: the child goes to the first empty slot. A full array is left as it
      is, and the caller is not told. */
  function AddEntry(dc: seq<Ptr>, child: nat): seq<Ptr> {
    if HasRoom(dc) then dc[FirstNull(dc, 0) := At(child)] else dc
  }

  /** The scan of `indexed_remove_from_direntry`, which steps twice over an occupied slot;
      the result is its final index. */
  function DoubleStep(dc: seq<Ptr>, i: nat): (r: nat)
    requires i <= |dc|
    ensures |dc| <= r <= |dc| + 1
    decreases |dc| - i
  {
    if i == |dc| then i
    else if dc[i] == Null then DoubleStep(dc, i + 1)
    else if i + 1 == |dc| then i + 2
    else DoubleStep(dc, i + 2)
  }

  /** What add and remove keep between them: the last slot is only used when all are. Holes
      elsewhere are allowed. */
  predicate LastSlotLast(dc: seq<Ptr>) {
    dc != [] && dc[|dc| - 1] != Null ==> forall j :: 0 <= j < |dc| ==> dc[j] != Null
  }

  predicate Empty(dc: seq<Ptr>) {
    forall j :: 0 <= j < |dc| ==> dc[j] == Null
  }

  /** Overwrites slot `index` with the last slot, then clears the last slot. */
  function RemoveAt(dc: seq<Ptr>, index: nat): seq<Ptr>
    requires index < |dc|
    requires DoubleStep(dc, 0) == |dc|
  {
    var last := DoubleStep(dc, 0) - 1;
    if last == index then dc[last := Null]
    else dc[index := dc[last]][last := Null]
  }

  lemma {:induction false} FullScan(dc: seq<Ptr>, i: nat)
    requires i <= |dc|
    requires forall j :: i <= j < |dc| ==> dc[j] != Null
    ensures DoubleStep(dc, i) == if (|dc| - i) % 2 == 0 then |dc| else |dc| + 1
    decreases |dc| - i
  {
    if i + 2 <= |dc| {
      FullScan(dc, i + 2);
    }
  }

  lemma {:induction false} ScanWithLastEmpty(dc: seq<Ptr>, i: nat)
    requires i <= |dc|
    requires dc != [] && dc[|dc| - 1] == Null
    ensures DoubleStep(dc, i) == |dc|
    decreases |dc| - i
  {
    if i < |dc| {
      ScanWithLastEmpty(dc, if dc[i] == Null then i + 1 else i + 2);
    }
  }

  /** The double step is exact on every array that add and remove produce, exactly because
      the capacity is even (or the last slot is free). */
  lemma DoubleStepExact(dc: seq<Ptr>)
    requires LastSlotLast(dc)
    ensures DoubleStep(dc, 0) == |dc| <==> |dc| % 2 == 0 || dc[|dc| - 1] == Null
  {
    if dc == [] || dc[|dc| - 1] != Null {
      FullScan(dc, 0);
    } else {
      ScanWithLastEmpty(dc, 0);
    }
  }

  /** Adding keeps the invariant, and adds exactly the child. */
  lemma AddKeeps(dc: seq<Ptr>, child: nat)
    requires LastSlotLast(dc)
    ensures LastSlotLast(AddEntry(dc, child)) && |AddEntry(dc, child)| == |dc|
    ensures HasRoom(dc) ==>
              multiset(AddEntry(dc, child)) == multiset(dc) - multiset{Null} + multiset{At(child)}
  {}

  /** Which slot an addition fills: the first empty one, none if there is none. */
  lemma AddedSlot(dc: seq<Ptr>, child: nat, n: nat)
    requires n <= |dc| && (n < |dc| ==> dc[n] == Null) && forall j :: 0 <= j < n ==> dc[j] != Null
    ensures AddEntry(dc, child) == if n < |dc| then dc[n := At(child)] else dc
  {
    FirstNullIs(dc, n);
  }

  lemma MoveDown(dc: seq<Ptr>, index: nat, last: nat)
    requires index < |dc| && last < |dc| && index != last
    ensures multiset(dc[index := dc[last]][last := Null]) == multiset(dc) - multiset{dc[index]} + multiset{Null}
  {
    var moved := dc[index := dc[last]];
    assert moved[last] == dc[last];
    assert multiset(moved) == multiset(dc) - multiset{dc[index]} + multiset{dc[last]};
  }

  lemma RemoveKeepsLast(dc: seq<Ptr>, index: nat)
    requires index < |dc| && DoubleStep(dc, 0) == |dc|
    ensures |RemoveAt(dc, index)| == |dc| && RemoveAt(dc, index)[|dc| - 1] == Null
    ensures LastSlotLast(RemoveAt(dc, index))
  {
    hide DoubleStep;
  }

  lemma RemoveLosesOne(dc: seq<Ptr>, index: nat)
    requires index < |dc| && DoubleStep(dc, 0) == |dc|
    ensures multiset(RemoveAt(dc, index)) == multiset(dc) - multiset{dc[index]} + multiset{Null}
  {
    hide DoubleStep;
    if |dc| - 1 != index {
      MoveDown(dc, index, |dc| - 1);
    }
  }

  /** Removing keeps the invariant, and loses exactly the chosen entry: the slot it was in
      becomes empty or takes over the last slot's entry. */
  lemma RemoveKeeps(dc: seq<Ptr>, index: nat)
    requires LastSlotLast(dc) && |dc| % 2 == 0
    requires index < |dc| && dc[index] != Null
    ensures DoubleStep(dc, 0) == |dc|
    ensures LastSlotLast(RemoveAt(dc, index)) && |RemoveAt(dc, index)| == |dc|
    ensures multiset(RemoveAt(dc, index)) == multiset(dc) - multiset{dc[index]} + multiset{Null}
  {
    DoubleStepExact(dc);
    hide RemoveAt, LastSlotLast, DoubleStep;
    RemoveKeepsLast(dc, index);
    RemoveLosesOne(dc, index);
  }

  /** Removing what was just added puts every slot back. */
  lemma RemoveUndoesAdd(dc: seq<Ptr>, child: nat)
    requires LastSlotLast(dc) && |dc| % 2 == 0 && HasRoom(dc)
    ensures var added := AddEntry(dc, child);
            DoubleStep(added, 0) == |added| && RemoveAt(added, FirstNull(dc, 0)) == dc
  {
    var n, last := FirstNull(dc, 0), |dc| - 1;
    AddKeeps(dc, child);
    DoubleStepExact(AddEntry(dc, child));
    assert dc[last] == Null by {
      assert dc[n] == Null;
    }
    hide DoubleStep, FirstNull, LastSlotLast;
    assert dc[n := At(child)][n := Null] == dc;
    assert dc[last := Null] == dc;
  }

  lemma FirstNullIs(dc: seq<Ptr>, r: nat)
    requires r <= |dc|
    requires r < |dc| ==> dc[r] == Null
    requires forall j :: 0 <= j < r ==> dc[j] != Null
    ensures FirstNull(dc, 0) == r
  {}

  // ---- Listing ----

  /** What `sfs_readdir` walks over: the entries before the first empty slot. */
  function Listed(dc: seq<Ptr>): seq<Ptr> {
    dc[..FirstNull(dc, 0)]
  }

  /** The walk sees every entry exactly when no entry comes after a hole. */
  predicate NoHoles(dc: seq<Ptr>) {
    forall i, j :: 0 <= i < j < |dc| && dc[j] != Null ==> dc[i] != Null
  }

  lemma ListedIsEverythingIff(dc: seq<Ptr>)
    requires NoDuplicates(dc)
    ensures (forall e :: e in dc && e != Null ==> e in Listed(dc)) <==> NoHoles(dc)
  {
    var n := FirstNull(dc, 0);
    if NoHoles(dc) {
      forall e | e in dc && e != Null ensures e in Listed(dc) {
        var j :| 0 <= j < |dc| && dc[j] == e;
        assert j < n && Listed(dc)[j] == e;
      }
    }
    if forall e :: e in dc && e != Null ==> e in Listed(dc) {
      forall i, j | 0 <= i < j < |dc| && dc[j] != Null ensures dc[i] != Null {
        assert dc[j] in Listed(dc);
        var l :| 0 <= l < n && dc[l] == dc[j];
      }
    }
  }

  predicate NoDuplicates(dc: seq<Ptr>) {
    forall i, j :: 0 <= i < j < |dc| && dc[i] != Null ==> dc[i] != dc[j]
  }

  /** Adding to a directory appends to its listing, and makes no hole. */
  lemma AddAppends(dc: seq<Ptr>, child: nat)
    requires HasRoom(dc) && NoHoles(dc)
    ensures Listed(AddEntry(dc, child)) == Listed(dc) + [At(child)]
    ensures NoHoles(AddEntry(dc, child))
  {
    var n := FirstNull(dc, 0);
    var dc' := AddEntry(dc, child);
    assert n + 1 < |dc| ==> dc[n + 1] == Null;
    FirstNullIs(dc', n + 1);
  }

  /** What a removal writes: the slot is cleared, or takes over the entry of a full array's
      last slot. */
  lemma RemovedSlots(dc: seq<Ptr>, index: nat)
    requires LastSlotLast(dc) && |dc| % 2 == 0 && index < |dc| && dc[index] != Null
    ensures DoubleStep(dc, 0) == |dc|
    ensures var last := |dc| - 1;
            RemoveAt(dc, index) ==
            if HasRoom(dc) || index == last then dc[index := Null] else dc[index := dc[last]][last := Null]
  {
    DoubleStepExact(dc);
    hide DoubleStep;
  }

  /** Removing from a directory that is not full cuts its listing off at the removed entry; in
      a full one the last entry takes the place of the removed one. */
  lemma RemoveTruncates(dc: seq<Ptr>, index: nat)
    requires LastSlotLast(dc) && |dc| % 2 == 0 && index < FirstNull(dc, 0)
    ensures DoubleStep(dc, 0) == |dc|
    ensures var last := |dc| - 1;
            Listed(RemoveAt(dc, index)) ==
            if HasRoom(dc) then Listed(dc)[..index]
            else if index == last then dc[..last]
            else dc[..last][index := dc[last]]
  {
    RemovedSlots(dc, index);
    FirstNullIs(RemoveAt(dc, index), if HasRoom(dc) then index else |dc| - 1);
  }

  /** Nothing is hidden behind the slot that a removal clears: no entry comes after it and no
      hole before it. A full array closes the gap itself. */
  predicate Closes(dc: seq<Ptr>, index: nat)
    requires index < |dc|
  {
    !HasRoom(dc) ||
    ((forall i, j :: 0 <= i < j < index && dc[j] != Null ==> dc[i] != Null) &&
     (forall j :: index < j < |dc| ==> dc[j] == Null))
  }

  /** Exactly when the listing is complete after a removal. */
  lemma RemoveKeepsNoHolesIff(dc: seq<Ptr>, index: nat)
    requires LastSlotLast(dc) && |dc| % 2 == 0 && index < |dc| && dc[index] != Null
    ensures DoubleStep(dc, 0) == |dc|
    ensures NoHoles(RemoveAt(dc, index)) <==> Closes(dc, index)
  {
    RemovedSlots(dc, index);
    hide DoubleStep, RemoveAt;
    var r := RemoveAt(dc, index);
    if HasRoom(dc) && NoHoles(r) {
      assert r[index] == Null;
      forall j | index < j < |dc| ensures dc[j] == Null {
        assert r[j] == dc[j];
      }
      forall i, j | 0 <= i < j < index && dc[j] != Null ensures dc[i] != Null {
        assert r[i] == dc[i] && r[j] == dc[j];
      }
    }
  }

  /** In an array without holes only the last entry can be taken out, unless it is full. */
  lemma ClosesWithoutHoles(dc: seq<Ptr>, index: nat)
    requires NoHoles(dc) && index < FirstNull(dc, 0)
    ensures Closes(dc, index) <==> !HasRoom(dc) || index + 1 == FirstNull(dc, 0)
  {
    var n := FirstNull(dc, 0);
    if index + 1 < n {
      assert dc[index + 1] != Null;
    }
  }
}
