/** The registry of slot sets (the global vector `inf_list`) and the driver
    operations that the target operations call: each resolves the caller's
    inferior to its slot set, creating an empty one on first use, and works on
    that set alone. */
module Registry {

  import opened Common
  import opened HwBreakpoint
  import opened SlotSets
  import opened Allocator

  /** The abstract value of one registry entry. */
  datatype SlotSet = SlotSet(id: Ptid, slots: Slots)

  /** Position of the entry for `id` (ptid_equal compares the whole ptid). */
  function IndexOfId(v: seq<SlotSet>, id: Ptid): (r: Option<nat>)
    ensures r.Some? ==> r.value < |v| && v[r.value].id == id
    ensures r.None? <==> forall j :: 0 <= j < |v| ==> v[j].id != id
  {
    FirstWhere(v, (e: SlotSet) => e.id == id)
  }

  /** Position of the first entry of process `pid`, whatever its thread. */
  function IndexOfPid(v: seq<SlotSet>, pid: int): (r: Option<nat>)
    ensures r.Some? ==> r.value < |v| && v[r.value].id.pid == pid
    ensures r.Some? ==> forall j :: 0 <= j < r.value ==> v[j].id.pid != pid
    ensures r.None? <==> forall j :: 0 <= j < |v| ==> v[j].id.pid != pid
  {
    FirstWhere(v, (e: SlotSet) => e.id.pid == pid)
  }

  /** Registry invariant: one entry per ptid, four positions per entry and no
      identity stored twice in an entry. */
  ghost predicate WellFormed(v: seq<SlotSet>)
  {
    (forall i, j :: 0 <= i < j < |v| ==> v[i].id != v[j].id) &&
    (forall i :: 0 <= i < |v| ==> |v[i].slots| == MaxHwBps && NoDuplicates(v[i].slots))
  }

  /** The registry after sparc_linux_get_inferior_bps(id): it holds an entry
      for `id` afterwards. */
  function WithInferior(v: seq<SlotSet>, id: Ptid): (r: seq<SlotSet>)
    ensures IndexOfId(r, id).Some?
  {
    if IndexOfId(v, id).Some? then v
    else
      var r := v + [SlotSet(id, EmptySlots())];
      assert ((e: SlotSet) => e.id == id)(r[|v|]);
      r
  }

  /** Position of the entry that sparc_linux_get_inferior_bps(id) returns. */
  function Position(v: seq<SlotSet>, id: Ptid): nat
  {
    IndexOfId(WithInferior(v, id), id).value
  }

  /** The slot set an operation on `id` works on. */
  function SlotsOf(v: seq<SlotSet>, id: Ptid): Slots
  {
    WithInferior(v, id)[Position(v, id)].slots
  }

  /** The registry after an operation on `id` leaves that inferior's set holding `slots`. */
  function WithSlots(v: seq<SlotSet>, id: Ptid, slots: Slots): seq<SlotSet>
  {
    WithInferior(v, id)[Position(v, id) := SlotSet(id, slots)]
  }

  /** Get-or-create returns the entry the registry already holds for `id`;
      otherwise it appends one entry whose positions are all empty. Existing
      entries are unchanged either way and there is never a second entry for `id`. */
  lemma GetOrCreateFindsOrAppends(v: seq<SlotSet>, id: Ptid)
    requires WellFormed(v)
    ensures var r := WithInferior(v, id);
      WellFormed(r) && |v| <= |r| <= |v| + 1 && r[..|v|] == v &&
      r[Position(v, id)].id == id &&
      (forall i :: 0 <= i < |r| && r[i].id == id ==> i == Position(v, id))
    ensures IndexOfId(v, id).Some? ==> WithInferior(v, id) == v && Position(v, id) == IndexOfId(v, id).value
    ensures IndexOfId(v, id).None? ==> |WithInferior(v, id)| == |v| + 1 && Position(v, id) == |v| && SlotsOf(v, id) == EmptySlots()
  {
    var r := WithInferior(v, id);
    if IndexOfId(v, id).None? {
      assert forall i :: 0 <= i < |v| ==> v[i].id != id;
      assert r[..|v|] == v;
    }
  }

  /** An operation on `id` changes that inferior's entry only: the entries of
      all other inferiors keep their place and contents, and the invariant is
      kept when the new contents keep it. */
  lemma OtherInferiorsUntouched(v: seq<SlotSet>, id: Ptid, slots: Slots)
    requires WellFormed(v)
    ensures var r := WithSlots(v, id, slots);
      |r| == |WithInferior(v, id)| && r[Position(v, id)] == SlotSet(id, slots) &&
      forall j :: 0 <= j < |v| && v[j].id != id ==> r[j] == v[j]
    ensures |slots| == MaxHwBps && NoDuplicates(slots) ==> WellFormed(WithSlots(v, id, slots))
    ensures WithSlots(v, id, SlotsOf(v, id)) == WithInferior(v, id)
  {
    GetOrCreateFindsOrAppends(v, id);
    var w := WithInferior(v, id);
    forall j | 0 <= j < |v| && v[j].id != id ensures j != Position(v, id) && w[j] == v[j] {
      assert w[..|v|][j] == v[j];
    }
  }

  /** Dropping one entry keeps the registry invariant. */
  lemma WellFormedDrop(v: seq<SlotSet>, i: nat)
    requires i < |v| && WellFormed(v)
    ensures WellFormed(v[..i] + v[i + 1..])
  {
    var w := v[..i] + v[i + 1..];
    assert forall j :: 0 <= j < |w| ==> w[j] == v[if j < i then j else j + 1];
  }

  /** The registry after the source's sparc_linux_forget_process(pid): the
      first entry of process `pid` removed, or no change. */
  function ForgetFirst(v: seq<SlotSet>, pid: int): (r: seq<SlotSet>)
    ensures IndexOfPid(v, pid).None? ==> r == v
    ensures IndexOfPid(v, pid).Some? ==> |r| == |v| - 1
    ensures IndexOfPid(v, pid).Some? ==> multiset(v) == multiset(r) + multiset{v[IndexOfPid(v, pid).value]}
  {
    match IndexOfPid(v, pid)
    case None => v
    case Some(i) =>
      assert v == v[..i] + [v[i]] + v[i + 1..];
      v[..i] + v[i + 1..]
  }

  /** The registry with every entry of process `pid` removed. */
  function ForgetAll(v: seq<SlotSet>, pid: int): (r: seq<SlotSet>)
    ensures |r| <= |v|
    ensures forall i :: 0 <= i < |r| ==> r[i].id.pid != pid
    ensures forall x :: x in r <==> x in v && x.id.pid != pid
  {
    if v == [] then []
    else (if v[0].id.pid == pid then [] else [v[0]]) + ForgetAll(v[1..], pid)
  }

  /** Removing the entries of `pid` keeps the other entries in their relative
      order: the removal distributes over concatenation. */
  lemma {:induction false} ForgetAllKeepsOrder(a: seq<SlotSet>, b: seq<SlotSet>, pid: int)
    ensures ForgetAll(a + b, pid) == ForgetAll(a, pid) + ForgetAll(b, pid)
  {
    if a == [] {
      assert a + b == b;
    } else {
      assert (a + b)[0] == a[0] && (a + b)[1..] == a[1..] + b;
      ForgetAllKeepsOrder(a[1..], b, pid);
    }
  }

  /** Removing the entries of `pid` a second time changes nothing. */
  lemma {:induction false} ForgetAllIdempotent(v: seq<SlotSet>, pid: int)
    ensures ForgetAll(ForgetAll(v, pid), pid) == ForgetAll(v, pid)
  {
    if v != [] {
      ForgetAllIdempotent(v[1..], pid);
      var head := if v[0].id.pid == pid then [] else [v[0]];
      ForgetAllKeepsOrder(head, ForgetAll(v[1..], pid), pid);
      assert ForgetAll(head, pid) == head by {
        if head != [] {
          assert head[1..] == [];
        }
      }
    }
  }

  /** A registry without entries of `pid` is its own filter. */
  lemma {:induction false} ForgetAllAbsent(v: seq<SlotSet>, pid: int)
    requires IndexOfPid(v, pid).None?
    ensures ForgetAll(v, pid) == v
  {
    if v != [] {
      assert IndexOfPid(v[1..], pid).None? by {
        assert forall j :: 0 <= j < |v[1..]| ==> v[1..][j] == v[j + 1];
      }
      ForgetAllAbsent(v[1..], pid);
    }
  }

  /** Dropping one entry of `pid` does not change what removing all its
      entries gives. */
  lemma ForgetAllDropsOne(v: seq<SlotSet>, pid: int, i: nat)
    requires i < |v| && v[i].id.pid == pid
    ensures ForgetAll(v[..i] + v[i + 1..], pid) == ForgetAll(v, pid)
  {
    assert ForgetAll([v[i]], pid) == [] by {
      assert [v[i]][1..] == [];
    }
    calc {
      ForgetAll(v, pid);
      { assert v == v[..i] + ([v[i]] + v[i + 1..]); }
      ForgetAll(v[..i] + ([v[i]] + v[i + 1..]), pid);
      { ForgetAllKeepsOrder(v[..i], [v[i]] + v[i + 1..], pid); }
      ForgetAll(v[..i], pid) + ForgetAll([v[i]] + v[i + 1..], pid);
      { ForgetAllKeepsOrder([v[i]], v[i + 1..], pid); }
      ForgetAll(v[..i], pid) + ForgetAll(v[i + 1..], pid);
      { ForgetAllKeepsOrder(v[..i], v[i + 1..], pid); }
      ForgetAll(v[..i] + v[i + 1..], pid);
    }
  }

  /** One step of the source's forget brings the registry no further from the
      full removal; so repeating it until it changes nothing removes every entry. */
  lemma ForgetFirstStep(v: seq<SlotSet>, pid: int)
    ensures ForgetAll(ForgetFirst(v, pid), pid) == ForgetAll(v, pid)
    ensures IndexOfPid(v, pid).None? ==> ForgetFirst(v, pid) == v == ForgetAll(v, pid)
  {
    match IndexOfPid(v, pid)
    case None => ForgetAllAbsent(v, pid);
    case Some(i) => ForgetAllDropsOne(v, pid, i);
  }

  /** While every process has at most one entry, the source's forget removes
      every entry of `pid` and calling it again changes nothing. */
  lemma ForgetFirstWhenOneEntryPerPid(v: seq<SlotSet>, pid: int)
    requires forall i, j :: 0 <= i < j < |v| ==> v[i].id.pid != v[j].id.pid
    ensures ForgetFirst(v, pid) == ForgetAll(v, pid)
    ensures ForgetFirst(ForgetFirst(v, pid), pid) == ForgetFirst(v, pid)
  {
    ForgetFirstStep(v, pid);
    match IndexOfPid(v, pid)
    case None =>
    case Some(i) =>
      var w := ForgetFirst(v, pid);
      assert IndexOfPid(w, pid).None? by {
        forall j | 0 <= j < |w| ensures w[j].id.pid != pid {
          if j < i { assert w[j] == v[j]; } else { assert w[j] == v[j + 1]; }
        }
      }
      ForgetFirstStep(w, pid);
  }

  /** Once every entry of a process is released, the next operation on any of
      its threads starts from an empty slot set. */
  lemma ForgottenInferiorStartsEmpty(v: seq<SlotSet>, id: Ptid)
    ensures SlotsOf(ForgetAll(v, id.pid), id) == EmptySlots()
  {
    var w := ForgetAll(v, id.pid);
    assert IndexOfId(w, id).None? by {
      forall j | 0 <= j < |w| ensures w[j].id != id {
        assert w[j].id.pid != id.pid;
      }
    }
    var r := w + [SlotSet(id, EmptySlots())];
    assert IndexOfId(r, id) == Some(|w|) by {
      assert ((e: SlotSet) => e.id == id)(r[|w|]);
      forall j | 0 <= j < |w| ensures r[j].id != id {
        assert r[j] == w[j];
      }
    }
  }

  /** The source's forget leaves behind a second entry of the same process
      (another of its threads). */
  lemma ForgetFirstLeavesSibling()
    ensures var v := [SlotSet(Ptid(7, 7, 0), EmptySlots()), SlotSet(Ptid(7, 8, 0), EmptySlots())];
      ForgetFirst(v, 7) == [SlotSet(Ptid(7, 8, 0), EmptySlots())] && ForgetAll(v, 7) == []
  {
    var v := [SlotSet(Ptid(7, 7, 0), EmptySlots()), SlotSet(Ptid(7, 8, 0), EmptySlots())];
    assert IndexOfPid(v, 7) == Some(0);
    assert v[1..][1..] == [];
  }

  /** The registry (the vector `inf_list`, and the slot sets it points to). */
  class BreakpointRegistry {
    var sets: seq<InferiorBps>

    ghost function Arrays(): set<array<Option<HwBreakpoint>>>
      reads this
    {
      set i | 0 <= i < |sets| :: sets[i].bps
    }

    ghost function View(): (v: seq<SlotSet>)
      reads this, Arrays()
      ensures |v| == |sets|
      ensures forall i :: 0 <= i < |sets| ==> v[i] == SlotSet(sets[i].id, sets[i].bps[..])
    {
      seq(|sets|, i requires 0 <= i < |sets| reads this, Arrays() => SlotSet(sets[i].id, sets[i].bps[..]))
    }

    ghost predicate Valid()
      reads this, Arrays()
    {
      (forall i :: 0 <= i < |sets| ==> sets[i].Valid()) &&
      (forall i, j :: 0 <= i < j < |sets| ==> sets[i].bps != sets[j].bps) &&
      WellFormed(View())
    }

    /** The empty registry (inf_list starts out NULL). */
    constructor ()
      ensures Valid() && View() == []
    {
      sets := [];
    }

    /** sparc_linux_get_inferior_bps. */
    method GetInferiorBps(id: Ptid) returns (inf: InferiorBps)
      requires Valid()
      modifies this
      ensures Valid()
      ensures View() == WithInferior(old(View()), id)
      ensures Position(old(View()), id) < |sets| && sets[Position(old(View()), id)] == inf
      ensures inf.id == id && inf.Valid() && inf.bps[..] == SlotsOf(old(View()), id)
      ensures sets == old(sets) || (sets == old(sets) + [inf] && fresh(inf.bps))
    {
      GetOrCreateFindsOrAppends(View(), id);
      for i := 0 to |sets|
        invariant forall j :: 0 <= j < i ==> sets[j].id != id
      {
        if sets[i].id == id {
          assert ((e: SlotSet) => e.id == id)(View()[i]);
          return sets[i];
        }
      }
      ghost var v := View();
      inf := new InferiorBps(id);
      sets := sets + [inf];
      assert View() == v + [SlotSet(id, EmptySlots())];
    }

    /** sparc_linux_insert_hw_breakpoint_1 for inferior `id`. `install` is the
        result of the install request. The mask request's result `maskResult`
        is ignored, as in the source. A failed install is rolled back. */
    method InsertHwBreakpoint1(id: Ptid, address: CoreAddr, kind: BpType, mask: Word, install: int, maskResult: int)
      returns (r: int, calls: seq<Call>)
      requires Valid()
      modifies this, Arrays()
      ensures Valid()
      ensures var o := InsertDriver(SlotsOf(old(View()), id), id.pid, Truncate32(address), kind, mask, install);
        r == o.r && calls == o.calls && View() == WithSlots(old(View()), id, o.slots)
    {
      ghost var v0 := View();
      var inf := GetInferiorBps(id);
      ghost var k := Position(v0, id);
      ghost var s := inf.bps[..];
      assert NoDuplicates(s) by {
        assert View()[k].slots == s;
      }
      InsertKeepsNoDuplicates(s, id.pid, Truncate32(address), kind, mask, install);
      r, calls := inf.InsertHw(id.pid, Truncate32(address), kind, mask, install, maskResult);
      SlotsReplaced(v0, id, inf.bps[..]);
    }

    /** sparc_linux_remove_hw_breakpoint_1 for the identity (`address`, `kind`)
        in inferior `id`. `removal` is the result of the remove request. */
    method RemoveHwBreakpoint1(id: Ptid, address: Word, kind: BpType, removal: int) returns (r: int, calls: seq<Call>)
      requires Valid()
      modifies this, Arrays()
      ensures Valid()
      ensures var o := RemoveDriver(SlotsOf(old(View()), id), id.pid, address, kind, removal);
        r == o.r && calls == o.calls && View() == WithSlots(old(View()), id, o.slots)
    {
      ghost var v0 := View();
      var inf := GetInferiorBps(id);
      ghost var k := Position(v0, id);
      ghost var s := inf.bps[..];
      assert NoDuplicates(s) by {
        assert View()[k].slots == s;
      }
      RemoveKeepsNoDuplicates(s, id.pid, address, kind, removal);
      r, calls := inf.RemoveHw(id.pid, address, kind, removal);
      SlotsReplaced(v0, id, inf.bps[..]);
    }

    /** sparc_linux_insert_hw_breakpoint: an execute breakpoint at the aligned
        requested address, which is also reported back as the placed address. */
    method InsertHwBreakpoint(id: Ptid, reqstdAddress: CoreAddr, install: int, maskResult: int)
      returns (r: int, placedAddress: CoreAddr, calls: seq<Call>)
      requires Valid()
      modifies this, Arrays()
      ensures Valid()
      ensures placedAddress == PlaceAddr(reqstdAddress)
      ensures var o := InsertDriver(SlotsOf(old(View()), id), id.pid, placedAddress, Execute, 0, install);
        r == o.r && calls == o.calls && View() == WithSlots(old(View()), id, o.slots)
    {
      placedAddress := PlaceAddr(reqstdAddress);
      r, calls := InsertHwBreakpoint1(id, placedAddress, Execute, 0, install, maskResult);
    }

    /** sparc_linux_remove_hw_breakpoint: the execute breakpoint at the placed address. */
    method RemoveHwBreakpoint(id: Ptid, placedAddress: CoreAddr, removal: int) returns (r: int, calls: seq<Call>)
      requires Valid()
      modifies this, Arrays()
      ensures Valid()
      ensures var o := RemoveDriver(SlotsOf(old(View()), id), id.pid, Truncate32(placedAddress), Execute, removal);
        r == o.r && calls == o.calls && View() == WithSlots(old(View()), id, o.slots)
    {
      r, calls := RemoveHwBreakpoint1(id, Truncate32(placedAddress), Execute, removal);
    }

    /** sparc_linux_insert_watchpoint: the aligned address, no mask; the length
        is not used. */
    method InsertWatchpoint(id: Ptid, addr: CoreAddr, len: int, kind: BpType, install: int, maskResult: int)
      returns (r: int, calls: seq<Call>)
      requires Valid()
      modifies this, Arrays()
      ensures Valid()
      ensures var o := Allocator.InsertWatchpoint(SlotsOf(old(View()), id), id.pid, addr, kind, install);
        r == o.r && calls == o.calls && View() == WithSlots(old(View()), id, o.slots)
    {
      r, calls := InsertHwBreakpoint1(id, PlaceAddr(addr), kind, 0, install, maskResult);
    }

    /** sparc_linux_remove_watchpoint, with the address aligned as on insertion
        (the source passes it unaligned). */
    method RemoveWatchpoint(id: Ptid, addr: CoreAddr, len: int, kind: BpType, removal: int) returns (r: int, calls: seq<Call>)
      requires Valid()
      modifies this, Arrays()
      ensures Valid()
      ensures var o := Allocator.RemoveWatchpoint(SlotsOf(old(View()), id), id.pid, addr, kind, removal);
        r == o.r && calls == o.calls && View() == WithSlots(old(View()), id, o.slots)
    {
      r, calls := RemoveHwBreakpoint1(id, PlaceAddr(addr), kind, removal);
    }

    /** sparc_linux_insert_mask_watchpoint: the aligned address with the mask
        truncated to 32 bits. */
    method InsertMaskWatchpoint(id: Ptid, addr: CoreAddr, mask: CoreAddr, kind: BpType, install: int, maskResult: int)
      returns (r: int, calls: seq<Call>)
      requires Valid()
      modifies this, Arrays()
      ensures Valid()
      ensures var o := InsertDriver(SlotsOf(old(View()), id), id.pid, PlaceAddr(addr), kind, Truncate32(mask), install);
        r == o.r && calls == o.calls && View() == WithSlots(old(View()), id, o.slots)
    {
      r, calls := InsertHwBreakpoint1(id, PlaceAddr(addr), kind, Truncate32(mask), install, maskResult);
    }

    /** sparc_linux_remove_mask_watchpoint: identity is (address, type), so the
        mask is not used; the address is aligned as on insertion (the source
        passes it unaligned). */
    method RemoveMaskWatchpoint(id: Ptid, addr: CoreAddr, mask: CoreAddr, kind: BpType, removal: int)
      returns (r: int, calls: seq<Call>)
      requires Valid()
      modifies this, Arrays()
      ensures Valid()
      ensures var o := Allocator.RemoveWatchpoint(SlotsOf(old(View()), id), id.pid, addr, kind, removal);
        r == o.r && calls == o.calls && View() == WithSlots(old(View()), id, o.slots)
    {
      r, calls := RemoveHwBreakpoint1(id, PlaceAddr(addr), kind, removal);
    }

    /** sparc_linux_stopped_by_watchpoint for inferior `id`, given the pending
        signal `signo` and fault address `siAddr`. The slot set is resolved (and
        created if missing) only for a trap. */
    method StoppedByWatchpoint(id: Ptid, signo: int, siAddr: CoreAddr) returns (r: bool)
      requires Valid()
      modifies this
      ensures Valid()
      ensures r == WatchpointStop(signo, siAddr, SlotsOf(old(View()), id))
      ensures View() == if signo == SigTrap then WithInferior(old(View()), id) else old(View())
    {
      if signo != SigTrap {
        return false;
      }
      ghost var v0 := View();
      var inf := GetInferiorBps(id);
      assert inf.bps[..] == SlotsOf(v0, id);
      var bp := inf.GetBreakpoint(NewRecord(Truncate32(siAddr), Execute));
      assert Valid();
      r := bp.None?;
    }

    /** The search loop of sparc_linux_forget_process: the position of the
        first entry of process `pid`, or the number of entries when there is none. */
    method IndexOfProcess(pid: int) returns (i: nat)
      requires Valid()
      ensures i <= |sets|
      ensures i == |sets| <==> IndexOfPid(View(), pid).None?
      ensures i < |sets| ==> IndexOfPid(View(), pid) == Some(i)
    {
      i := 0;
      while i < |sets| && sets[i].id.pid != pid
        invariant 0 <= i <= |sets|
        invariant forall j :: 0 <= j < i ==> sets[j].id.pid != pid
      {
        i := i + 1;
      }
      if i < |sets| {
        assert ((e: SlotSet) => e.id.pid == pid)(View()[i]);
      }
    }

    /** sparc_linux_forget_process as written: the first entry whose ptid has
        process id `pid` is emptied and removed from the registry; when there
        is none nothing happens. */
    method ForgetProcessAsWritten(pid: int)
      requires Valid()
      modifies this, Arrays()
      ensures Valid()
      ensures View() == ForgetFirst(old(View()), pid)
      ensures IndexOfPid(old(View()), pid).None? ==> sets == old(sets)
      ensures IndexOfPid(old(View()), pid).Some? ==>
        |sets| == |old(sets)| - 1 && old(sets)[IndexOfPid(old(View()), pid).value].bps[..] == EmptySlots()
      ensures Arrays() <= old(Arrays())
    {
      ghost var v := View();
      var i := IndexOfProcess(pid);
      if i == |sets| {
        return;
      }
      ghost var before := sets;
      var inf := sets[i];
      assert forall j :: 0 <= j < |before| && j != i ==> before[j].bps != inf.bps;
      inf.Clear();
      assert forall j :: 0 <= j < |before| && j != i ==> v[j] == SlotSet(before[j].id, before[j].bps[..]);
      sets := sets[..i] + sets[i + 1..];
      EntryDropped(v, before, i);
      assert ForgetFirst(v, pid) == v[..i] + v[i + 1..];
    }

    /** Dropping entry `i` from the registry (whose other slot arrays are
        untouched) leaves the other entries in order and the invariant intact. */
    lemma EntryDropped(v: seq<SlotSet>, before: seq<InferiorBps>, i: nat)
      requires i < |before| == |v| && sets == before[..i] + before[i + 1..]
      requires WellFormed(v)
      requires forall j :: 0 <= j < |before| && j != i ==> v[j] == SlotSet(before[j].id, before[j].bps[..])
      requires forall j :: 0 <= j < |before| ==> before[j].Valid()
      requires forall a, b :: 0 <= a < b < |before| ==> before[a].bps != before[b].bps
      ensures Valid() && View() == v[..i] + v[i + 1..]
      ensures Arrays() <= set j | 0 <= j < |before| :: before[j].bps
    {
      WellFormedDrop(v, i);
      assert forall j :: 0 <= j < |sets| ==> sets[j] == before[if j < i then j else j + 1];
      assert View() == v[..i] + v[i + 1..];
    }

    /** sparc_linux_forget_process with every entry of process `pid` released:
        the source's step repeated until it changes nothing. */
    method ForgetProcess(pid: int)
      requires Valid()
      modifies this, Arrays()
      ensures Valid()
      ensures View() == ForgetAll(old(View()), pid)
    {
      var before: nat := |sets| + 1;
      while |sets| < before
        invariant Valid()
        invariant Arrays() <= old(Arrays())
        invariant ForgetAll(View(), pid) == ForgetAll(old(View()), pid)
        invariant |sets| < before || IndexOfPid(View(), pid).None?
        decreases before
      {
        before := |sets|;
        ghost var v := View();
        ForgetProcessAsWritten(pid);
        ForgetFirstStep(v, pid);
      }
      ForgetFirstStep(View(), pid);
    }

    /** After an operation has written the slot array of the entry for `id`
        alone, leaving it holding `t`, the registry is `WithSlots(v0, id, t)`
        and, when `t` keeps the per-entry invariant, valid again. */
    lemma SlotsReplaced(v0: seq<SlotSet>, id: Ptid, t: Slots)
      requires WellFormed(v0)
      requires forall i :: 0 <= i < |sets| ==> sets[i].Valid()
      requires forall i, j :: 0 <= i < j < |sets| ==> sets[i].bps != sets[j].bps
      requires |sets| == |WithInferior(v0, id)|
      requires forall j :: 0 <= j < |sets| && j != Position(v0, id) ==>
        WithInferior(v0, id)[j] == SlotSet(sets[j].id, sets[j].bps[..])
      requires sets[Position(v0, id)].id == id && sets[Position(v0, id)].bps[..] == t
      requires NoDuplicates(t)
      ensures Valid() && View() == WithSlots(v0, id, t)
    {
      OtherInferiorsUntouched(v0, id, t);
      assert View() == WithSlots(v0, id, t);
    }
  }
}
