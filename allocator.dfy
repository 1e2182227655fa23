/** What the insert and remove drivers and the trap attributor do to one slot
    set, as functions of the set's contents and of the results the
    process-control (ptrace) calls report. The calls themselves are not made
    here: each driver returns the requests it issues, in order. */
module Allocator {

  import opened Common
  import opened HwBreakpoint
  import opened SlotSets

  /** A request to the process-control call (PTRACE_SETHBREGS): install a
      breakpoint of `kind` at `address`; program `mask` into `slot`; or clear
      `slot`. */
  datatype Call =
    | Install(pid: int, address: Word, kind: BpType)
    | ProgramMask(pid: int, mask: Word, slot: int)
    | RemoveSlot(pid: int, slot: int)

  /** A driver's return value, the slot set's new contents and the requests issued. */
  datatype Outcome = Outcome(r: int, slots: Slots, calls: seq<Call>)

  /** sparc_linux_insert_hw_breakpoint_1 on the slot set `s` of process `pid`;
      `install` is what the install request returns (a slot index, or negative
      on failure). A failed install is rolled back. The result of the
      mask-programming request is ignored by the source, so it is no input. */
  function InsertDriver(s: Slots, pid: int, address: Word, kind: BpType, mask: Word, install: int): (o: Outcome)
    ensures o.r == 0 || o.r == -1
    ensures |o.slots| == |s|
    ensures o.r == -1 ==> o.slots == s
    ensures o.calls == [] <==> Lookup(s, NewRecord(address, kind)).Some? || FirstFree(s).None?
    ensures o.calls != [] ==> o.calls[0] == Install(pid, address, kind)
  {
    var bp := NewRecord(address, kind);
    if Lookup(s, bp).Some? then Outcome(-1, s, [])
    else match FirstFree(s)
      case None => Outcome(-1, s, [])
      case Some(k) =>
        if install < 0 then Outcome(-1, s, [Install(pid, address, kind)])
        else Outcome(0, s[k := Some(bp.(hwSlot := install, mask := mask))],
                     [Install(pid, address, kind)] + (if mask != 0 then [ProgramMask(pid, mask, install)] else []))
  }

  /** sparc_linux_remove_hw_breakpoint_1 for the identity (`address`, `kind`);
      `removal` is what the remove request returns. */
  function RemoveDriver(s: Slots, pid: int, address: Word, kind: BpType, removal: int): (o: Outcome)
    ensures o.r == 0 || o.r == -1
    ensures |o.slots| == |s|
    ensures o.calls == [] <==> Lookup(s, NewRecord(address, kind)).None?
    ensures o.calls == [] ==> o.r == -1 && o.slots == s
    ensures o.calls != [] ==> |o.calls| == 1 && o.calls[0].RemoveSlot? && (o.r == -1 <==> removal < 0)
  {
    match Lookup(s, NewRecord(address, kind))
    case None => Outcome(-1, s, [])
    case Some(bp) => Outcome(if removal < 0 then -1 else 0, Removed(s, bp), [RemoveSlot(pid, bp.hwSlot)])
  }

  /** A duplicate (address, type) is refused with -1 before any request is
      issued, whatever the mask and the install result. */
  lemma InsertRejectsDuplicate(s: Slots, pid: int, address: Word, kind: BpType, mask: Word, install: int, other: HwBreakpoint)
    requires Some(other) in s && other.address == address && other.kind == kind
    ensures InsertDriver(s, pid, address, kind, mask, install) == Outcome(-1, s, [])
  {
    var i :| 0 <= i < |s| && s[i] == Some(other);
    assert Matches(s[i], NewRecord(address, kind));
  }

  /** A set whose every position is occupied refuses a new identity with -1
      before any request is issued. */
  lemma InsertRejectsWhenFull(s: Slots, pid: int, address: Word, kind: BpType, mask: Word, install: int)
    requires Occupied(s) == |s|
    ensures InsertDriver(s, pid, address, kind, mask, install) == Outcome(-1, s, [])
  {
    FullIffAllOccupied(s);
  }

  /** When the install request fails the contents are as before and the result
      is -1. */
  lemma InsertRollsBack(s: Slots, pid: int, address: Word, kind: BpType, mask: Word, install: int)
    requires install < 0
    ensures InsertDriver(s, pid, address, kind, mask, install).r == -1
    ensures InsertDriver(s, pid, address, kind, mask, install).slots == s
    ensures InsertDriver(s, pid, address, kind, mask, install).calls in {[], [Install(pid, address, kind)]}
  {
  }

  /** The insert driver succeeds exactly when the identity is new, a position is
      free and the install request succeeds. Then the lowest free position holds
      the record with the returned slot index and the mask, the other positions
      are unchanged, one more position is occupied and identities stay distinct. */
  lemma InsertSucceeds(s: Slots, pid: int, address: Word, kind: BpType, mask: Word, install: int)
    ensures var o := InsertDriver(s, pid, address, kind, mask, install);
      (o.r == 0 || o.r == -1) &&
      (o.r == 0 <==> Lookup(s, NewRecord(address, kind)).None? && Occupied(s) < |s| && install >= 0)
    ensures var o := InsertDriver(s, pid, address, kind, mask, install);
      o.r == 0 ==>
        var k := FirstFree(s).value;
        k < |s| && s[k].None? && (forall j :: 0 <= j < k ==> s[j].Some?) &&
        |o.slots| == |s| && o.slots[k] == Some(HwBreakpoint(address, mask, kind, true, install)) &&
        (forall j :: 0 <= j < |s| && j != k ==> o.slots[j] == s[j]) &&
        Occupied(o.slots) == Occupied(s) + 1
  {
    var bp := NewRecord(address, kind);
    var o := InsertDriver(s, pid, address, kind, mask, install);
    FullIffAllOccupied(s);
    OccupiedBound(s);
    if o.r == 0 {
      var k := FirstFree(s).value;
      var rec := bp.(hwSlot := install, mask := mask);
      PlacedFillsLowestFree(s, rec);
      assert o.slots == Placed(s, rec);
      assert forall j :: 0 <= j < |s| ==> !Matches(s[j], bp);
    }
  }

  /** The insert driver never stores an identity twice. */
  lemma InsertKeepsNoDuplicates(s: Slots, pid: int, address: Word, kind: BpType, mask: Word, install: int)
    requires NoDuplicates(s)
    ensures NoDuplicates(InsertDriver(s, pid, address, kind, mask, install).slots)
  {
    var o := InsertDriver(s, pid, address, kind, mask, install);
    if o.r == 0 {
      InsertSucceeds(s, pid, address, kind, mask, install);
      assert forall j :: 0 <= j < |s| ==> !Matches(s[j], NewRecord(address, kind));
    }
  }

  /** The install request names the address and type; a non-zero mask is then
      programmed into the slot the install returned, with the requested mask.
      Its outcome does not affect the result. */
  lemma InsertProgramsMask(s: Slots, pid: int, address: Word, kind: BpType, mask: Word, install: int)
    requires InsertDriver(s, pid, address, kind, mask, install).r == 0
    ensures mask != 0 ==> InsertDriver(s, pid, address, kind, mask, install).calls == [Install(pid, address, kind), ProgramMask(pid, mask, install)]
    ensures mask == 0 ==> InsertDriver(s, pid, address, kind, mask, install).calls == [Install(pid, address, kind)]
  {
  }

  /** Removal of an identity that is not stored returns -1, issues nothing and
      changes nothing. When it is stored, its position is emptied whatever the
      remove request reports, the request names the record's slot, and the
      result is -1 exactly when the request reported a negative value. */
  lemma RemoveEmptiesMatch(s: Slots, pid: int, address: Word, kind: BpType, removal: int)
    ensures var o := RemoveDriver(s, pid, address, kind, removal);
      Find(s, NewRecord(address, kind)).None? ==> o == Outcome(-1, s, [])
    ensures var o := RemoveDriver(s, pid, address, kind, removal);
      Find(s, NewRecord(address, kind)).Some? ==>
        var k := Find(s, NewRecord(address, kind)).value;
        k < |s| && s[k].Some? && s[k].value.address == address && s[k].value.kind == kind &&
        |o.slots| == |s| && o.slots[k].None? &&
        (forall j :: 0 <= j < |s| && j != k ==> o.slots[j] == s[j]) &&
        Occupied(o.slots) == Occupied(s) - 1 &&
        o.calls == [RemoveSlot(pid, s[k].value.hwSlot)] &&
        (o.r == -1 <==> removal < 0) && (o.r == 0 <==> removal >= 0)
    ensures NoDuplicates(s) ==> Lookup(RemoveDriver(s, pid, address, kind, removal).slots, NewRecord(address, kind)).None?
  {
    var q := NewRecord(address, kind);
    var o := RemoveDriver(s, pid, address, kind, removal);
    if Find(s, q).Some? {
      var k := Find(s, q).value;
      var bp := s[k].value;
      assert FindRecord(s, bp) == Some(k) by {
        assert forall j :: 0 <= j < k ==> s[j] != Some(bp) by {
          forall j | 0 <= j < k ensures s[j] != Some(bp) {
            assert !Matches(s[j], q);
          }
        }
      }
      RemovedEmptiesRecord(s, bp);
      if NoDuplicates(s) {
        forall j | 0 <= j < |o.slots| ensures !Matches(o.slots[j], q) {
          if j != k && s[j].Some? {
            assert !Same(s[j].value, s[k].value) by {
              if j < k { } else { }
            }
          }
        }
      }
    }
  }

  /** The remove driver never stores an identity twice. */
  lemma RemoveKeepsNoDuplicates(s: Slots, pid: int, address: Word, kind: BpType, removal: int)
    requires NoDuplicates(s)
    ensures NoDuplicates(RemoveDriver(s, pid, address, kind, removal).slots)
  {
    RemoveEmptiesMatch(s, pid, address, kind, removal);
  }

  /** Removing what was just inserted restores the slot set, reports the remove
      request's sign and issues the request for the slot the install returned;
      removing it once more finds nothing. */
  lemma {:induction false} InsertThenRemove(s: Slots, pid: int, address: Word, kind: BpType, mask: Word, install: int, removal: int)
    requires NoDuplicates(s)
    requires InsertDriver(s, pid, address, kind, mask, install).r == 0
    ensures var t := InsertDriver(s, pid, address, kind, mask, install).slots;
      var o := RemoveDriver(t, pid, address, kind, removal);
      o.slots == s && o.calls == [RemoveSlot(pid, install)] && (o.r == -1 <==> removal < 0)
    ensures var t := InsertDriver(s, pid, address, kind, mask, install).slots;
      RemoveDriver(RemoveDriver(t, pid, address, kind, removal).slots, pid, address, kind, removal) ==
        Outcome(-1, s, [])
  {
    var q := NewRecord(address, kind);
    InsertSucceeds(s, pid, address, kind, mask, install);
    var t := InsertDriver(s, pid, address, kind, mask, install).slots;
    var k := FirstFree(s).value;
    assert forall j :: 0 <= j < |s| ==> !Matches(s[j], q);
    assert Find(t, q) == Some(k) by {
      assert Matches(t[k], q);
      forall j | 0 <= j < k ensures !Matches(t[j], q) {
        assert !Matches(s[j], q);
      }
    }
    RemoveEmptiesMatch(t, pid, address, kind, removal);
    var o := RemoveDriver(t, pid, address, kind, removal);
    assert o.slots == s;
    assert Find(s, q).None?;
  }

  /** Inserting an execute breakpoint at the aligned requested address and
      removing it at the placed address restores the slot set. */
  lemma BreakpointRoundTrip(s: Slots, pid: int, reqstdAddress: CoreAddr, install: int, removal: int)
    requires NoDuplicates(s)
    requires InsertDriver(s, pid, PlaceAddr(reqstdAddress), Execute, 0, install).r == 0
    ensures var t := InsertDriver(s, pid, PlaceAddr(reqstdAddress), Execute, 0, install).slots;
      RemoveDriver(t, pid, Truncate32(PlaceAddr(reqstdAddress)), Execute, removal).slots == s
  {
    InsertThenRemove(s, pid, PlaceAddr(reqstdAddress), Execute, 0, install, removal);
  }

  /** The worked example for one process: an execute breakpoint at 0x1000 takes
      one position; inserting it again is refused and leaves one; removing it
      leaves none; removing it again is refused. */
  lemma DuplicateThenRemoveScenario()
    ensures var a := InsertDriver(EmptySlots(), 7, 0x1000, Execute, 0, 0);
      var b := InsertDriver(a.slots, 7, 0x1000, Execute, 0, 1);
      var c := RemoveDriver(b.slots, 7, 0x1000, Execute, 0);
      var d := RemoveDriver(c.slots, 7, 0x1000, Execute, 0);
      a.r == 0 && Occupied(a.slots) == 1 &&
      b.r == -1 && Occupied(b.slots) == 1 &&
      c.r == 0 && Occupied(c.slots) == 0 &&
      d.r == -1 && d.slots == EmptySlots()
  {
    var s := EmptySlots();
    OccupiedBound(s);
    assert Lookup(s, NewRecord(0x1000, Execute)).None?;
    assert FirstFree(s) == Some(0);
    InsertSucceeds(s, 7, 0x1000, Execute, 0, 0);
    var a := InsertDriver(s, 7, 0x1000, Execute, 0, 0);
    InsertRejectsDuplicate(a.slots, 7, 0x1000, Execute, 0, 1, a.slots[0].value);
    InsertThenRemove(s, 7, 0x1000, Execute, 0, 0, 0);
  }

  /** sparc_linux_stopped_by_watchpoint on the pending signal `signo`, the
      fault address `siAddr` and the slot set: a trap is put down to a
      watchpoint unless an execute breakpoint is stored at the fault address. */
  function WatchpointStop(signo: int, siAddr: CoreAddr, s: Slots): (r: bool)
    ensures r <==> (signo == SigTrap &&
                    forall i :: 0 <= i < |s| ==> !(s[i].Some? && s[i].value.kind == Execute && s[i].value.address == Truncate32(siAddr)))
  {
    if signo != SigTrap then false
    else Lookup(s, NewRecord(Truncate32(siAddr), Execute)).None?
  }

  /** sparc_linux_insert_watchpoint: the watched address is aligned first. */
  function InsertWatchpoint(s: Slots, pid: int, addr: CoreAddr, kind: BpType, install: int): (o: Outcome)
    ensures o.calls != [] ==> o.calls[0] == Install(pid, PlaceAddr(addr), kind) && o.calls[0].address % 4 == 0
    ensures o.calls != [] ==> |o.calls| == 1
  {
    InsertDriver(s, pid, PlaceAddr(addr), kind, 0, install)
  }

  /** sparc_linux_remove_watchpoint as written: the address is only truncated,
      not aligned like the insertion's. */
  function RemoveWatchpointAsWritten(s: Slots, pid: int, addr: CoreAddr, kind: BpType, removal: int): (o: Outcome)
    ensures o.calls == [] <==> Lookup(s, NewRecord(Truncate32(addr), kind)).None?
  {
    RemoveDriver(s, pid, Truncate32(addr), kind, removal)
  }

  /** Watchpoint removal with the address aligned as on insertion. */
  function RemoveWatchpoint(s: Slots, pid: int, addr: CoreAddr, kind: BpType, removal: int): (o: Outcome)
    ensures o.calls == [] <==> Lookup(s, NewRecord(PlaceAddr(addr), kind)).None?
  {
    RemoveDriver(s, pid, PlaceAddr(addr), kind, removal)
  }

  /** With the source's removal, a watchpoint inserted at an unaligned address
      cannot be removed: the record stays and the result is -1. */
  lemma UnalignedWatchpointStaysInstalled()
    ensures var t := InsertWatchpoint(EmptySlots(), 7, 0x1003, Write, 0);
      t.r == 0 &&
      RemoveWatchpointAsWritten(t.slots, 7, 0x1003, Write, 0) == Outcome(-1, t.slots, [])
  {
    var s := EmptySlots();
    var t := InsertWatchpoint(s, 7, 0x1003, Write, 0);
    assert Lookup(s, NewRecord(0x1000, Write)).None?;
    assert FirstFree(s) == Some(0);
    assert t.slots[0] == Some(HwBreakpoint(0x1000, 0, Write, true, 0));
    assert forall i :: 0 <= i < |t.slots| ==> !Matches(t.slots[i], NewRecord(0x1003, Write));
  }

  /** With aligned removal every watchpoint insertion is undone by the removal
      at the same address. */
  lemma WatchpointRoundTrip(s: Slots, pid: int, addr: CoreAddr, kind: BpType, install: int, removal: int)
    requires NoDuplicates(s)
    requires InsertWatchpoint(s, pid, addr, kind, install).r == 0
    ensures RemoveWatchpoint(InsertWatchpoint(s, pid, addr, kind, install).slots, pid, addr, kind, removal).slots == s
  {
    InsertThenRemove(s, pid, PlaceAddr(addr), kind, 0, install, removal);
  }

  /** sparc_linux_insert_hw_breakpoint_1 as written apart from the loop bound
      of the free-position scan (see SlotSets.ScanAsWritten; here a full set is
      refused): on a failed install the record has already been put in the set
      and is freed there, leaving a dangling position; and the mask request
      passes the record's mask field, which is still zero at that point. */
  function InsertDriverAsWritten(s: Slots, pid: int, address: Word, kind: BpType, mask: Word, install: int): (o: Outcome)
    ensures o.r == 0 || o.r == -1
    ensures |o.slots| == |s|
    ensures install < 0 && o.calls != [] ==> o.r == -1 && o.slots != s
  {
    var bp := NewRecord(address, kind);
    if Lookup(s, bp).Some? then Outcome(-1, s, [])
    else match FirstFree(s)
      case None => Outcome(-1, s, [])
      case Some(k) =>
        if install < 0 then Outcome(-1, s[k := Some(bp.(hwSlot := install))], [Install(pid, address, kind)])
        else Outcome(0, s[k := Some(bp.(hwSlot := install, mask := mask))],
                     [Install(pid, address, kind)] + (if mask != 0 then [ProgramMask(pid, bp.mask, install)] else []))
  }

  /** A failed install reports -1 yet leaves its (freed) record occupying a
      position. Reading the freed record as it was, a later insert of the same
      breakpoint is refused as a duplicate; in C that read is undefined. */
  lemma FailedInstallLeavesDanglingRecord()
    ensures var t := InsertDriverAsWritten(EmptySlots(), 7, 0x1000, Execute, 0, -1);
      t.r == -1 && t.slots != EmptySlots() && Occupied(t.slots) == 1 &&
      Lookup(t.slots, NewRecord(0x1000, Execute)).Some? &&
      InsertDriverAsWritten(t.slots, 7, 0x1000, Execute, 0, 0).r == -1
  {
    var s := EmptySlots();
    assert Lookup(s, NewRecord(0x1000, Execute)).None?;
    assert FirstFree(s) == Some(0);
    var t := InsertDriverAsWritten(s, 7, 0x1000, Execute, 0, -1);
    assert t.slots[0].Some?;
    assert Matches(t.slots[0], NewRecord(0x1000, Execute));
    OccupiedUpdate(s, 0, t.slots[0]);
    OccupiedBound(s);
  }

  /** With a non-zero mask the source sends mask 0 to the slot instead of the
      requested mask. */
  lemma MaskRequestSendsStaleMask()
    ensures InsertDriverAsWritten(EmptySlots(), 7, 0x1000, Write, 0xff, 2).calls ==
      [Install(7, 0x1000, Write), ProgramMask(7, 0, 2)]
    ensures InsertDriver(EmptySlots(), 7, 0x1000, Write, 0xff, 2).calls ==
      [Install(7, 0x1000, Write), ProgramMask(7, 0xff, 2)]
  {
    var s := EmptySlots();
    assert Lookup(s, NewRecord(0x1000, Write)).None?;
    assert FirstFree(s) == Some(0);
  }

  /** The stale mask changes only the request, never the result; apart from
      the rollback the source and the corrected driver agree. */
  lemma AsWrittenAgreesOnSuccess(s: Slots, pid: int, address: Word, kind: BpType, mask: Word, install: int)
    ensures InsertDriverAsWritten(s, pid, address, kind, mask, install).r == InsertDriver(s, pid, address, kind, mask, install).r
    ensures install >= 0 ==> InsertDriverAsWritten(s, pid, address, kind, 0, install) == InsertDriver(s, pid, address, kind, 0, install)
  {
  }

  /** One inferior's slot set. A reference to a stored record is modelled by its
      position in `bps`. */
  class InferiorBps {
    const id: Ptid
    const bps: array<Option<HwBreakpoint>>

    ghost predicate Valid()
    {
      bps.Length == MaxHwBps
    }

    /** The zero-filled set that sparc_linux_get_inferior_bps allocates. */
    constructor (id: Ptid)
      ensures this.id == id && Valid() && fresh(bps)
      ensures bps[..] == EmptySlots()
    {
      this.id := id;
      bps := new Option<HwBreakpoint>[MaxHwBps](_ => None);
    }

    /** get_breakpoint_in_inf_list. */
    method GetBreakpoint(q: HwBreakpoint) returns (r: Option<HwBreakpoint>)
      requires Valid()
      ensures r == Lookup(bps[..], q)
    {
      for i := 0 to MaxHwBps
        invariant forall j :: 0 <= j < i ==> !Matches(bps[j], q)
      {
        if bps[i] != None {
          if Same(bps[i].value, q) {
            return bps[i];
          }
        }
      }
      return None;
    }

    /** insert_breakpoint_in_inf_list, with the loop bounded by the slot count.
        On success `pos` is the position now holding `bp`. */
    method InsertBreakpoint(bp: HwBreakpoint) returns (r: int, pos: nat)
      requires Valid()
      modifies bps
      ensures bps[..] == Placed(old(bps[..]), bp)
      ensures r == 0 || r == -1
      ensures r == 0 <==> FirstFree(old(bps[..])).Some?
      ensures r == 0 ==> FirstFree(old(bps[..])) == Some(pos)
    {
      for i := 0 to MaxHwBps
        invariant forall j :: 0 <= j < i ==> bps[j].Some?
        invariant bps[..] == old(bps[..])
      {
        if bps[i] == None {
          bps[i] := Some(bp);
          return 0, i;
        }
      }
      return -1, 0;
    }

    /** remove_breakpoint_in_inf_list, with the loop bounded by the slot count. */
    method RemoveBreakpoint(bp: HwBreakpoint) returns (r: int)
      requires Valid()
      modifies bps
      ensures bps[..] == Removed(old(bps[..]), bp)
      ensures r == 0 || r == -1
      ensures r == 0 <==> Some(bp) in old(bps[..])
    {
      for i := 0 to MaxHwBps
        invariant forall j :: 0 <= j < i ==> bps[j] != Some(bp)
        invariant bps[..] == old(bps[..])
      {
        if bps[i] == Some(bp) {
          bps[i] := None;
          return 0;
        }
      }
      return -1;
    }

    /** The release loop of sparc_linux_forget_process: every position emptied. */
    method Clear()
      requires Valid()
      modifies bps
      ensures bps[..] == EmptySlots()
    {
      for j := 0 to MaxHwBps
        invariant forall k :: 0 <= k < j ==> bps[k].None?
      {
        if bps[j] != None {
          bps[j] := None;
        }
      }
    }

    /** The slot-set part of sparc_linux_insert_hw_breakpoint_1 for process
        `pid`: duplicate check, insertion, install request, then the record's
        slot and mask set through its position. */
    method InsertHw(pid: int, address: Word, kind: BpType, mask: Word, install: int, maskResult: int)
      returns (r: int, calls: seq<Call>)
      requires Valid()
      modifies bps
      ensures Outcome(r, bps[..], calls) == InsertDriver(old(bps[..]), pid, address, kind, mask, install)
    {
      var bp := NewRecord(address, kind);
      var found := GetBreakpoint(bp);
      if found.Some? {
        return -1, [];
      }
      var placed, pos := InsertBreakpoint(bp);
      if placed != 0 {
        return -1, [];
      }
      calls := [Install(pid, bp.address, kind)];
      if install < 0 {
        bps[pos] := None;
        return -1, calls;
      }
      bp := bp.(hwSlot := install);
      bps[pos] := Some(bp);
      if mask != 0 {
        calls := calls + [ProgramMask(pid, mask, bp.hwSlot)];
        bp := bp.(mask := mask);
        bps[pos] := Some(bp);
      }
      r := 0;
    }

    /** The slot-set part of sparc_linux_remove_hw_breakpoint_1: lookup, remove
        request addressed by the record's slot, then the record's position
        emptied whatever the request reports. */
    method RemoveHw(pid: int, address: Word, kind: BpType, removal: int) returns (r: int, calls: seq<Call>)
      requires Valid()
      modifies bps
      ensures Outcome(r, bps[..], calls) == RemoveDriver(old(bps[..]), pid, address, kind, removal)
    {
      var bp := GetBreakpoint(NewRecord(address, kind));
      if bp.None? {
        return -1, [];
      }
      calls := [RemoveSlot(pid, bp.value.hwSlot)];
      var _ := RemoveBreakpoint(bp.value);
      r := if removal < 0 then -1 else 0;
    }
  }
}
