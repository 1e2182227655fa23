/** The hardware breakpoint record, its identity, the address aligner and the
    constant-answer capability queries of the SPARC GNU/Linux native target. */
module HwBreakpoint {

  import opened Common

  /** Number of hardware debug-register slots per inferior (SPARC_MAX_HW_BPS). */
  const MaxHwBps: nat := 4

  /** The trap signal number on GNU/Linux. */
  const SigTrap: int := 5

  const WordModulus: nat := 0x1_0000_0000

  /** C `unsigned int`: the width of the record's address and mask fields. */
  type Word = x: int | 0 <= x < 0x1_0000_0000

  /** GDB's CORE_ADDR, a 64-bit unsigned target address. */
  type CoreAddr = x: int | 0 <= x < 0x1_0000_0000_0000_0000

  /** Identity of an inferior thread (GDB's ptid_t). */
  datatype Ptid = Ptid(pid: int, lwp: int, tid: int)

  /** GDB's `enum target_hw_bp_type`. */
  datatype BpType = Write | Read | Access | Execute

  /** One hardware breakpoint or watchpoint (struct sparc_linux_hw_breakpoint). */
  datatype HwBreakpoint = HwBreakpoint(address: Word, mask: Word, kind: BpType, enabled: bool, hwSlot: int)

  /** The C cast `(unsigned int) a`: keeps the low 32 bits. */
  function Truncate32(a: CoreAddr): (w: Word)
    ensures (a - w) % WordModulus == 0
    ensures a < WordModulus ==> w == a
  {
    a % WordModulus
  }

  /** A record as the insert driver first builds it: zero-filled storage, then
      address, type and the enabled flag set; mask and slot are still zero.
      The removal and trap paths build the same record as a comparator: it
      denotes exactly the records with that address and type. */
  function NewRecord(address: Word, kind: BpType): (r: HwBreakpoint)
    ensures r.mask == 0 && r.hwSlot == 0 && r.enabled
    ensures forall b :: Same(b, r) <==> b.address == address && b.kind == kind
  {
    HwBreakpoint(address, 0, kind, true, 0)
  }

  /** hw_breakpoint_equal: two records denote the same breakpoint when address
      and type agree. */
  predicate Same(a: HwBreakpoint, b: HwBreakpoint)
  {
    a.address == b.address && a.kind == b.kind
  }

  /** Mask, slot and enabled flag play no part in identity, and identity is an
      equivalence relation. */
  lemma SameIgnoresMaskAndSlot(a: HwBreakpoint, b: HwBreakpoint, c: HwBreakpoint, mask: Word, slot: int, enabled: bool)
    ensures Same(a, a.(mask := mask, hwSlot := slot, enabled := enabled))
    ensures Same(a, b) <==> Same(b, a)
    ensures Same(a, b) && Same(b, c) ==> Same(a, c)
  {
  }

  /** sparc_place_addr: the 32-bit address with its two low bits cleared. */
  function PlaceAddr(addr: CoreAddr): (r: CoreAddr)
    ensures r % 4 == 0
    ensures r <= Truncate32(addr) < r + 4
    ensures r <= addr
  {
    var w := Truncate32(addr);
    w - w % 4
  }

  /** Aligning an aligned address changes nothing, so aligning is idempotent. */
  lemma PlaceAddrIdempotent(addr: CoreAddr)
    ensures PlaceAddr(PlaceAddr(addr)) == PlaceAddr(addr)
    ensures addr < WordModulus && addr % 4 == 0 ==> PlaceAddr(addr) == addr
  {
  }

  /** sparc_linux_can_use_hw_breakpoint: 1 while the requested count fits in
      the slots, -1 otherwise. `kind` is GDB's `enum bptype` (a breakpoint
      kind, not a BpType) and, like `otherType`, plays no part. */
  function CanUseHwBreakpoint(kind: int, cnt: int, otherType: int): (r: int)
    ensures r == 1 <==> cnt <= MaxHwBps
    ensures r == -1 <==> cnt > MaxHwBps
  {
    if cnt > MaxHwBps then -1 else 1
  }

  /** sparc_linux_region_ok_for_hw_watchpoint: every region needs one register;
      no size check is made. */
  function RegionOkForHwWatchpoint(addr: CoreAddr, len: int): (r: int)
    ensures r == 1
  {
    1
  }

  /** sparc_linux_watchpoint_addr_within_range: every address counts as in range. */
  function WatchpointAddrWithinRange(addr: CoreAddr, start: CoreAddr, len: int): (r: int)
    ensures r != 0
  {
    1
  }

  /** sparc_linux_stopped_data_address: the data address of a watchpoint hit is
      never known, so nothing is reported. */
  function StoppedDataAddress(): (r: Option<CoreAddr>)
    ensures r.None?
  {
    None
  }
}
