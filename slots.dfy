/** The per-inferior slot set (struct sparc_linux_inferior_bps): four positions,
    each empty (NULL) or holding one record, with lookup by identity, insertion
    into the first free position and removal of a given record. */
module SlotSets {

  import opened Common
  import opened HwBreakpoint

  /** The contents of the `bps` array, position by position. */
  type Slots = seq<Option<HwBreakpoint>>

  /** A freshly allocated slot set: every position empty. */
  function EmptySlots(): (s: Slots)
    ensures |s| == MaxHwBps
    ensures forall i :: 0 <= i < |s| ==> s[i].None?
  {
    seq(MaxHwBps, _ => None)
  }

  /** Position `e` is occupied by a record with the identity of `q`. */
  predicate Matches(e: Option<HwBreakpoint>, q: HwBreakpoint)
  {
    e.Some? && Same(e.value, q)
  }

  /** The first position whose record has the identity of `q`. */
  function Find(s: Slots, q: HwBreakpoint): Option<nat>
  {
    FirstWhere(s, (e: Option<HwBreakpoint>) => Matches(e, q))
  }

  /** get_breakpoint_in_inf_list: the stored record with the identity of `q`,
      or None when no occupied position matches. */
  function Lookup(s: Slots, q: HwBreakpoint): (r: Option<HwBreakpoint>)
    ensures r.None? <==> forall i :: 0 <= i < |s| ==> !Matches(s[i], q)
    ensures r.Some? ==> Same(r.value, q)
    ensures r.Some? ==> exists i :: 0 <= i < |s| && s[i] == r && forall j :: 0 <= j < i ==> !Matches(s[j], q)
  {
    match Find(s, q)
    case None => None
    case Some(k) => s[k]
  }

  /** The first empty position. */
  function FirstFree(s: Slots): Option<nat>
  {
    FirstWhere(s, (e: Option<HwBreakpoint>) => e.None?)
  }

  /** The contents after insert_breakpoint_in_inf_list: `bp` in the first empty
      position, or no change when there is none. */
  function Placed(s: Slots, bp: HwBreakpoint): (r: Slots)
    ensures |r| == |s|
    ensures FirstFree(s).Some? <==> r != s
    ensures r != s ==> Some(bp) in r
  {
    match FirstFree(s)
    case None => s
    case Some(k) => s[k := Some(bp)]
  }

  /** The first position holding exactly `bp` (the source compares record addresses). */
  function FindRecord(s: Slots, bp: HwBreakpoint): Option<nat>
  {
    FirstWhere(s, (e: Option<HwBreakpoint>) => e == Some(bp))
  }

  /** The contents after remove_breakpoint_in_inf_list: the first position
      holding `bp` emptied, or no change when `bp` is not stored. */
  function Removed(s: Slots, bp: HwBreakpoint): (r: Slots)
    ensures |r| == |s|
    ensures Some(bp) in s <==> r != s
  {
    match FindRecord(s, bp)
    case None => s
    case Some(k) => s[k := None]
  }

  /** Number of occupied positions; this is what the never-updated `num` field
      was meant to hold. */
  function Occupied(s: Slots): nat
  {
    if s == [] then 0 else (if s[0].Some? then 1 else 0) + Occupied(s[1..])
  }

  /** No two occupied positions hold records with the same identity. */
  ghost predicate NoDuplicates(s: Slots)
  {
    forall i, j :: 0 <= i < j < |s| && s[i].Some? && s[j].Some? ==> !Same(s[i].value, s[j].value)
  }

  lemma {:induction false} OccupiedBound(s: Slots)
    ensures Occupied(s) <= |s|
    ensures Occupied(s) == |s| <==> forall i :: 0 <= i < |s| ==> s[i].Some?
    ensures Occupied(s) == 0 <==> forall i :: 0 <= i < |s| ==> s[i].None?
  {
    if s != [] {
      OccupiedBound(s[1..]);
      assert forall i :: 1 <= i < |s| ==> s[i] == s[1..][i - 1];
    }
  }

  /** Overwriting one position changes the count by what was removed and added. */
  lemma {:induction false} OccupiedUpdate(s: Slots, k: nat, x: Option<HwBreakpoint>)
    requires k < |s|
    ensures Occupied(s[k := x]) == Occupied(s) - (if s[k].Some? then 1 else 0) + (if x.Some? then 1 else 0)
  {
    if k == 0 {
      assert s[k := x][1..] == s[1..];
    } else {
      OccupiedUpdate(s[1..], k - 1, x);
      assert s[k := x][1..] == s[1..][k - 1 := x];
    }
  }

  /** A set is full exactly when every position is occupied. */
  lemma FullIffAllOccupied(s: Slots)
    ensures FirstFree(s).None? <==> Occupied(s) == |s|
  {
    OccupiedBound(s);
  }

  /** Insertion fills the lowest-indexed empty position and leaves every other
      position unchanged; a full set is left as it is. */
  lemma PlacedFillsLowestFree(s: Slots, bp: HwBreakpoint)
    ensures FirstFree(s).None? ==> Placed(s, bp) == s && Occupied(s) == |s|
    ensures FirstFree(s).Some? ==>
      var k := FirstFree(s).value;
      k < |s| && s[k].None? && (forall j :: 0 <= j < k ==> s[j].Some?) &&
      |Placed(s, bp)| == |s| && Placed(s, bp)[k] == Some(bp) &&
      (forall j :: 0 <= j < |s| && j != k ==> Placed(s, bp)[j] == s[j]) &&
      Occupied(Placed(s, bp)) == Occupied(s) + 1
  {
    FullIffAllOccupied(s);
    if FirstFree(s).Some? {
      OccupiedUpdate(s, FirstFree(s).value, Some(bp));
    }
  }

  /** Removal empties the first position holding `bp` and nothing else. */
  lemma RemovedEmptiesRecord(s: Slots, bp: HwBreakpoint)
    ensures Some(bp) !in s ==> Removed(s, bp) == s
    ensures Some(bp) in s ==>
      var k := FindRecord(s, bp).value;
      k < |s| && s[k] == Some(bp) && |Removed(s, bp)| == |s| && Removed(s, bp)[k].None? &&
      (forall j :: 0 <= j < |s| && j != k ==> Removed(s, bp)[j] == s[j]) &&
      Occupied(Removed(s, bp)) == Occupied(s) - 1
  {
    if Some(bp) in s {
      var i :| 0 <= i < |s| && s[i] == Some(bp);
      OccupiedUpdate(s, FindRecord(s, bp).value, None);
    } else {
      assert forall j :: 0 <= j < |s| ==> s[j] != Some(bp);
    }
  }

  /** The loops of insert_breakpoint_in_inf_list and
      remove_breakpoint_in_inf_list as written: their test is the constant
      SPARC_MAX_HW_BPS, which is never false, so the scan from position `i`
      stops only at a position passing `stop`. ReadsPastEnd(i) is the step
      that would read position i, beyond the array. */
  datatype Scan = StopsAt(i: nat) | ReadsPastEnd(i: nat)

  function ScanAsWritten(s: Slots, stop: Option<HwBreakpoint> -> bool, i: nat): (r: Scan)
    requires i <= |s|
    ensures i <= r.i <= |s|
    ensures r.StopsAt? ==> r.i < |s| && stop(s[r.i])
    ensures r.ReadsPastEnd? ==> r.i == |s|
    ensures forall j :: i <= j < r.i ==> !stop(s[j])
    decreases |s| - i
  {
    if i == |s| then ReadsPastEnd(i)
    else if stop(s[i]) then StopsAt(i)
    else ScanAsWritten(s, stop, i + 1)
  }

  /** On a full set the insert loop as written runs past the last position
      instead of returning -1. */
  lemma FullSetScanRunsPastEnd(s: Slots)
    requires forall j :: 0 <= j < |s| ==> s[j].Some?
    ensures ScanAsWritten(s, (e: Option<HwBreakpoint>) => e.None?, 0) == ReadsPastEnd(|s|)
  {
  }

  /** The removal loop as written runs past the end for a record that is not
      stored; the remove driver only passes a record it has just found, and for
      a stored record the loop stops at the position Removed empties. */
  lemma StoredRecordScanStops(s: Slots, bp: HwBreakpoint)
    ensures Some(bp) !in s ==> ScanAsWritten(s, (e: Option<HwBreakpoint>) => e == Some(bp), 0) == ReadsPastEnd(|s|)
    ensures Some(bp) in s ==> ScanAsWritten(s, (e: Option<HwBreakpoint>) => e == Some(bp), 0) == StopsAt(FindRecord(s, bp).value)
  {
  }

  /** Wherever the scan as written stops inside the array, it stops at the
      first position passing the test, which is what the bounded loop finds. */
  lemma ScanStopsAtFirstWhere(s: Slots, stop: Option<HwBreakpoint> -> bool)
    ensures ScanAsWritten(s, stop, 0).StopsAt? <==> FirstWhere(s, stop).Some?
    ensures FirstWhere(s, stop).Some? ==> ScanAsWritten(s, stop, 0) == StopsAt(FirstWhere(s, stop).value)
  {
  }
}
