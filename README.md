# Hardware breakpoint slots of GDB's SPARC GNU/Linux native target

This project is a Dafny model of the hardware breakpoint and watchpoint
bookkeeping in `gdb/sparc-linux-nat.c`. It is proved against specifications
of its own.

The SPARC debug unit has four register pairs per inferior. GDB keeps one slot
set per inferior thread identity (a `ptid`). Each set has four positions, and
each position may hold a breakpoint record: address, mask, type, enabled flag
and the hardware slot returned by the kernel. The model covers:

- the record and its identity, address and type (`HwBreakpoint`);
- the address aligner and the constant-answer capability queries;
- inside one slot set (`SlotSets`, and the class `Allocator.InferiorBps`
  over a four-element array): lookup, insertion into the first free
  position, removal of a stored record, and clearing;
- the insert and remove drivers (`Allocator.InsertDriver`,
  `Allocator.RemoveDriver`). These issue the `PTRACE_SETHBREGS` requests and
  keep the set free of duplicates;
- the registry of slot sets (`Registry.BreakpointRegistry`, a class holding a
  sequence of `InferiorBps`). It supports get-or-create by ptid, the six
  target entry points, trap attribution, and reclaiming a process's slots.

The model never runs `ptrace`. Each request's result is a parameter of the
operation: `install`, `maskResult` and `removal`. The requests the operation
would send come back as a sequence of `Allocator.Call` values. The pending
signal's number and fault address are parameters of `StoppedByWatchpoint`.
The current inferior (`inferior_ptid`) is the parameter `id`.

Records are values. A reference to a stored record becomes its position in the
array. The insert driver updates the record through that reference after
storing it; the model writes the updated record back into that position.

Modelling choices taken from the code itself:

- A slot set belongs to a full ptid (pid, lwp, tid), because
  `sparc_linux_get_inferior_bps` compares identities with `ptid_equal`
  (line 141).
- `sparc_linux_forget_process` compares only the pid (line 362).
- The count field `num` is set to 0 (line 147) and never updated. It is not
  modelled as a field; `SlotSets.Occupied` derives the count from the
  positions.

The defects listed under "## Findings" are handled differently. For each, the
model gives the code's behaviour as a separate member and proves a
counterexample about it. The methods then use a corrected behaviour, which is
chosen from the source's own comments and from its other paths:

- "Contains inserted breakpoints only" (line 77) is kept by the rollback of a
  failed install.
- "Free the breakpoints used by the ended process" (line 354) is kept by
  releasing every entry of the process.
- The alignment that insertion applies (lines 276 and 286) is also applied on
  watchpoint removal.
- The free-position scan is bounded by the four positions (line 75), with -1
  on a full set as the function's own `return -1` (line 112) intends.
- The mask request sends the mask that the code stores in the record right
  after it (line 204).

## Model

| member | source | states |
|---|---|---|
| HwBreakpoint.Truncate32 | gdb/sparc-linux-nat.c:178 | The `(unsigned int)` cast keeps the low 32 bits: the result is a 32-bit word congruent to the input modulo 2^32, so every value that already fits is left unchanged. |
| HwBreakpoint.NewRecord | gdb/sparc-linux-nat.c:177-180 | The freshly built record has mask 0, hardware slot 0 and the enabled flag set. As a comparator it identifies exactly the records with its address and type. |
| HwBreakpoint.SameIgnoresMaskAndSlot | gdb/sparc-linux-nat.c:87-89 | Breakpoint identity (`HwBreakpoint.Same`, hw_breakpoint_equal) is an equivalence relation that ignores mask, hardware slot and enabled flag. |
| HwBreakpoint.PlaceAddr | gdb/sparc-linux-nat.c:128-132 | The placed address is 4-aligned and is the largest aligned value not above the 32-bit truncation of the request, so it is within 3 bytes below it. It never exceeds the requested address. |
| HwBreakpoint.PlaceAddrIdempotent | gdb/sparc-linux-nat.c:128-132 | Aligning twice is aligning once. Every aligned 32-bit address is its own placed address. |
| HwBreakpoint.CanUseHwBreakpoint | gdb/sparc-linux-nat.c:154-160 | The answer is 1 exactly when the requested count is at most 4, and -1 exactly when it exceeds 4. The breakpoint kind (GDB's `enum bptype`, an `int` here) and the other type play no part. |
| HwBreakpoint.RegionOkForHwWatchpoint | gdb/sparc-linux-nat.c:304-308 | Every region is accepted as needing one debug register. |
| HwBreakpoint.WatchpointAddrWithinRange | gdb/sparc-linux-nat.c:312-316 | Every address is reported as within range. |
| HwBreakpoint.StoppedDataAddress | gdb/sparc-linux-nat.c:349-352 | The data address of a watchpoint hit is never reported. |
| Common.FirstWhere | gdb/sparc-linux-nat.c:95-100 | The linear scans' result is the first position satisfying the test, and none is returned exactly when no position satisfies it. |
| SlotSets.EmptySlots | gdb/sparc-linux-nat.c:145 | A zero-filled set has four positions, all empty. |
| SlotSets.Lookup | gdb/sparc-linux-nat.c:92-102 | get_breakpoint_in_inf_list returns nothing exactly when no stored record has the query's address and type. Otherwise it returns the first such stored record. |
| SlotSets.OccupiedBound | gdb/sparc-linux-nat.c:78-82 | The occupied count is at most the number of positions. It equals that number exactly when every position is filled, and is 0 exactly when every position is empty. |
| SlotSets.OccupiedUpdate | gdb/sparc-linux-nat.c:108 | Overwriting one position changes the occupied count by one for an empty position filled, minus one for a full position emptied, and nothing otherwise. |
| SlotSets.Placed | gdb/sparc-linux-nat.c:104-113 | Insertion keeps the number of positions. It changes the set exactly when a position is free, and then the record is stored. |
| SlotSets.Removed | gdb/sparc-linux-nat.c:116-125 | Removal keeps the number of positions and changes the set exactly when the record is stored. |
| SlotSets.FullIffAllOccupied | gdb/sparc-linux-nat.c:104-113 | A set has no free position exactly when all four are occupied. |
| SlotSets.PlacedFillsLowestFree | gdb/sparc-linux-nat.c:104-113 | insert_breakpoint_in_inf_list puts the record at the lowest empty position and changes no other position. On a full set it changes nothing. |
| SlotSets.RemovedEmptiesRecord | gdb/sparc-linux-nat.c:116-125 | remove_breakpoint_in_inf_list empties the first position holding that record and keeps all others. A record not stored leaves the set unchanged. |
| SlotSets.ScanAsWritten | gdb/sparc-linux-nat.c:106-111 | The loop with its constant test stops only at a position passing the test, after positions that all fail it. When no position passes, it reaches the index one past the last position. |
| SlotSets.FullSetScanRunsPastEnd | gdb/sparc-linux-nat.c:106 | On a full set the free-position loop as written reaches the index past the last position instead of returning -1. |
| SlotSets.StoredRecordScanStops | gdb/sparc-linux-nat.c:118-123 | The removal loop as written runs past the end for a record that is not stored. For a stored record, the only kind the remove driver passes, it stops at the position that `Removed` empties. |
| SlotSets.ScanStopsAtFirstWhere | gdb/sparc-linux-nat.c:104-125 | Wherever the loop as written stops inside the array, it stops at the first position passing the test, as the bounded scan does. |
| Allocator.InsertDriver | gdb/sparc-linux-nat.c:164-211 | The corrected insert driver returns 0 or -1 and keeps the number of positions. Every failure leaves the set unchanged. No request is sent exactly when the identity is already stored or no position is free; otherwise the first request is the install for (pid, address, type). |
| Allocator.RemoveDriver | gdb/sparc-linux-nat.c:215-237 | The remove driver returns 0 or -1 and keeps the number of positions. No request is sent exactly when the identity is not stored, and then the result is -1 with the set unchanged. Otherwise one remove request is sent, and the result is -1 exactly when it failed. |
| Allocator.InsertRejectsDuplicate | gdb/sparc-linux-nat.c:183-188 | Inserting an address and type already stored returns -1. The set is unchanged and no request is sent. |
| Allocator.InsertRejectsWhenFull | gdb/sparc-linux-nat.c:190-193 | Inserting into a set with no free position returns -1. The set is unchanged and no request is sent. |
| Allocator.InsertRollsBack | gdb/sparc-linux-nat.c:195-199 | When the install request fails, the result is -1 and the set is unchanged. No request other than the install is sent, so no mask is programmed. |
| Allocator.InsertSucceeds | gdb/sparc-linux-nat.c:164-211 | The result is 0 or -1. It is 0 exactly when the identity is new, a position is free and the install succeeds. Then the lowest free position receives the record, with the kernel's slot and the requested mask, other positions keep their contents, and the occupied count grows by one. |
| Allocator.InsertKeepsNoDuplicates | gdb/sparc-linux-nat.c:183-188 | Insertion keeps the set free of two records with the same address and type. |
| Allocator.InsertProgramsMask | gdb/sparc-linux-nat.c:194-205 | A successful insert sends the install request for (pid, address, type). When the mask is non-zero, it then sends the mask request for the kernel's slot, and otherwise nothing more. |
| Allocator.RemoveEmptiesMatch | gdb/sparc-linux-nat.c:215-237 | Without a match, the removal returns -1, sends nothing and changes nothing. With one, it sends the remove request for the record's hardware slot and empties that record's position whatever the request returns. It keeps the other positions, lowers the count by one, and returns -1 exactly when the request failed. Afterwards no record has that identity. |
| Allocator.RemoveKeepsNoDuplicates | gdb/sparc-linux-nat.c:225-232 | Removal keeps the set free of duplicates. |
| Allocator.InsertThenRemove | gdb/sparc-linux-nat.c:164-237 | Removing the identity just inserted restores the set exactly. A second removal returns -1 and changes nothing. |
| Allocator.BreakpointRoundTrip | gdb/sparc-linux-nat.c:240-256 | An execute breakpoint inserted at the aligned requested address is removed by the removal at the reported placed address, which restores the set. |
| Allocator.DuplicateThenRemoveScenario | gdb/sparc-linux-nat.c:164-237 | Execute breakpoint at 0x1000 on an empty set: the first insert occupies one position; the second is refused and one remains; removing it leaves none; removing again is refused. |
| Allocator.WatchpointStop | gdb/sparc-linux-nat.c:321-345 | A stop counts as a watchpoint hit exactly when the signal is SIGTRAP and no execute record is stored at the truncated fault address. |
| Allocator.InsertWatchpoint | gdb/sparc-linux-nat.c:272-277 | Watchpoint insertion sends only the install request, for the aligned address, which is a multiple of 4. |
| Allocator.RemoveWatchpointAsWritten | gdb/sparc-linux-nat.c:263-270 | Watchpoint removal as written looks the record up under the truncated, unaligned address, and sends a request exactly when one is stored there. |
| Allocator.RemoveWatchpoint | gdb/sparc-linux-nat.c:263-270 | Corrected watchpoint removal looks the record up under the aligned address, and sends a request exactly when one is stored there. |
| Allocator.UnalignedWatchpointStaysInstalled | gdb/sparc-linux-nat.c:263-277 | With the removal as written, a write watchpoint inserted at 0x1003 (stored at 0x1000) is not found by its removal. The removal returns -1 and the record stays. |
| Allocator.WatchpointRoundTrip | gdb/sparc-linux-nat.c:263-277 | With the address aligned on removal as on insertion, every successful watchpoint insertion is undone by the removal at the same address. |
| Allocator.InsertDriverAsWritten | gdb/sparc-linux-nat.c:164-211 | The code as written (apart from the free-position loop bound of the first Finding) returns 0 or -1 and keeps the number of positions. An install that was sent and failed still changes the set. |
| Allocator.FailedInstallLeavesDanglingRecord | gdb/sparc-linux-nat.c:190-210 | As written, a failed install returns -1 but its freed record stays in the set. If that memory still reads as the record (the C reads freed memory here, which is undefined), a later insert of the same breakpoint is refused as a duplicate. |
| Allocator.MaskRequestSendsStaleMask | gdb/sparc-linux-nat.c:202-204 | As written, a mask of 0xff sends mask 0 to the slot. The corrected driver sends 0xff. |
| Allocator.AsWrittenAgreesOnSuccess | gdb/sparc-linux-nat.c:164-211 | For every mask, `InsertDriverAsWritten` (the code as written, apart from the loop bound) and the corrected driver return the same result, so the stale mask changes only the request sent. Without a mask they agree completely whenever the install succeeds. |
| Allocator.InferiorBps.constructor | gdb/sparc-linux-nat.c:145-147 | A new slot set for a ptid has four empty positions in a fresh array. |
| Allocator.InferiorBps.GetBreakpoint | gdb/sparc-linux-nat.c:92-102 | The loop over the four positions returns exactly `Lookup` of the set. |
| Allocator.InferiorBps.InsertBreakpoint | gdb/sparc-linux-nat.c:104-113 | The array becomes `Placed` of the old contents. The result is 0 exactly when a position was free, and that position is returned; otherwise it is -1. |
| Allocator.InferiorBps.RemoveBreakpoint | gdb/sparc-linux-nat.c:116-125 | The array becomes `Removed` of the old contents. The result is 0 exactly when the record was stored. |
| Allocator.InferiorBps.Clear | gdb/sparc-linux-nat.c:371-376 | Every position is emptied. |
| Allocator.InferiorBps.InsertHw | gdb/sparc-linux-nat.c:164-211 | The result, the requests sent and the new array are exactly those of `InsertDriver` on the old array. |
| Allocator.InferiorBps.RemoveHw | gdb/sparc-linux-nat.c:215-237 | The result, the requests sent and the new array are exactly those of `RemoveDriver` on the old array. |
| Registry.IndexOfId | gdb/sparc-linux-nat.c:140-143 | A position found for a ptid holds the entry with that ptid, and none is found exactly when no entry has that ptid. |
| Registry.IndexOfPid | gdb/sparc-linux-nat.c:361-366 | The pid search returns the first entry of the process, or nothing exactly when the process has no entry. |
| Registry.WithInferior | gdb/sparc-linux-nat.c:135-151 | After get-or-create the registry holds an entry for the ptid. |
| Registry.GetOrCreateFindsOrAppends | gdb/sparc-linux-nat.c:135-151 | An existing entry is returned unchanged and the registry stays as it was. Otherwise an empty set for the ptid is appended at the end. Either way the registry stays well formed. |
| Registry.OtherInferiorsUntouched | gdb/sparc-linux-nat.c:164-237 | Replacing one inferior's slots keeps every other inferior's entry in its place. The registry stays well formed when the new slots have four positions and no duplicates. Writing back the inferior's own slots is just get-or-create. |
| Registry.WellFormedDrop | gdb/sparc-linux-nat.c:378 | Removing an entry keeps the registry well formed. |
| Registry.ForgetFirst | gdb/sparc-linux-nat.c:355-379 | The reclaimer as written leaves a registry without entries of the process unchanged. Otherwise it removes exactly one entry, the first of the process, keeping the others. |
| Registry.ForgetAll | gdb/sparc-linux-nat.c:355-379 | The result is no longer than the registry and holds no entry for the process. It keeps exactly the other entries. |
| Registry.ForgetAllKeepsOrder | gdb/sparc-linux-nat.c:378 | Releasing a process distributes over concatenation, so the remaining entries keep their order. |
| Registry.ForgetAllIdempotent | gdb/sparc-linux-nat.c:355-379 | Releasing a process twice is releasing it once. |
| Registry.ForgetAllAbsent | gdb/sparc-linux-nat.c:368-369 | Releasing a process that has no entry leaves the registry unchanged. |
| Registry.ForgetAllDropsOne | gdb/sparc-linux-nat.c:378 | Dropping one entry of the process does not change what releasing all its entries gives. |
| Registry.ForgetFirstStep | gdb/sparc-linux-nat.c:361-378 | Removing the first entry of the process does not change what releasing all its entries gives. Without an entry it changes nothing. |
| Registry.ForgetFirstWhenOneEntryPerPid | gdb/sparc-linux-nat.c:361-378 | When a process has at most one entry, removing the first entry is releasing all of them. |
| Registry.ForgottenInferiorStartsEmpty | gdb/sparc-linux-nat.c:135-151 | Once a process is released, any of its threads starts again from an empty slot set. |
| Registry.ForgetFirstLeavesSibling | gdb/sparc-linux-nat.c:361-378 | With two threads of process 7 registered, the code as written leaves the second thread's entry behind. |
| Registry.BreakpointRegistry.constructor | gdb/sparc-linux-nat.c:85 | The registry starts empty and well formed. |
| Registry.BreakpointRegistry.GetInferiorBps | gdb/sparc-linux-nat.c:135-151 | The abstract registry becomes `WithInferior` of the old one. The returned set is the entry for the ptid and holds that ptid's old slots. It is either an existing entry or a fresh one appended. |
| Registry.BreakpointRegistry.InsertHwBreakpoint1 | gdb/sparc-linux-nat.c:164-211 | The result and requests are those of `InsertDriver` on the ptid's slots at the truncated address. Only that inferior's entry changes, and the registry stays well formed. |
| Registry.BreakpointRegistry.RemoveHwBreakpoint1 | gdb/sparc-linux-nat.c:215-237 | The result and requests are those of `RemoveDriver` on the ptid's slots. Only that inferior's entry changes. |
| Registry.BreakpointRegistry.InsertHwBreakpoint | gdb/sparc-linux-nat.c:250-256 | The placed address is the aligned requested address. An execute breakpoint is inserted there with no mask. |
| Registry.BreakpointRegistry.RemoveHwBreakpoint | gdb/sparc-linux-nat.c:240-247 | The execute breakpoint at the truncated placed address is removed. |
| Registry.BreakpointRegistry.InsertWatchpoint | gdb/sparc-linux-nat.c:272-277 | A watchpoint of the given type is inserted at the aligned address with no mask. The length is ignored. |
| Registry.BreakpointRegistry.RemoveWatchpoint | gdb/sparc-linux-nat.c:263-270 | The watchpoint is removed at the aligned address (corrected, see Findings). |
| Registry.BreakpointRegistry.InsertMaskWatchpoint | gdb/sparc-linux-nat.c:283-287 | A watchpoint is inserted at the aligned address with the mask truncated to 32 bits. |
| Registry.BreakpointRegistry.RemoveMaskWatchpoint | gdb/sparc-linux-nat.c:293-300 | The watchpoint is removed at the aligned address (corrected, see Findings). The mask is not part of the identity. |
| Registry.BreakpointRegistry.StoppedByWatchpoint | gdb/sparc-linux-nat.c:321-345 | The answer is `WatchpointStop` on the inferior's slots. A trap creates the inferior's entry if missing; any other signal leaves the registry unchanged. |
| Registry.BreakpointRegistry.IndexOfProcess | gdb/sparc-linux-nat.c:361-366 | The search loop returns the position of the first entry of the process, or the number of entries exactly when there is none. |
| Registry.BreakpointRegistry.ForgetProcessAsWritten | gdb/sparc-linux-nat.c:355-379 | The first entry whose pid matches is cleared and removed, so the registry becomes `ForgetFirst` of the old one. Without such an entry nothing changes. |
| Registry.BreakpointRegistry.ForgetProcess | gdb/sparc-linux-nat.c:355-379 | Every entry of the process is removed, so the registry becomes `ForgetAll` of the old one (corrected, see Findings). |

## Left out

- The register set wrappers (`supply_gregset`, `fill_gregset` and the floating point ones, lines 41-64) and the target vector wiring (lines 383-412). They only pass data to other parts of GDB, which are not part of this model.
- The numeric request codes of `PTRACE_SETHBREGS` and the `INSERT_BREAKPOINT`, `CHANGE_MASK` and `REMOVE_BREAKPOINT` encodings (lines 35-39). A request is modelled by what it asks for (`Allocator.Call`), not by its encoded data word.
- Reading the siginfo with `PTRACE_GETSIGINFO` (line 328) is not modelled. Its signal number and fault address are parameters.
- Memory management (`xcalloc`, `xfree`) and the diagnostics printed with `printf`. The record that the source does not free when a remove request fails (lines 233-234) is a leak with no effect on the bookkeeping, so it is not modelled.
- The `num` field is not modelled as a field, because the code never updates it. The count is derived by `SlotSets.Occupied`.
- `enabled` is a C `int` that is only ever set to 1; it is modelled as a `bool`.
- HwBreakpoint.PlaceAddr: clearing the two low bits is stated arithmetically (`w - w % 4`) rather than as a bitwise `&` on a 32-bit word. The int cast in between has no effect on the 32-bit value.
- Registry.BreakpointRegistry.ForgetProcessAsWritten: the source reads `inf_bps` uninitialised when no entry matches (lines 357 and 368). This is undefined behaviour in C; the model takes the intended meaning, a no-op.
- Concurrency is not modelled: GDB calls these target operations from one thread.

## Findings

| source | as written | input that shows it | evidently intended | confidence | as-written member | corrected member |
|---|---|---|---|---|---|---|
| gdb/sparc-linux-nat.c:106 | The free-position loop tests the constant `SPARC_MAX_HW_BPS`, which is never false, so on a full set it reads past the four positions. The removal loop at line 118 has the same test; it runs past the end only for a record that is not stored, which the remove driver never passes (`SlotSets.StoredRecordScanStops`). | a set whose four positions are filled | the test `i < SPARC_MAX_HW_BPS`, returning -1 on a full set | high, not executed | SlotSets.FullSetScanRunsPastEnd | SlotSets.PlacedFillsLowestFree |
| gdb/sparc-linux-nat.c:190-210 | The record is stored before the install request. When the request fails it is freed but left in its position: the result is -1 and the entry dangles. A later lookup reads freed memory (line 97), which is undefined; only if that memory still reads as the record is a later insert of the same breakpoint refused as a duplicate, as the model's counterexample shows. | empty set, execute breakpoint at 0x1000, install result -1 | a failed install leaves the set unchanged | high, not executed | Allocator.FailedInstallLeavesDanglingRecord | Allocator.InsertRollsBack |
| gdb/sparc-linux-nat.c:203 | The mask request passes `bp->mask`, which is still 0, instead of the requested mask. | empty set, write watchpoint at 0x1000, mask 0xff, install result 2 | program the slot with the requested mask | high, not executed | Allocator.MaskRequestSendsStaleMask | Allocator.InsertProgramsMask |
| gdb/sparc-linux-nat.c:267, gdb/sparc-linux-nat.c:297 | Watchpoint removal only truncates the address, while insertion aligns it, so a watchpoint at an unaligned address cannot be removed. | empty set, write watchpoint inserted at 0x1003, then removed at 0x1003 | align the address on removal as on insertion | high, not executed | Allocator.UnalignedWatchpointStaysInstalled | Allocator.WatchpointRoundTrip |
| gdb/sparc-linux-nat.c:361-378 | Entries are kept per ptid, but the reclaimer removes only the first entry with the process id, leaving the entries of the process's other threads. | entries for ptids (7, 7, 0) and (7, 8, 0), forget process 7 | every entry of the ended process is released | medium, not executed | Registry.ForgetFirstLeavesSibling | Registry.ForgetAll |
