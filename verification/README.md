# Verified models of the NextBSD kernel overlay

Dafny models of the parts of the NextBSD kernel overlay that carry state, arithmetic or
concurrency, with proofs of what they keep. `dafny verify dfyconfig.toml` checks all of it.

| file | what it models |
|---|---|
| `Machine.dfy` | bytes, pages, 64-bit words and result codes |
| `ThreadedTree.dfy` | the predecessor walk over the threaded search tree of a VM map's entries |
| `RootPivot.dfy` | `vfs.pivot`: mount list, root flag, global root vnode, processes, prisons and vnode use counts |
| `SendRights.dfy` | send rights under interleaved kext load requests, device-event watches and host slot swaps |
| `IokitStrings.dfy` | the bounded string copy of the IOKit messages |
| `PageCopy.dfy` | `mach_vm_copy`, page by page over one address space |
| `VmMap.dfy` | `mach_vm_allocate` over the entries of a map, 64-bit wrap-around included |
| `CopyObjects.dfy` | `vm_map_copyin`, `vm_map_copyout`, `vm_map_copy_discard` and the life of a copy object |
| `BusState.dfy` | the bus-quiescence counter, its generation, and `mach_wait_quiet` |
| `WaitTicks.dfy` | the nanosecond-to-tick arithmetic of `mach_wait_quiet` |
| `ExceptionReply.dfy` | the packed reply of the two exception-port routines |
| `SyscallWire.dfy` | installing the Mach traps in the system call table and taking them out |
| `LazyThread.dfy` | publication of lazily made per-thread Mach state |
| `PidListing.dfy` | the filtered, bounded walk of `proc_listpids` |

## How the source is rendered

Code that changes things step by step is a class or a method over arrays and fields, proved
against a function of the old state: the tree walk, the pivot, the page copy, the maps and
copy objects, the reply, the system call table, the listing. Where threads interleave, a
state holds any number of threads with their program points, an event is one atomic step of
one of them, and the theorems are about every sequence of events: `SendRights`, `BusState`,
`LazyThread`. In `SendRights` every access to a freed port, every drop of a reference that is
not there, and every release or send without a right to a live port is a crash; the main
theorem is that no run crashes. A release is two steps there, since the port is unlocked
between the count of send rights and that of references; the second may come at any time
after the first, so that there are more runs than the kernel has.

Calls into code outside the overlay are modelled by what the overlay says of them, or enter
as parameters:

- `namei`, `vfs_busy`, `priv_check`, the copy of the sysctl's path, memory allocation, faults
  of `copyout`, and refusals of `kern_syscall_deregister` are parameters.
- `mountcheckdirs` is the walk that the comments of `vfs_pivot.c` describe: every process's
  root and current directory, the global root vnode if it still is the old one, every
  prison's root, one use count with each.
- `vm_map_findspace`, `vm_map_insert` and `vm_map_remove` are the kernel's lowest-gap search,
  insertion of fresh zero-filled memory and removal with clipping. `copyinmap` is `copyin`,
  so the source map is the current one.
- `kern_syscall_register` takes the lowest loadable slot, or an explicit slot that is
  loadable or reserved.
- The threads of the search tree are those the walk relies on: with no left child, `left` is
  the in-order predecessor, with no right child, `right` is the in-order successor, and the
  header's `right` is the least entry.

## Where the code does not do what its comments or names suggest

The models follow the code; each case has its exact condition.

- The comment over `vm_map_copyout` says that the caller is responsible for the object after
  any failure. The object is freed as soon as space has been found, also when the write then
  faults. The caller in `ipc_kmsg.c` discards the object after any failure, so an object is
  freed twice if and only if the receiver has room and the write faults, and otherwise once
  (`CopyObjects.Receive`, `CopyObjects.Transfer`; `CopyObjects.FaultFreesTwice` is an input).
- The size of a copy object is an unchecked 64-bit sum, and the range test of `vm_map_copyin`
  lets lengths pass for which it wraps around. The object has room for header and data if
  and only if the sum fits (`CopyObjects.CopySizeHolds`), and it does whenever the range is
  mapped (`CopyObjects.CopyIn`).
- The parameter of `vm_map_copyin` that asks for the source to be removed has no effect on
  the kernel's map: the caller's block is freed either way, and kept if and only if the
  request is empty or refused by the range test (`CopyObjects.CopyInKernel`).
- `mach_vm_copy` tests its unsigned size after the loop body. A request for zero bytes does
  not succeed with nothing copied: it goes from page to page until one faults
  (`PageCopy.ZeroSizeFails`).
- `mach_wait_quiet` rounds a budget up correctly if and only if the sum `ns + q - 1` fits in
  64 bits, `q` being the nanoseconds of a tick; above that a huge budget becomes one tick
  (`WaitTicks.TicksExact`, `WaitTicks.WrapsToOne`).
- Deregistering the system calls restores the table if and only if no wired slot is refused
  (`SyscallWire.RestoredIffNotRefused`).
- A pivot renames the new mount to "/" and leaves the old mount's name alone. The new root
  is the only mount of that name if and only if no other had it before
  (`RootPivot.OnlyRootName`).
- `mach_wait_quiet` is to block until the bus is quiet, but a waiter can sleep on while it
  is: its test and its going to sleep are two steps. In a given sleep this happens if and
  only if the bus was quiet already when the sleep began, after a return to zero whose wakeup
  came too early (`BusState.AsleepInQuiet`, `BusState.WakeupMissed`;
  `BusState.MissedWakeupRun` is an input).

## Model

| member | source | states |
|---|---|---|
| `ThreadedTree.EntryPred` | src-overlay/sys/compat/mach/compat_shim.h:242-250 | in every well-formed map the walk ends and gives the greatest entry below the given one, the header for the least |
| `ThreadedTree.Locate` | src-overlay/sys/compat/mach/compat_shim.h:243-244 | why one comparison of starts tells a child from a thread: without a left child, going right from the predecessor never leads below the entry |
| `ThreadedTree.NothingBetween` | src-overlay/sys/compat/mach/compat_shim.h:242-250 | the predecessor is below the entry and no entry lies between the two |
| `ThreadedTree.BeforeInOrder` | src-overlay/sys/compat/mach/compat_shim.h:242-250 | the predecessor is the element one place before in the in-order listing |
| `ThreadedTree.InOrderAll` | src-overlay/sys/compat/mach/compat_shim.h:242-250 | the listing has every entry and no other |
| `ThreadedTree.BackwardVisitsAll` | src-overlay/sys/compat/mach/compat_shim.h:242-250 | a chain of walks from the greatest entry to the header lists every entry once, in reverse order |
| `ThreadedTree.ReverseIsBackwardChain` | src-overlay/sys/compat/mach/compat_shim.h:242-250 | the reversed listing is such a chain |
| `RootPivot.Kernel.PivotTo` | src-overlay/sys/kern/vfs_pivot.c:43-136 | every path: success if and only if the path leads to the root of a mount that is not the root file system and can be pinned, and then every field is as a pivot leaves it; each error has its condition and changes nothing |
| `RootPivot.Kernel.PivotFound` | src-overlay/sys/kern/vfs_pivot.c:61-136 | from the looked-up vnode on: the two refusals give the lookup reference back, success ends in the pivoted state, and no vnode is released that nobody holds |
| `RootPivot.Kernel.SwapPinned` | src-overlay/sys/kern/vfs_pivot.c:71-131 | the pin of the new mount is given back, so that the swap is all that remains of it |
| `RootPivot.Kernel.Swap` | src-overlay/sys/kern/vfs_pivot.c:78-125 | the lookup reference, the extra global reference, the migration and the two releases cancel to one move of the old root's holders |
| `RootPivot.Kernel.MountCheckDirs` | src-overlay/sys/kern/vfs_pivot.c:102-117 | the walk repoints every process, prison and, if still old, the global root, moving one use count with each |
| `RootPivot.Kernel.SysctlPivot` | src-overlay/sys/kern/vfs_pivot.c:138-164 | only a write of a path that fits, from init or with privilege, reaches the pivot, and success is such a write with a successful pivot; anything else changes nothing |
| `RootPivot.PivotMeaning` | src-overlay/sys/kern/vfs_pivot.c:82-125 | process by process, prison by prison and mount by mount: what named the old root names the new one and all else is as it was, the new mount alone moves in the list, and every use count is the number of holders |
| `RootPivot.RequestKeepsValid` | src-overlay/sys/kern/vfs_pivot.c:64-125 | a request keeps the ledger (use count = holders) and the single root mount at the head of the list |
| `RootPivot.RunKeepsValid` | src-overlay/sys/kern/vfs_pivot.c:102-125 | so does any sequence of requests, and no mount is lost |
| `RootPivot.PivotOneRoot` | src-overlay/sys/kern/vfs_pivot.c:82-110 | exactly one mount has the root flag, it heads the list and is the root vnode's mount |
| `RootPivot.MoveToHead` | src-overlay/sys/kern/vfs_pivot.c:86-89 | the new list is a permutation with the other mounts in unchanged order |
| `RootPivot.OldRootReleased` | src-overlay/sys/kern/vfs_pivot.c:112-125 | afterwards no process, no prison and no global root holds the old root, whose count is that of its other references; the old mount keeps its name |
| `RootPivot.OnlyRootName` | src-overlay/sys/kern/vfs_pivot.c:91-100 | the new root, at the head, is named "/", and no other mount is if and only if none but it was before |
| `RootPivot.Kernel.SwapWalkFirst` | src-overlay/sys/kern/vfs_pivot.c:103-125 | the same steps with the walk before the global root is set: the release of the old root takes somebody else's reference or finds none, and the new root keeps a count that nobody holds |
| `SendRights.RunSafe` | src-overlay/sys/compat/mach/iokit_kextd.c:57-100 | no interleaving touches a freed port or releases or sends without a reference, and the ledger holds in every state |
| `SendRights.StartSafe` | src-overlay/sys/compat/mach/iokit_notify.c:102-185 | the same from the empty system with any number of threads |
| `SendRights.StepKeeps` | src-overlay/sys/compat/mach/mach_traps.c:308-332 | every step keeps: references = receive right + rights in name tables + host slots + watches + queued messages + rights held by threads + references being dropped |
| `SendRights.HeldPortUsable` | src-overlay/sys/compat/mach/iokit_kextd.c:62-99 | a right held after the lock was dropped keeps its port, whatever became of the slot or watch |
| `SendRights.QuietMeansNoLeak` | src-overlay/sys/compat/mach/iokit_notify.c:126-131 | once all calls have returned, all messages are received and no drop is outstanding, no reference is unaccounted for |
| `SendRights.CopySendLedger` | src-overlay/sys/compat/mach/ipc/ipc_port.c:1149-1170 | copying a right adds one to a live port and nothing to a dead one |
| `SendRights.ReleaseSendLedger` | src-overlay/sys/compat/mach/ipc/ipc_port.c:1229-1262 | up to the unlock a release turns a right into a reference still to be dropped, dead or alive |
| `SendRights.DroppedLedger` | src-overlay/sys/compat/mach/ipc/ipc_port.c:1265 | dropping it, any number of steps later, keeps the ledger and frees the port with the last reference |
| `SendRights.SendLedger` | src-overlay/sys/compat/mach/ipc/ipc_mqueue.c:290-312 | a send moves the right into the message, or gives its reference up with a dead port |
| `SendRights.SwapKeeps` | src-overlay/sys/compat/mach/mach_traps.c:323-326 | the swap under the host lock moves one right into the slot and one out |
| `SendRights.ReleaseOldKeeps` | src-overlay/sys/compat/mach/mach_traps.c:328-329 | the old right is released once |
| `SendRights.CopyKextdKeeps` | src-overlay/sys/compat/mach/iokit_kextd.c:57-65 | the right copied under the host lock is a new one |
| `SendRights.KextdKeeps` | src-overlay/sys/compat/mach/iokit_kextd.c:67-100 | it is released without memory and spent by the send otherwise |
| `SendRights.KextCopyAnswers` | src-overlay/sys/compat/mach/iokit_kextd.c:58-66 | a load request takes the right of the kextd slot, if that is live, and does nothing otherwise |
| `SendRights.KextAllocAnswers` | src-overlay/sys/compat/mach/iokit_kextd.c:68-72 | with memory the right goes into the message, without it is released and nothing is queued |
| `SendRights.KextSendAnswers` | src-overlay/sys/compat/mach/iokit_kextd.c:99 | exactly one message is queued on the port if it is live, and none on any other |
| `SendRights.RequestReachesKextd` | src-overlay/sys/compat/mach/iokit_kextd.c:49-101 | a whole request that nobody interrupts, with memory and a live port in the kextd slot, queues one message on that port and changes nothing else |
| `SendRights.RequestWithoutKextd` | src-overlay/sys/compat/mach/iokit_kextd.c:58-66 | without such a port it changes nothing |
| `SendRights.KextOrigin` | src-overlay/sys/compat/mach/iokit_kextd.c:57-99 | in every interleaving the right a request sends with was the live right of the kextd slot at an instant inside that request |
| `SendRights.SetRequest` | src-overlay/sys/compat/mach/mach_traps.c:308-332 | a whole call that nobody interrupts puts the new right into the slot that was named, leaves the other slot alone and gives up the old right |
| `SendRights.SetSwapAnswers` | src-overlay/sys/compat/mach/mach_traps.c:323-326 | the swap, in any interleaving, is of the slot that was named |
| `SendRights.CopyInWatchKeeps` | src-overlay/sys/compat/mach/iokit_notify.c:64-84 | a registered port is retained |
| `SendRights.CopyWatchKeeps` | src-overlay/sys/compat/mach/iokit_notify.c:103-114 | a snapshot is a new right, or none if the port has died since it was looked at |
| `SendRights.NotifyKeeps` | src-overlay/sys/compat/mach/iokit_notify.c:137-185 | each send consumes its snapshot on every path |
| `SendRights.WatchAnswers` | src-overlay/sys/compat/mach/iokit_notify.c:64-84 | a right the task has is copied and its watch goes behind the others |
| `SendRights.LookAnswers` | src-overlay/sys/dev/iokit/iokit_registry.c:730-746 | a live watch that matches is snapshot, a live one that does not is passed, a dead one is unlinked |
| `SendRights.CopyAnswers` | src-overlay/sys/compat/mach/iokit_notify.c:103-114 | the snapshot is of the watch looked at, and is left out if its port has died since |
| `SendRights.LockAnswers` | src-overlay/sys/dev/iokit/iokit_registry.c:722-748 | the walk takes the lock, unless it is taken, and gives it back before any send |
| `SendRights.NotifyAnswers` | src-overlay/sys/compat/mach/iokit_notify.c:145-156 | a live snapshot goes into a message if there is memory, any other is to be released |
| `SendRights.SpendAnswers` | src-overlay/sys/compat/mach/iokit_notify.c:183-184 | exactly one message is queued on the port if it is live, and none on any other |
| `SendRights.EmitDelivers` | src-overlay/sys/dev/iokit/iokit_registry.c:711-758 | a whole event that nobody interrupts, with memory, for any list of watches: one message for every live watch that matches and none for another, the dead watches are gone, the live ones keep their order |
| `SendRights.LockStepKeeps` | src-overlay/sys/dev/iokit/iokit_registry.c:724-752 | at most one thread walks the watches, with the lock, at a valid place |
| `IokitStrings.StrCopy` | src-overlay/sys/compat/mach/iokit_notify.c:46-55 | the field holds the text cut to n - 1 characters and a terminator, the rest of it is untouched |
| `IokitStrings.TextMeaning` | src-overlay/sys/compat/mach/iokit_notify.c:46-55 | the text is what stands in front of the first terminator, and a null pointer has none |
| `IokitStrings.ReadBack` | src-overlay/sys/compat/mach/iokit_kextd.c:37-46 | reading the field back gives the cut text, and the whole text if and only if it is shorter than the field |
| `PageCopy.MachVmCopy` | src-overlay/sys/compat/mach/mach_vm.c:360-398 | misaligned requests are refused; success if and only if there is something to copy, all of the source may be read and all of the destination written; memory is then as the copy law says, and otherwise as the page copies up to the first fault leave it |
| `PageCopy.CopyLaw` | src-overlay/sys/compat/mach/mach_vm.c:379-393 | success copies down like memmove and copies up by repeating the first dst - src bytes, and touches nothing else |
| `PageCopy.CopiesMeaning` | src-overlay/sys/compat/mach/mach_vm.c:379-393 | that law byte by byte over all of memory |
| `PageCopy.SucceedsWhenAccessible` | src-overlay/sys/compat/mach/mach_vm.c:380-390 | in pages: success if and only if every source page may be read and every destination page written, and then neither range wraps around |
| `PageCopy.CopySucceeds` | src-overlay/sys/compat/mach/mach_vm.c:371-390 | the same in bytes, for the size the caller gave |
| `PageCopy.CopiedByte` | src-overlay/sys/compat/mach/mach_vm.c:380-390 | after any number of pages, each byte holds what was at its origin at the start |
| `PageCopy.FailureKeepsPrefix` | src-overlay/sys/compat/mach/mach_vm.c:381-397 | the first page that may not be read or written ends the copy, with the pages before it copied |
| `PageCopy.ZeroSizeFails` | src-overlay/sys/compat/mach/mach_vm.c:387-390 | a size of zero never succeeds |
| `VmMap.Map.Allocate` | src-overlay/sys/compat/mach/mach_vm.c:196-238 | success adds exactly one free, aligned range of round_page(size) zero bytes, the lowest that is free or the one asked for; failure changes neither map nor address; the result is determined for every size, those that round to 0 included |
| `VmMap.Map.FindSpace` | src-overlay/sys/compat/mach/mach_vm.c:213-217 | the lowest address with room, and the sentinel if and only if there is none |
| `VmMap.Map.AllocateAt` | src-overlay/sys/compat/mach/mach_vm.c:220-231 | the range checks hold up although the sum may wrap around |
| `VmMap.RoundPageMeaning` | src-overlay/sys/compat/mach/mach_vm.c:199 | round_page is the least page multiple not below the size, or 0 when that does not fit |
| `VmMap.TruncPageMeaning` | src-overlay/sys/compat/mach/mach_vm.c:213 | trunc_page is the greatest page multiple not above the address |
| `VmMap.RoomMeaning` | src-overlay/sys/compat/mach/mach_vm.c:215-231 | an address is free if and only if it is a page address at or above the start, in the bounds of the map, with none of the addresses asked for mapped |
| `VmMap.RoundPageWraps` | src-overlay/sys/compat/mach/mach_vm.c:725 | of an address and a length whose sum wraps around, round_page takes what is left, so that the range test may be read on the unbounded sum |
| `VmMap.InsertPlaced` | src-overlay/sys/compat/mach/mach_vm.c:228-231 | entries stay aligned, disjoint, ordered and in bounds when a free range is inserted |
| `VmMap.ClipPlaced` | src-overlay/sys/compat/mach/mach_vm.c:586-591 | and when a range is removed |
| `VmMap.ClipMapped` | src-overlay/sys/compat/mach/mach_vm.c:586-591 | removal unmaps the range and nothing else |
| `CopyObjects.CopyIn` | src-overlay/sys/compat/mach/mach_vm.c:712-764 | the object is a kernel buffer with the source bytes as they were and room for all of them; each result has its condition; a fault leaks no object and keeps the source; success can remove it |
| `CopyObjects.CopyInInternal` | src-overlay/sys/compat/mach/mach_vm.c:548-599 | the object is freed when the read faults, so that live objects grow by the result or not at all |
| `CopyObjects.CopyInKernel` | src-overlay/sys/compat/mach/mach_vm.c:575-598 | a kernel caller's block is freed once unless the request is empty or refused, without memory too and with either value of the flag |
| `CopyObjects.CopySizeHolds` | src-overlay/sys/compat/mach/mach_vm.c:564-565 | the unchecked sum leaves room for header and data if and only if it fits in 64 bits, as for every 32-bit length; the range test before does not ensure it |
| `CopyObjects.MappedFits` | src-overlay/sys/compat/mach/mach_vm.c:720-726 | the wrap-around test refuses no range that is mapped |
| `CopyObjects.Place` | src-overlay/sys/compat/mach/mach_vm.c:621-643 | the result is determined by room and write limit; on success the data stands at the start of a new page-aligned range with zeros behind; a write that faults leaves the range with its first bytes; every mapped byte stays, and lack of room leaves the map alone |
| `CopyObjects.CopyOut` | src-overlay/sys/compat/mach/mach_vm.c:612-672 | the object is freed once if there is room, written or not, and survives if and only if there is none; the result is determined in every case |
| `CopyObjects.Discard` | src-overlay/sys/compat/mach/mach_vm.c:1104-1115 | a null object is left alone, any other is freed once |
| `CopyObjects.Receive` | src-overlay/sys/compat/mach/ipc/ipc_kmsg.c:2498-2519 | the receiver frees the object once if there is no room or the write goes through, and twice if and only if there is room and the write faults |
| `CopyObjects.FaultFreesTwice` | src-overlay/sys/compat/mach/ipc/ipc_kmsg.c:2504-2514 | an input for that: one byte to a map with one free page that cannot be written |
| `CopyObjects.Transfer` | src-overlay/sys/compat/mach/mach_vm.c:712-764 | round trip, to another map or the same: what arrives is what the source held at copyin, in a new range that meets no mapping; it succeeds if and only if there is memory, the source is mapped, there is room and the write goes through; no object stays alive, and one is freed twice exactly when only the write failed |
| `BusState.RunBalanced` | src-overlay/sys/compat/mach/mach_busystate.c:62-75 | in every run the counter is the number of open brackets, and the generation plus increments still to come is the number of returns to zero |
| `BusState.StepBalanced` | src-overlay/sys/compat/mach/mach_busystate.c:62-75 | each atomic step keeps this, and the counter is never negative |
| `BusState.ForestRun` | src-overlay/sys/compat/mach/mach_busystate.c:8-13 | nested brackets return the counter to its start; from zero they raise the generation by the number of roots, from above zero not at all |
| `BusState.Counters.ProbeAll` | src-overlay/sys/compat/mach/mach_busystate.c:62-75 | the same for the counters updated in place by one thread |
| `BusState.SuccessHasCause` | src-overlay/sys/compat/mach/mach_busystate.c:121-130 | a successful return saw the bus quiet inside the call or hit its deadline inside the call |
| `BusState.ErrorHasCause` | src-overlay/sys/compat/mach/mach_busystate.c:121-130 | a call that returns an error was interrupted with that error inside the call; the deadline never is an error |
| `BusState.WaiterAnswers` | src-overlay/sys/compat/mach/mach_busystate.c:121-130 | a quiet bus gives success at once, a busy one a sleep, the deadline success, an interrupt its error, a wakeup another test |
| `BusState.SleeperReleased` | src-overlay/sys/compat/mach/mach_busystate.c:68-75 | a waiter asleep at a return to zero has left that sleep when the end event is over |
| `BusState.AsleepInQuiet` | src-overlay/sys/compat/mach/mach_busystate.c:121-122 | in a sleep, a waiter is ever asleep on a quiet bus if and only if the bus was quiet already when the sleep began |
| `BusState.WakeupMissed` | src-overlay/sys/compat/mach/mach_busystate.c:121-122 | that takes a return to zero and its wakeup both between the waiter's test, which found the bus busy, and its going to sleep |
| `BusState.MissedWakeupRun` | src-overlay/sys/compat/mach/mach_busystate.c:121-122 | a run that ends so, with one prober and one waiter |
| `WaitTicks.TicksExact` | src-overlay/sys/compat/mach/mach_busystate.c:106-119 | the ticks are the least that cover the budget, up to INT_MAX, if and only if the sum does not wrap around |
| `WaitTicks.WrapsToOne` | src-overlay/sys/compat/mach/mach_busystate.c:109-115 | after a wrap-around the sleep is one tick |
| `WaitTicks.TicksMonotone` | src-overlay/sys/compat/mach/mach_busystate.c:110-118 | a longer budget never sleeps less |
| `WaitTicks.TicksLongEnough` | src-overlay/sys/compat/mach/mach_busystate.c:108-112 | below the clamp the ticks last at least as long as the budget |
| `WaitTicks.NoBudget` | src-overlay/sys/compat/mach/mach_busystate.c:106-107 | no budget is the longest sleep there is |
| `ExceptionReply.Pack` | src-overlay/sys/compat/mach/host_priv_server.c:2568-2583 | moving the pointer back packs array j at base + j * stride, and the size sent fits the structure |
| `ExceptionReply.Stride` | src-overlay/sys/compat/mach/host_priv_server.c:70 | an array takes the least multiple of 8 bytes with room for its elements |
| `ExceptionReply.PackedRead` | src-overlay/sys/compat/mach/host_priv_server.c:2571-2579 | a reader with the same strides recovers all three arrays, and nothing before the second or after the third is touched |
| `ExceptionReply.FillDescriptors` | src-overlay/sys/compat/mach/host_priv_server.c:2757-2768 | the handlers there are, then null names |
| `SyscallWire.Wiring.RegisterAll` | src-overlay/sys/compat/mach/mach_syscall_wire.c:656-699 | every trap has a slot of its own that was free, or NO_SYSCALL, and the other slots are unchanged; from unset offsets, trap i gets the i-th lowest free slot, and NO_SYSCALL if and only if there are no more than i |
| `SyscallWire.FreeSlotsAscend` | src-overlay/sys/compat/mach/mach_syscall_wire.c:659-663 | the free slots are taken in ascending order, none twice |
| `SyscallWire.FreeSlotsAll` | src-overlay/sys/compat/mach/mach_syscall_wire.c:659-663 | the slots counted are all that are free |
| `SyscallWire.NextInTurn` | src-overlay/sys/compat/mach/mach_syscall_wire.c:604-606 | wiring one trap takes the lowest free slot and leaves the others free |
| `SyscallWire.InTurnMeaning` | src-overlay/sys/compat/mach/mach_syscall_wire.c:656-699 | of the free slots each trap has a later one, none below is left free, and none at all once a trap went without |
| `SyscallWire.Register` | src-overlay/sys/compat/mach/mach_syscall_wire.c:616-625 | the lowest free slot without a slot given, an explicit slot if and only if it is free or reserved, and each error |
| `SyscallWire.Wiring.WireOne` | src-overlay/sys/compat/mach/mach_syscall_wire.c:600-614 | the trap gets exactly the slot the registration gives, and NO_SYSCALL with the table untouched when it is refused |
| `SyscallWire.WiredNext` | src-overlay/sys/compat/mach/mach_syscall_wire.c:636-654 | a new slot differs from those taken before |
| `SyscallWire.Wiring.DeregisterAll` | src-overlay/sys/compat/mach/mach_syscall_wire.c:701-741 | the displaced entries go back in the given order |
| `SyscallWire.UnwireRestores` | src-overlay/sys/compat/mach/mach_syscall_wire.c:701-741 | in any order that covers all traps, every slot is restored except the refused ones |
| `SyscallWire.RestoredIffNotRefused` | src-overlay/sys/compat/mach/mach_syscall_wire.c:644-654 | the table is back as it was if and only if no wired slot was refused |
| `SyscallWire.ModuleOrderCovers` | src-overlay/sys/compat/mach/mach_syscall_wire.c:705-740 | the module's own order names each of the fourteen traps, in fourteen steps, and is not the reverse of wiring |
| `LazyThread.RunInv` | src-overlay/sys/compat/mach/mach_thread.c:258-281 | in every run the pointer is set at most once and for good, what it points at is complete, 0 means it is set, and allocated = published + leaked + in progress |
| `LazyThread.StartRun` | src-overlay/sys/compat/mach/mach_thread.c:258-281 | the same from a thread without state, with any number of callers |
| `LazyThread.StepInv` | src-overlay/sys/compat/mach/mach_thread.c:258-281 | each step keeps every record in exactly one place |
| `LazyThread.SwapKeeps` | src-overlay/sys/compat/mach/mach_thread.c:275-280 | the compare-and-swap publishes a complete record or leaks it |
| `LazyThread.EnterAnswers` | src-overlay/sys/compat/mach/mach_thread.c:263-264 | a caller that finds the state answers 0, one that finds none goes on |
| `LazyThread.AllocAnswers` | src-overlay/sys/compat/mach/mach_thread.c:266-268 | a caller without memory answers ENOMEM and allocates nothing, one with memory gets a record of its own |
| `LazyThread.FillAnswers` | src-overlay/sys/compat/mach/mach_thread.c:269-273 | its record is complete when it is ready to be published, and no other record is touched |
| `LazyThread.SwapAnswers` | src-overlay/sys/compat/mach/mach_thread.c:275-281 | the first publishes its own record, a later one leaks it, and both answer 0 |
| `LazyThread.AnswersOnly` | src-overlay/sys/compat/mach/mach_thread.c:258-281 | ENOMEM is the answer of a caller without memory and of no other |
| `PidListing.ListPids` | src-overlay/sys/compat/mach/proc_info.c:91-188 | the first min(nprocs + 30, buffersize / 4) matching ids in list order, with the byte count that matches, and each error case |
| `PidListing.MatchingAt` | src-overlay/sys/compat/mach/proc_info.c:138-176 | every matching process is listed, at the number of matches before it |
| `PidListing.MatchingSound` | src-overlay/sys/compat/mach/proc_info.c:138-176 | every listed id is that of a matching process at its place |
| `PidListing.FilterMeaning` | src-overlay/sys/compat/mach/proc_info.c:142-165 | which processes each filter takes, with the conversion of signed ids |

## Left out

- The three interleaved protocols (`SendRights`, `BusState`, `LazyThread`) are step machines over values, because their point is concurrency; memory ordering weaker than atomic steps is not captured.
- BusState.RunBalanced: the counters are unbounded; 32-bit wrap-around of the counter and the generation is not modelled.
- BusState.SuccessHasCause: no claim that a call ends within its budget; each sleep uses the full timeout.
- SendRights.RunSafe: the no-senders notification of a release; error returns of the calls and the contents of the messages are not part of the states; slots other than the bootstrap and kext ports are refused by the trap before anything happens. A send to a port that the kernel itself receives on, and the unload path that drops all watches at once, are not modelled.
- RootPivot.Kernel.MountCheckDirs: processes have a root and a current directory, not the jail and ABI roots; concurrent pivots, the name cache purge, vnode and mount locks, and the length of a mount name are not modelled.
- PageCopy.MachVmCopy: protections do not change during a copy and no other thread writes to the memory.
- VmMap.Map.Allocate: protections and inheritance; the memory is readable and writable.
- CopyObjects.CopyOut: objects that hold a VM object instead of a buffer, which `vm_map_copyin` never makes; a target map that is not the current one, which panics.
- LazyThread.RunInv: the wrappers that call the lazy initialisation before a trap; the same protocol for tasks.
- SyscallWire.Wiring.RegisterAll: the argument counts and flags of the entries, and the log messages.
- ExceptionReply.Pack: the header, the byte order record and the element count of the reply; the requests and their checks.
- PidListing.ListPids: process groups and unknown filter types, whose lock and buffer clean-up does not match the main walk.
- `mach_vm_read`, whose reading part is not compiled, and `mach_vm_map`, which is a translation of flags.
- The generated message servers, the stubs that return an error, and the registry and catalogue beyond the walk over the watches.
