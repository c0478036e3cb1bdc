# NachOS in Dafny

A model of the teaching operating system NachOS and of the machine it runs on, with proofs of what its parts are for. The HW4
tree is the reference. The disk device is the same text in HW1 and HW4, which differ in the number of tracks, and their file
headers differ in the size of the table: both are parameters. The table cites HW4's file headers, whose file is not plain
text, where the same code is listed in HW4's report. Paths are relative to the repository.

Most modules come in two layers. A specification on values says what an operation does; the program's own form (classes with
the source's fields, methods with its loops, in place) is proved to do exactly that; and the theorems are about the
specification, over all inputs, all runs or all reachable states.

## The modules

**Threads and synchronization.** NachOS runs on one processor, so a region with interrupts off is atomic. `Threads` is the
kernel as a step machine: an action runs from one point where the processor can change hands to the next, and a run is any legal
sequence of actions by any threads, time slices and interrupt handlers. `Scheduling` is the same kernel as fields and routines,
`Semaphore::P` with its loop included; what everybody else does while a thread sleeps is a parameter. `Monitor` runs the code of
`Lock` and `Condition` on it, one program counter per thread; `SynchList` runs any number of producers and consumers on the
monitor. `RoundRobin`, `WaitQueues` and `ListCalls` tell, of fields and of the actions of a run alone, what these do for their
callers: turns, queues that are first in, first out, and each routine from its call to its return; `DiskCalls` does so for the
disk. `ExclusiveUse` runs any number of threads that take a lock, start a device and wait for its interrupt: `SynchDisk` adds
the disk's data to it, `PostThreads` the post office's messages. Wake-up is by barging loops, so the claims that no wake-up is
lost rest on counting invariants: units available against threads woken and not yet back.

**Events.** `Interrupts` is the clock with its sorted list of pending interrupts. A device is an arbitrary function from the
interrupts fired so far to what the handler of the last one schedules, so the theorems hold whatever handlers do during the
drain. `DeviceRuns` is what the runs come to: what was asked for is what fires or is pending, a timer goes on, a switch happens
if a handler asked for it. The list of pending interrupts is the linked list of `Lists`, with its stable sorted insertion.
`Disks` is the disk's timing, proved against a head that moves and a disk that turns: seek, rotation and track buffer; it
schedules its completions through `Interrupts`.

**The MIPS simulator.** `Bits` defines the bitwise operators of C by recursion on numbers; words are numbers below 2^32 and
every wrap-around is written out. `Multiplier` is the 64-bit product in 32-bit halves, `Mips` the instruction set on values,
`Simulator` the same on `registers[]`, in place, over the memory unit of `Memory` (page table and TLB). `DelaySlot` is about
delayed loads and the interrupts that apply them early, `Unaligned` about the LWL/LWR and SWL/SWR pairs (little-endian, SIM_FIX
build; Appendix A of Kane and Heinrich, *MIPS RISC Architecture*), `SoftwareTlb` about a TLB that misses and is refilled,
`Decoding` about the fields of instruction words, `Arithmetic` about overflow, division and the bits of logical and shift
instructions. `Encoding` has the instruction set's numbers as the architecture manual lists them, and `Manual` what each
instruction does, said in integers, bits and the bytes a program sees: the value semantics is proved to do that.

**Storage.** `Bitmaps` refines a finite set, `FileHeaders` allocates and frees HW4's chains of headers from it, `Volumes` keeps
the books of a run of that, `OpenFiles` is a byte string over whole sectors, `PersistentBitmaps` keeps a bitmap in such a file.

**The network.** `Packets` is the wire format, `PostOffice` any number of machines with their devices, postal workers and
mailboxes over links that lose packets and do not reorder them; an ASSERT that fails ends its machine. `PostThreads` proves that
the threads of all machines, on `ExclusiveUse` and `Threads`, do nothing but what these machines do, and `MailHistory` what is
sent, lost and handed to readers.

**The hash table.** `HashTables` refines a map, growth and iteration included.

## What the code does not do

Where a promise turned out not to hold, the code is modelled as it is and the exact condition is proved.

- A failed `FileHeader::Allocate` of HW4 leaves the free map unchanged exactly if already the first header's check failed
  (`FailureMarks`, `FailureExample`); HW1's, with one header per file, always does.
- `FileHeader::Deallocate` of HW4 does not free the sectors of the chain: the free map is restored exactly for files that fit
  one header (`RestoredIffOneHeader`, `LeakExample`).
- SRL and SRLV shift a signed int: they are logical shifts exactly if the sign bit is clear or the count is 0
  (`SrlIsLogicalIff`, `SrlExample`).
- A bitmap fetched from a file shorter than itself keeps its own bytes past the end (`RestoredIff`).
- A partial write to the last sector of a file zeroes that sector past the end of the file (`IsWritten`, in
  `OpenFile.WriteAt`).
- `PostOfficeOutput::Send` does not ask whether the destination has the mailbox: the receiver's ASSERT then fails and takes its
  machine, and all mail behind the message, with it. Exactly then, and for no other reason, does an ASSERT on the way fail
  (`FailsExactlyMisaddressed`, `FailedIffMissent`, `SafeIffMailboxesExist`, `FailingExample`).
- `FileHeader::Allocate` takes any length; as `MaxFileSize` is unsigned, a negative one makes a file of one full header
  (`NegativeLength`, `LengthIff`).
- The timer does not interrupt every `TimerTicks`: it asks for its next interrupt when the last one fires, which is up to 9 ticks
  late, so the interrupts are that far apart exactly if they fire on time (`PeriodIff`, `DriftExample`).
- BGEZAL, BLTZAL and JALR write their link before they read rs, and so test, or go to, the link if rs is its register
  (`Branches`, `Jumps`).
- An interrupt behind a load whose delay slot is not clean can be visible; `HazardSeen` is an example.

## Model

| member | source | states |
|---|---|---|
| `Threads.StepKeeps` | HW4/NachOS-4.0_MP4/code/threads/scheduler.cc:56-167 | every atomic region of the kernel (a turn of P, V, Yield, Fork, Finish, the dispatch in Sleep, CheckToBeDestroyed) passes its ASSERTs and keeps the invariant on lists, current thread, doomed thread and semaphore counts |
| `Threads.NoAssertFails` | HW4/NachOS-4.0_MP4/code/threads/scheduler.cc:103-167 | in every run from boot, whatever threads, time slices and handlers do, no ASSERT of the kernel fails, `ASSERT(toBeDestroyed == NULL)` and the one against deleting the running thread included |
| `Threads.OnePlaceEach` | HW4/NachOS-4.0_MP4/code/threads/thread.cc:145-256 | in every reachable state each live thread is in exactly one place: running, on the ready list once, on one semaphore queue once, finishing, or doomed; also while a blocked current thread idles |
| `Threads.DeletedOnceAndNeverRunning` | HW4/NachOS-4.0_MP4/code/threads/thread.cc:170-183 | a finished thread is deleted at most once, never while it is current, ready or waiting, and until then it is exactly the sleeping or the doomed one |
| `Threads.SemaphoreConserves` | HW4/NachOS-4.0_MP4/code/threads/synch.cc:75-117 | over any run the value of a semaphore is its old value plus completed V's minus completed P's |
| `Threads.NoLostWakeup` | HW4/NachOS-4.0_MP4/code/threads/synch.cc:75-117 | in every reachable state the value is not negative and, while threads are queued, at most the number of threads woken by V that have not yet re-run their test |
| `Threads.SoleSleeper` | HW4/NachOS-4.0_MP4/code/threads/synch.cc:75-93 | if one thread at most can be in P of a semaphore, it is asleep on it only while the value is 0 |
| `Scheduling.NachosKernel.ReadyToRun` | HW4/NachOS-4.0_MP4/code/threads/scheduler.cc:56-64 | the thread goes to the end of the ready list, which must not hold it |
| `Scheduling.NachosKernel.FindNextToRun` | HW4/NachOS-4.0_MP4/code/threads/scheduler.cc:74-85 | takes the front of the ready list, or reports that there is none |
| `Scheduling.NachosKernel.Run` | HW4/NachOS-4.0_MP4/code/threads/scheduler.cc:103-134 | up to SWITCH: a finishing thread becomes the doomed one, the next thread becomes current |
| `Scheduling.NachosKernel.CheckToBeDestroyed` | HW4/NachOS-4.0_MP4/code/threads/scheduler.cc:160-167 | deletes the doomed thread, which is never the current one; the new state is the step machine's |
| `Scheduling.NachosKernel.V` | HW4/NachOS-4.0_MP4/code/threads/synch.cc:102-117 | in-place V refines the step machine, for threads and for handlers, and keeps the invariant |
| `Scheduling.NachosKernel.Fork` | HW4/NachOS-4.0_MP4/code/threads/thread.cc:91-108 | in-place Fork refines the step machine |
| `Scheduling.NachosKernel.Yield` | HW4/NachOS-4.0_MP4/code/threads/thread.cc:200-219 | in-place Yield (FindNextToRun, ReadyToRun, Run) refines the step machine; with somebody ready, the front of the ready list is current and the caller last in line, else nothing has changed |
| `Scheduling.NachosKernel.SleepLoop` | HW4/NachOS-4.0_MP4/code/threads/thread.cc:238-256 | the idle loop of Sleep refines a run of handlers followed by one dispatch, and dispatches exactly if some handler readied a thread |
| `Scheduling.NachosKernel.TryP` | HW4/NachOS-4.0_MP4/code/threads/synch.cc:84-88 | one turn of the loop of P: takes one unit exactly if there is one, otherwise queues the thread and blocks it |
| `Scheduling.NachosKernel.P` | HW4/NachOS-4.0_MP4/code/threads/synch.cc:75-93 | P with its loop, for any behaviour of all other threads and handlers: when it returns it has taken exactly one unit, its thread runs, and the whole execution is a run of the step machine |
| `Scheduling.NachosKernel.Finish` | HW4/NachOS-4.0_MP4/code/threads/thread.cc:170-181 | in-place Finish refines the step machine |
| `Monitor.StepKeeps` | HW4/NachOS-4.0_MP4/code/threads/synch.cc:181-297 | every atomic step of Acquire, Release, Wait, Signal and Broadcast, interleaved with anything else, passes its ASSERTs and keeps the lock and wait-queue invariant |
| `Monitor.NoAssertFails` | HW4/NachOS-4.0_MP4/code/threads/synch.cc:181-297 | in every run no ASSERT in Lock, Condition or the kernel fails, no waiter semaphore is used after it is deleted or deleted while it is on the wait queue |
| `Monitor.MutualExclusion` | HW4/NachOS-4.0_MP4/code/threads/synch.cc:181-208 | semaphore value plus threads between P in Acquire and V in Release is always 1, including while `lockHolder` is still NULL; the holder is the one of them that has set it |
| `Monitor.SignalNeverLost` | HW4/NachOS-4.0_MP4/code/threads/synch.cc:244-283 | from Release inside Wait until its P succeeds, a waiter is on the wait queue, or is just being signalled, or its semaphore has value 1: a Signal before the P is not lost |
| `Monitor.BroadcastCounts` | HW4/NachOS-4.0_MP4/code/threads/synch.cc:292-297 | over any run within a broadcast, V's made plus waiters still to wake is constant, so the broadcast ends |
| `Monitor.BroadcastWakesAll` | HW4/NachOS-4.0_MP4/code/threads/synch.cc:292-297 | a broadcast ends with the wait queue empty and every thread still in Wait signalled |
| `SynchList.StepKeeps` | HW4/NachOS-4.0_MP4/code/threads/synchlist.cc:51-81 | every step of any number of producers and consumers keeps the counting invariant between list length and consumers signalled but not yet back |
| `SynchList.NoAssertFails` | HW4/NachOS-4.0_MP4/code/threads/synchlist.cc:51-81 | RemoveFront never takes from an empty list and Append never adds an item that is on it, in any run |
| `SynchList.Fifo` | HW4/NachOS-4.0_MP4/code/threads/synchlist.cc:51-81 | in every run the items ever appended are the items ever removed, in order, followed by the list; no item is on it twice |
| `SynchList.NoLostWakeup` | HW4/NachOS-4.0_MP4/code/threads/synchlist.cc:51-81 | whenever the lock is free and somebody waits, the list is no longer than the number of consumers signalled and still on their way, despite barging |
| `SynchList.QuietMeansEmpty` | HW4/NachOS-4.0_MP4/code/threads/synchlist.cc:70-81 | when no thread can run, every Append has returned and every RemoveFront that has not waits on an empty list |
| `ExclusiveUse.StepKeeps` | HW4/NachOS-4.0_MP4/code/filesys/synchdisk.cc:49-84 | Acquire, start the device, P on the semaphore that its interrupt V's, Release, by any number of threads: every step passes its ASSERTs, the device is started only when idle, and exactly while the lock's owner waits there is one interrupt to come or one unit to take |
| `ExclusiveUse.OwnerAfter` | HW4/NachOS-4.0_MP4/code/threads/synch.cc:181-208 | which thread owns the lock after each action, and where in its call it is |
| `SynchDisk.StepKeeps` | HW4/NachOS-4.0_MP4/code/filesys/synchdisk.cc:49-84 | every step of any number of readers and writers, and of the disk interrupt, keeps the device protocol |
| `SynchDisk.NoAssertFails` | HW4/NachOS-4.0_MP4/code/filesys/synchdisk.cc:49-84 | `ASSERT(!active)` in the disk never fails, in any run |
| `SynchDisk.DeviceProtocol` | HW4/NachOS-4.0_MP4/code/filesys/synchdisk.cc:49-84 | an active disk means the lock is owned, the completion semaphore is 0 and exactly one disk interrupt is pending; an inactive one, none |
| `SynchDisk.StoredIsLastWrite` | HW4/NachOS-4.0_MP4/code/filesys/synchdisk.cc:49-84 | what the invariant takes each sector to hold is, in every run, the data of the last WriteSector to it that completed, or the initial contents |
| `SynchDisk.ReadsLastWrite` | HW4/NachOS-4.0_MP4/code/filesys/synchdisk.cc:49-73 | a ReadSector about to return has what the last completed WriteSector to that sector in the run stored, or the initial contents |
| `Interrupts.FireUsesUpDue` | HW4/NachOS-4.0_MP4/code/machine/interrupt.cc:315-330 | each turn of the drain loop leaves one due interrupt fewer, whatever its handler schedules: the loop ends |
| `Interrupts.DrainKeeps` | HW4/NachOS-4.0_MP4/code/machine/interrupt.cc:315-330 | after the loop nothing pending is due |
| `Interrupts.NextKeeps` | HW4/NachOS-4.0_MP4/code/machine/interrupt.cc:147-332 | OneTick, Idle and Schedule keep the timeline of fired and pending interrupts sorted, numbered once each and on time |
| `Interrupts.FiredExactlyWhenDue` | HW4/NachOS-4.0_MP4/code/machine/interrupt.cc:289-332 | in every run each scheduled interrupt has fired once or is pending, and those fired are exactly those whose time has come |
| `Interrupts.NeverEarlyNorLate` | HW4/NachOS-4.0_MP4/code/machine/interrupt.cc:147-177 | no interrupt fires early or more than SystemTick - 1 = 9 ticks late |
| `Interrupts.FiredInOrder` | HW4/NachOS-4.0_MP4/code/machine/interrupt.cc:265-332 | over the whole run interrupts fire in order of `when`, ties in scheduling order, although handlers schedule more during the drain |
| `Interrupts.TicksAddUp` | HW4/NachOS-4.0_MP4/code/machine/interrupt.cc:147-160 | total = idle + system + user ticks, always |
| `Interrupts.Interrupt.Schedule` | HW4/NachOS-4.0_MP4/code/machine/interrupt.cc:265-276 | in place, on the linked list of module Lists: stable insertion at now + fromNow; Insert's ASSERT that the item is not on the list holds |
| `Interrupts.Interrupt.FireFirst` | HW4/NachOS-4.0_MP4/code/machine/interrupt.cc:326-328 | in place: removes the first interrupt from the linked list and runs its handler with everything it schedules |
| `Interrupts.Interrupt.CheckIfDue` | HW4/NachOS-4.0_MP4/code/machine/interrupt.cc:289-332 | the in-place loop refines the drain; TRUE exactly if something was due or the clock was advanced to the first |
| `Interrupts.Interrupt.OneTick` | HW4/NachOS-4.0_MP4/code/machine/interrupt.cc:147-177 | 10 ticks in system mode, 1 otherwise, then the due interrupts; a context switch exactly if a handler asked for one |
| `Interrupts.Interrupt.SetLevel` | HW4/NachOS-4.0_MP4/code/machine/interrupt.cc:123-136 | enabling disabled interrupts costs a tick, anything else only sets the level; the old level is returned |
| `Interrupts.Interrupt.Idle` | HW4/NachOS-4.0_MP4/code/machine/interrupt.cc:207-230 | goes on to the next pending interrupt, halts exactly if there is none |
| `Threads.DoomedIsAnother` | HW4/NachOS-4.0_MP4/code/threads/scheduler.cc:103-167 | in every run, the thread about to be deleted is not the one that runs, and none is doomed while another finishes: the two ASSERTs about `toBeDestroyed` |
| `RoundRobin.YieldTurn` | HW4/NachOS-4.0_MP4/code/threads/thread.cc:200-219 | with somebody ready, Yield and the CheckToBeDestroyed behind it make the front of the ready list current and put the caller last; no other field changes |
| `RoundRobin.YieldAlone` | HW4/NachOS-4.0_MP4/code/threads/thread.cc:200-219 | with nobody ready Yield changes nothing |
| `RoundRobin.DispatchTurn` | HW4/NachOS-4.0_MP4/code/threads/thread.cc:238-256 | a sleeping or finishing thread hands over to the front of the ready list, which loses just its front; a finished caller is deleted |
| `RoundRobin.TakeTurns` | HW4/NachOS-4.0_MP4/code/threads/thread.cc:200-219 | round robin: while all in line only yield, after n turns the n-th in line runs, and after one turn for each of them current thread and ready list are as at first |
| `RoundRobin.ReadyFifo` | HW4/NachOS-4.0_MP4/code/threads/scheduler.cc:56-134 | over any run, the ready list and those made ready by V, Fork and Yield are, in order, those that got the processor followed by the ready list |
| `RoundRobin.QueueFifo` | HW4/NachOS-4.0_MP4/code/threads/synch.cc:75-117 | over any run, V wakes the threads of a semaphore in the order in which P put them to sleep |
| `RoundRobin.LivesOnceForked` | HW4/NachOS-4.0_MP4/code/threads/thread.cc:91-183 | from boot, threads alive or deleted are the main thread and those forked; finished are those that called Finish, and none of them runs again |
| `RoundRobin.CreatedCounts` | HW4/NachOS-4.0_MP4/code/threads/synch.cc:45-60 | a semaphore made with an initial value is, after any run, that value plus V's minus P's |
| `WaitQueues.AcquireTakes` | HW4/NachOS-4.0_MP4/code/threads/synch.cc:181-187 | Acquire of a free lock: three steps later the caller holds it |
| `WaitQueues.AcquireWaits` | HW4/NachOS-4.0_MP4/code/threads/synch.cc:181-187 | Acquire of a lock that is held puts the caller last in the lock's queue, asleep |
| `WaitQueues.ReleaseGives` | HW4/NachOS-4.0_MP4/code/threads/synch.cc:201-208 | Release frees the lock and makes the thread ready that has slept longest on it |
| `WaitQueues.WaitReleases` | HW4/NachOS-4.0_MP4/code/threads/synch.cc:244-258 | Wait queues a new semaphore of value 0 behind the others, frees the lock and comes to its P |
| `WaitQueues.WaitReturns` | HW4/NachOS-4.0_MP4/code/threads/synch.cc:244-258 | a waiter whose semaphore was V'ed comes back with the lock, its semaphore deleted |
| `WaitQueues.SignalWakesFront` | HW4/NachOS-4.0_MP4/code/threads/synch.cc:273-283 | Signal takes the longest waiter off the queue and V's its semaphore; with no waiter it does nothing |
| `WaitQueues.BroadcastWakesFront` | HW4/NachOS-4.0_MP4/code/threads/synch.cc:292-297 | each turn of Broadcast does that, and with no waiter left it is over |
| `WaitQueues.HeldByCaller` | HW4/NachOS-4.0_MP4/code/threads/synch.cc:201-297 | in every run, whoever comes to Release, Wait, Signal or Broadcast holds the lock |
| `WaitQueues.WaitersFifo` | HW4/NachOS-4.0_MP4/code/threads/synch.cc:244-297 | over any run, waiters are signalled in the order in which they began to wait |
| `ListCalls.FirstInFirstOut` | HW4/NachOS-4.0_MP4/code/threads/synchlist.cc:51-81 | told from the actions of a run alone: the items with which Append was called, at its list->Append, are, in order, those taken off the front by RemoveFront followed by the list |
| `ListCalls.OncePerCall` | HW4/NachOS-4.0_MP4/code/threads/synchlist.cc:51-81 | each thread has appended, and removed, exactly once for each of its calls that have got that far |
| `DiskCalls.CallBegins` | HW4/NachOS-4.0_MP4/code/filesys/synchdisk.cc:49-52 | a call that finds the lock free takes it and changes no data |
| `DiskCalls.CallRuns` | HW4/NachOS-4.0_MP4/code/filesys/synchdisk.cc:49-84 | request, interrupt and P: the caller's buffer has the sector's data, or exactly that sector has the caller's, and the disk is idle |
| `DiskCalls.CallEnds` | HW4/NachOS-4.0_MP4/code/filesys/synchdisk.cc:55-56 | the call gives the lock back and changes nothing else |
| `DeviceRuns.FireSchedules` | HW4/NachOS-4.0_MP4/code/machine/interrupt.cc:324-328 | firing takes the first interrupt off; the list then holds, as a multiset, the rest and for the j-th request of the handler the interrupt numbered next + j, at now + fromNow and of its kind; the clock stands still |
| `DeviceRuns.AllThatWasAsked` | HW4/NachOS-4.0_MP4/code/machine/interrupt.cc:265-332 | over any run, fired and pending interrupts are, each as often, those that the kernel asked for and those that the handlers that ran asked for, at the times asked for |
| `DeviceRuns.TimerGoesOn` | HW4/NachOS-4.0_MP4/code/machine/timer.cc:51-80 | a device that reacts to each of its interrupts by asking for the next in d ticks has, at every point of every run and among any other devices, exactly one pending, for d ticks after the last one fired |
| `DeviceRuns.PeriodIff` | HW4/NachOS-4.0_MP4/code/machine/timer.cc:51-80 | from one interrupt's time to the next's are at least d and at most d + 9 ticks, and exactly d if and only if the first fired on time |
| `DeviceRuns.DriftExample` | HW4/NachOS-4.0_MP4/code/machine/timer.cc:51-80 | a timer of period 5 and one tick in the kernel: the interrupt for tick 5 fires at 10, the next is for 15 |
| `DeviceRuns.SwitchIff` | HW4/NachOS-4.0_MP4/code/machine/interrupt.cc:147-177 | OneTick switches contexts exactly if one of the handlers that ran in it asked for it, or one that ran while the machine idled |
| `DeviceRuns.ClockCounts` | HW4/NachOS-4.0_MP4/code/machine/interrupt.cc:147-160 | over any run, user time is one tick per user instruction, system time ten per tick in the kernel, and the rest of the total is idle |
| `DeviceRuns.NextClock` | HW4/NachOS-4.0_MP4/code/machine/interrupt.cc:289-314 | what each step adds to each counter; Idle takes the clock to the first pending interrupt |
| `Lists.InsertedAt` | HW4/NachOS-4.0_MP4/code/lib/list.cc:232-260 | SortedList's insertion point: behind every element at the front that does not compare bigger |
| `Lists.List.Append` | HW4/NachOS-4.0_MP4/code/lib/list.cc:74-91 | over linked elements: the item at the end, everything else in place |
| `Lists.List.Prepend` | HW4/NachOS-4.0_MP4/code/lib/list.cc:97-114 | over linked elements: the item at the front |
| `Lists.List.RemoveFront` | HW4/NachOS-4.0_MP4/code/lib/list.cc:124-141 | over linked elements: the front item, the rest unchanged |
| `Lists.List.Remove` | HW4/NachOS-4.0_MP4/code/lib/list.cc:150-178 | over linked elements: the first occurrence unlinked, the rest in order |
| `Lists.List.IsInList` | HW4/NachOS-4.0_MP4/code/lib/list.cc:186-197 | over linked elements: whether the item is on the list |
| `Lists.List.Insert` | HW4/NachOS-4.0_MP4/code/lib/list.cc:232-260 | over linked elements: SortedList::Insert relinks the chain to the stable insertion |
| `Multiplier.Accumulate` | HW4/NachOS-4.0_MP4/code/machine/mipssim.cc:806-820 | the shift-and-add loop over 32-bit halves, with its carry tests, arithmetic shift and early exit, computes the exact product of the multiplier's bit pattern and b |
| `Multiplier.Mult` | HW4/NachOS-4.0_MP4/code/machine/mipssim.cc:771-828 | hi:lo is the exact product mod 2^64 for all operands, signed (the most negative ones included) and unsigned |
| `Multiplier.AddDouble` | HW4/NachOS-4.0_MP4/code/machine/mipssim.cc:808-813 | adding halves with the carry found by `lo < bLo` adds the double words |
| `Multiplier.ShiftDouble` | HW4/NachOS-4.0_MP4/code/machine/mipssim.cc:816-819 | shifting halves with the carried bit doubles the double word |
| `Multiplier.NegateDouble` | HW4/NachOS-4.0_MP4/code/machine/mipssim.cc:822-827 | complementing both halves and adding one negates mod 2^64 |
| `Arithmetic.AddTrapsOnOverflow` | HW4/NachOS-4.0_MP4/code/machine/mipssim.cc:157-177 | ADD and ADDI trap exactly if the signed sum does not fit in 32 bits, else deliver it |
| `Arithmetic.SubTrapsOnOverflow` | HW4/NachOS-4.0_MP4/code/machine/mipssim.cc:532-541 | SUB traps exactly if the signed difference does not fit, else delivers it |
| `Arithmetic.DivisionRight` | HW4/NachOS-4.0_MP4/code/machine/mipssim.cc:227-237 | quotient and remainder of DIV put the dividend together, the remainder is smaller and has its sign; the quotient fits except for the most negative number by -1 |
| `Arithmetic.SrlIsLogicalIff` | HW4/NachOS-4.0_MP4/code/machine/mipssim.cc:520-530 | SRL and SRLV, which shift a signed int, are the logical shift exactly if the sign bit is clear or the shift is by nothing |
| `Arithmetic.SrlExample` | HW4/NachOS-4.0_MP4/code/machine/mipssim.cc:520-524 | 0x80000000 shifted right by 1 is not 0x40000000 |
| `Arithmetic.LogicalBits` | HW4/NachOS-4.0_MP4/code/machine/mipssim.cc:446-457 | AND, OR, XOR, NOR and their immediate forms, whose operand is the low half of the immediate, work on each bit of the word |
| `Arithmetic.ShiftBits` | HW4/NachOS-4.0_MP4/code/machine/mipssim.cc:470-477 | SLL and SLLV move every bit up and fill with zeros, SRA and SRAV down and fill with the sign bit |
| `Decoding.DecodesImmediate` | HW4/NachOS-4.0_MP4/code/machine/mipssim.cc:726-743 | opcode, registers and the sign-extended immediate come out of the word as they were put in |
| `Decoding.DecodesSpecial` | HW4/NachOS-4.0_MP4/code/machine/mipssim.cc:726-748 | for SPECIAL words three registers and the shift amount come out as they were put in, and the function selects the instruction; which one is in Encoding |
| `Decoding.DecodesJump` | HW4/NachOS-4.0_MP4/code/machine/mipssim.cc:743-745 | J and JAL keep all 26 bits of their target |
| `Encoding.DecodeEncode` | HW4/NachOS-4.0_MP4/code/machine/mipssim.cc:726-765 | for every instruction, encoded with the manual's opcode and function numbers in its format (R, I, J or BCOND), Decode returns it |
| `Encoding.EncodeDecode` | HW4/NachOS-4.0_MP4/code/machine/mipssim.h:107-149 | every other word decodes to an unimplemented or a reserved instruction |
| `Encoding.Unimplemented` | HW4/NachOS-4.0_MP4/code/machine/mipssim.h:107-149 | unimplemented are exactly the coprocessor opcodes, BREAK, and BCOND but for its four branches |
| `Manual.AddsExactly` | HW4/NachOS-4.0_MP4/code/machine/mipssim.cc:157-177 | ADD, ADDI and SUB leave the sum or difference of the signed numbers in their destination, or trap exactly if it does not fit and then change nothing but the pending load |
| `Manual.AddsModulo` | HW4/NachOS-4.0_MP4/code/machine/mipssim.cc:177-184 | ADDU, ADDIU and SUBU leave the sum or difference mod 2^32, never trap, and change no other register |
| `Manual.SetsIff` | HW4/NachOS-4.0_MP4/code/machine/mipssim.cc:479-510 | SLT, SLTI, SLTU and SLTIU leave 1 exactly if the signed, or unsigned, comparison holds, else 0 |
| `Manual.LogicalDone` | HW4/NachOS-4.0_MP4/code/machine/mipssim.cc:446-457 | AND, OR, XOR, NOR and their immediate forms, bit by bit, in their destination |
| `Manual.ShiftDone` | HW4/NachOS-4.0_MP4/code/machine/mipssim.cc:470-531 | the shifts, bit by bit, in their destination |
| `Manual.LoadsUpper` | HW4/NachOS-4.0_MP4/code/machine/mipssim.cc:295-299 | LUI leaves 2^16 times its operand |
| `Manual.LoadsConstant` | HW4/NachOS-4.0_MP4/code/machine/mipssim.cc:295-457 | LUI and ORI leave any 32-bit constant in a register |
| `Manual.Multiplies` | HW4/NachOS-4.0_MP4/code/machine/mipssim.cc:436-445 | MULT and MULTU leave the 64 bits of the signed, or unsigned, product in HI and LO |
| `Manual.MultipliesInto` | HW4/NachOS-4.0_MP4/code/machine/mipssim.cc:420-445 | MULT or MULTU, then MFHI and MFLO, leave the product in two registers |
| `Manual.MovesFrom` | HW4/NachOS-4.0_MP4/code/machine/mipssim.cc:420-427 | MFHI and MFLO leave HI, and LO, in rd |
| `Manual.MovesTo` | HW4/NachOS-4.0_MP4/code/machine/mipssim.cc:428-435 | MTHI and MTLO leave rs in HI, and LO, and change no register |
| `Manual.Divides` | HW4/NachOS-4.0_MP4/code/machine/mipssim.cc:227-236 | after DIV by a number other than 0, LO * t + HI == s in signed numbers, with HI smaller in size than t and of the sign of s (but for the most negative number by -1) |
| `Manual.DividesUnsigned` | HW4/NachOS-4.0_MP4/code/machine/mipssim.cc:237-250 | after DIVU, LO * t + HI == s and HI < t |
| `Manual.DividesByZero` | HW4/NachOS-4.0_MP4/code/machine/mipssim.cc:227-250 | division by zero leaves zeros |
| `Manual.Branches` | HW4/NachOS-4.0_MP4/code/machine/mipssim.cc:193-226 | each branch leaves nextPc + 4 * offset mod 2^32 behind its delay slot exactly if its signed condition holds, else nextPc + 4; the linking ones leave nextPc + 4 in register 31 |
| `Manual.Jumps` | HW4/NachOS-4.0_MP4/code/machine/mipssim.cc:251-262 | J and JAL go to their target in the 256 megabytes of the instruction behind the delay slot, JR and JALR to the register; the links are left in register 31 and rd |
| `Manual.Trapping` | HW4/NachOS-4.0_MP4/code/machine/mipssim.cc:670-690 | SYSCALL, unimplemented and reserved instructions raise their exceptions and change nothing but the pending load |
| `Manual.Loads` | HW4/NachOS-4.0_MP4/code/machine/mipssim.cc:263-311 | LB, LBU, LH, LHU and LW leave pending, for their register, the signed or unsigned number that the bytes seen at their address spell; each exception exactly when its address has it |
| `Manual.StoresBytes` | HW4/NachOS-4.0_MP4/code/machine/mipssim.cc:458-551 | SB, SH and SW change, of all bytes the program sees, exactly those at their address, to the low bytes of the register; each exception exactly when its address has it |
| `Manual.UnalignedDone` | HW4/NachOS-4.0_MP4/code/machine/mipssim.cc:312-669 | LWL, LWR, SWL and SWR go to the aligned word around their address and raise exactly its exceptions, or complete |
| `Manual.RunsWhatIsStored` | HW4/NachOS-4.0_MP4/code/machine/mipssim.cc:120-152 | a program whose bytes at the program counter spell the encoding of an instruction runs that instruction |
| `DelaySlot.ExecuteSame` | HW4/NachOS-4.0_MP4/code/machine/mipssim.cc:154-690 | every instruction depends on no register but those its format reads |
| `DelaySlot.FlushInvisible` | HW4/NachOS-4.0_MP4/code/machine/mipssim.cc:120-718 | for an instruction that neither reads nor writes the target of the pending load (LWL and LWR may merge), applying the load early, as an interrupt does, leaves the same result, up to a dead pending value for register 0 |
| `DelaySlot.RegisterZero` | HW4/NachOS-4.0_MP4/code/machine/mipssim.cc:711-718 | register 0 is zero after every completed or trapped instruction |
| `DelaySlot.InterruptsInvisible` | HW4/NachOS-4.0_MP4/code/machine/interrupt.cc:319-321 | for a whole program with clean delay slots, any kernel and interrupts after any of its instructions, registers and memory end as without interrupts |
| `DelaySlot.HazardSeen` | HW4/NachOS-4.0_MP4/code/machine/mipssim.cc:711-718 | an example of a slot that is not clean: ADDU reads the register of a pending load, and after an early flush its result differs |
| `Simulator.Machine.DelayedLoad` | HW4/NachOS-4.0_MP4/code/machine/mipssim.cc:711-718 | in place on registers[]: the pending load applied, the next recorded, register 0 cleared |
| `Simulator.Machine.RaiseException` | HW4/NachOS-4.0_MP4/code/machine/machine.cc:100-110 | in place, up to the kernel's handler: the faulting address recorded and the pending load finished |
| `Simulator.Machine.Jump` | HW4/NachOS-4.0_MP4/code/machine/mipssim.cc:190-275 | branches and jumps change registers[] and the next program counter as the value semantics say, link register first |
| `Simulator.Machine.HiLo` | HW4/NachOS-4.0_MP4/code/machine/mipssim.cc:227-250 | division, multiplication and moves to HI and LO, in place; multiplication through Mult |
| `Simulator.Machine.LoadData` | HW4/NachOS-4.0_MP4/code/machine/mipssim.cc:277-418 | loads: the value for the delayed load or the exception with its address |
| `Simulator.Machine.StoreData` | HW4/NachOS-4.0_MP4/code/machine/mipssim.cc:463-668 | stores, unaligned ones by read, merge and write |
| `Simulator.Machine.Execute` | HW4/NachOS-4.0_MP4/code/machine/mipssim.cc:154-690 | the switch over all instructions, in place, refines the value semantics |
| `Simulator.Machine.OneInstruction` | HW4/NachOS-4.0_MP4/code/machine/mipssim.cc:120-702 | fetch, execute, delayed load and program counters, in place, refine the value semantics; on an exception nothing but the pending load and the faulting address changes |
| `Unaligned.LwrBytes` | HW4/NachOS-4.0_MP4/code/machine/mipssim.cc:391-413 | which bytes LWR's merge takes from memory and which it leaves |
| `Unaligned.LwlBytes` | HW4/NachOS-4.0_MP4/code/machine/mipssim.cc:339-360 | the same for LWL |
| `Unaligned.SwrBytes` | HW4/NachOS-4.0_MP4/code/machine/mipssim.cc:635-652 | the same for SWR |
| `Unaligned.SwlBytes` | HW4/NachOS-4.0_MP4/code/machine/mipssim.cc:580-597 | the same for SWL |
| `Unaligned.LoadPair` | HW4/NachOS-4.0_MP4/code/machine/mipssim.cc:312-418 | for every address a: LWR at a, then LWL at a+3 merging its pending load, leaves pending the four bytes at a..a+3, across words and pages |
| `Unaligned.StorePair` | HW4/NachOS-4.0_MP4/code/machine/mipssim.cc:552-668 | SWR at a, then SWL at a+3, changes exactly the bytes at a..a+3, to those of the register |
| `Unaligned.StoreThenLoad` | HW4/NachOS-4.0_MP4/code/machine/mipssim.cc:552-668 | SWR and SWL at an address and later LWR and LWL at the same address, with no store in between: the load pending at the end is the register stored |
| `Memory.TranslateAssertHolds` | HW4/NachOS-4.0_MP4/code/machine/translate.cc:184-250 | an aligned access stays in its page and `ASSERT((*physAddr + size) <= MemorySize)` never fails |
| `Memory.TranslationOutcome` | HW4/NachOS-4.0_MP4/code/machine/translate.cc:184-250 | with a page table: which exception a translation raises, for each exception exactly when (misaligned, page past the table, invalid, read-only, frame too large), and else the address, the use bit set, the dirty bit set exactly when writing, and nothing else changed |
| `Memory.TlbOutcome` | HW4/NachOS-4.0_MP4/code/machine/translate.cc:208-226 | the same with a TLB, where the first valid entry for the page counts and a page fault means that there is none |
| `Memory.ReadSeesBytes` | HW4/NachOS-4.0_MP4/code/machine/translate.cc:85-126 | with a page table a read succeeds exactly if aligned and mapped, and changes only use bits |
| `Memory.ReadByteSeen` | HW4/NachOS-4.0_MP4/code/machine/translate.cc:85-126 | each byte of what is read is the byte seen at its address |
| `Memory.WriteChangesExactly` | HW4/NachOS-4.0_MP4/code/machine/translate.cc:135-170 | with an injective page table a write changes, of all bytes seen at any mapped address, exactly those written; it succeeds exactly if aligned, mapped and not read-only |
| `Memory.PagedIsFlat` | HW4/NachOS-4.0_MP4/code/machine/translate.cc:85-250 | after any sequence of writes, allowed or not, every address shows the last byte written there |
| `Memory.TlbAgrees` | HW4/NachOS-4.0_MP4/code/machine/translate.cc:184-250 | a TLB whose valid entries copy the page table gives the same address or exception on every hit, and a page fault on a miss |
| `Memory.TlbIsFlat` | HW4/NachOS-4.0_MP4/code/machine/translate.cc:85-250 | behind a TLB that copies an injective page table and is refilled at will, every address shows the last byte written there by a write that was allowed and found its page in the TLB |
| `SoftwareTlb.OneFollows` | HW4/NachOS-4.0_MP4/code/machine/mipssim.cc:120-702 | every instruction through a TLB does what it does through the page table that the TLB copies, or raises a page fault that leaves memory and program counters as they were; it does not fault so if the TLB has the pages of the instruction and of its operand |
| `SoftwareTlb.RefillsInvisible` | HW4/NachOS-4.0_MP4/code/machine/mipssim.cc:120-718 | whatever the kernel puts into the TLB before each attempt, a program with clean load delay slots runs as with the page table: same exception, registers and memory after as many instructions, although each miss applies the pending load early |
| `SoftwareTlb.TlbLoadPair` | HW4/NachOS-4.0_MP4/code/machine/mipssim.cc:312-418 | LWR and LWL through a TLB that may be refilled between them load the four bytes that the program sees |
| `SoftwareTlb.TlbStorePair` | HW4/NachOS-4.0_MP4/code/machine/mipssim.cc:552-668 | SWR and SWL through a TLB change exactly the four bytes, as the program sees them |
| `SoftwareTlb.TlbStoreThenLoad` | HW4/NachOS-4.0_MP4/code/machine/mipssim.cc:552-668 | what the pair of stores puts into memory through a TLB the pair of loads gets back |
| `Memory.AddressUnit.Translate` | HW4/NachOS-4.0_MP4/code/machine/translate.cc:184-250 | the in-place search and bit updates refine the translation function, for page table and TLB |
| `Memory.AddressUnit.ReadMem` | HW4/NachOS-4.0_MP4/code/machine/translate.cc:85-126 | in place, refines the read |
| `Memory.AddressUnit.WriteMem` | HW4/NachOS-4.0_MP4/code/machine/translate.cc:135-170 | in place, byte by byte, refines the write |
| `Disks.TimeToSeek` | HW4/NachOS-4.0_MP4/code/machine/disk.cc:176-191 | after seek and wait the head is at a sector boundary, the wait being less than one sector |
| `Disks.ModuloDiff` | HW4/NachOS-4.0_MP4/code/machine/disk.cc:199-206 | the number of slots until the wanted one comes under the head, less than a track |
| `Disks.ModuloDiffLeast` | HW4/NachOS-4.0_MP4/code/machine/disk.cc:199-206 | it is the least such number |
| `Disks.SeekIsArrival` | HW4/NachOS-4.0_MP4/code/machine/disk.cc:176-191 | with a head that moves one track per 500 ticks, the seek ends at the first tick at which the wanted track is under it, for all pairs of sectors |
| `Disks.LatencyRight` | HW4/NachOS-4.0_MP4/code/machine/disk.cc:229-250 | a latency is right exactly if it ends the transfer of the wanted sector in the first slot of that sector that begins at or after the head's arrival, or if the buffer has the sector and it is one sector's time |
| `Disks.RequestMoves` | HW4/NachOS-4.0_MP4/code/machine/disk.cc:258-268 | a request leaves the head at the new sector, the buffer filling from the first sector boundary after the head's arrival if the track is another, and the completion at the right latency |
| `Disks.HeadWhereAsked` | HW4/NachOS-4.0_MP4/code/machine/disk.cc:113-163 | in every run the head is at the sector last asked for, and the disk is active exactly until that request is done |
| `Disks.BufferHasSector` | HW4/NachOS-4.0_MP4/code/machine/disk.cc:229-250 | the track-buffer test holds exactly for reads on the current track when some whole slot between bufferInit and the next sector boundary was the wanted sector's |
| `Disks.TransferStartsEarliest` | HW4/NachOS-4.0_MP4/code/machine/disk.cc:229-250 | otherwise, for the tick at which the moving head arrives: the first slot of the wanted sector that begins no earlier is, and is the only one that is, the one that ends at the latency |
| `Disks.Latency` | HW4/NachOS-4.0_MP4/code/machine/disk.cc:229-250 | on a disk of n tracks every latency is at least 500 and less than (n - 1) * 500 + 33 * 500 ticks, so Schedule gets a positive delay |
| `Disks.RequestKeeps` | HW4/NachOS-4.0_MP4/code/machine/disk.cc:258-268 | the buffer starts filling before the request is done |
| `Disks.BufferStartsAtBoundary` | HW4/NachOS-4.0_MP4/code/machine/disk.cc:113-163 | in every run of requests and completions bufferInit is a multiple of RotationTime and is past whenever the disk is idle |
| `Disks.Disk.ReadRequest` | HW4/NachOS-4.0_MP4/code/machine/disk.cc:113-131 | delivers the sector, updates head and buffer, and schedules the completion at the latency, which is right by the moving head and the turning disk |
| `Disks.Disk.WriteRequest` | HW4/NachOS-4.0_MP4/code/machine/disk.cc:133-151 | stores exactly one sector, updates head and buffer, and schedules the completion at the latency, which is right likewise |
| `Disks.Disk.CallBack` | HW4/NachOS-4.0_MP4/code/machine/disk.cc:158-163 | the disk is idle again, its buffer's start in the past |
| `Bitmaps.SetBit` | HW4/NachOS-4.0_MP4/code/lib/bitmap.cc:55-63 | or with a one at `bit` sets that bit and no other |
| `Bitmaps.ResetBit` | HW4/NachOS-4.0_MP4/code/lib/bitmap.cc:72-80 | and with the complement clears that bit and no other |
| `Bitmaps.TestBit` | HW4/NachOS-4.0_MP4/code/lib/bitmap.cc:89-99 | and with a one at `bit` is nonzero exactly if the bit is set |
| `Bitmaps.Bitmap.Mark` | HW4/NachOS-4.0_MP4/code/lib/bitmap.cc:55-63 | adds exactly `which` to the set that the words stand for |
| `Bitmaps.Bitmap.Clear` | HW4/NachOS-4.0_MP4/code/lib/bitmap.cc:72-80 | removes exactly `which` |
| `Bitmaps.Bitmap.Test` | HW4/NachOS-4.0_MP4/code/lib/bitmap.cc:89-99 | membership |
| `Bitmaps.Bitmap.FindAndSet` | HW4/NachOS-4.0_MP4/code/lib/bitmap.cc:110-120 | the least number not in the set, now added, or -1 exactly if there is none |
| `Bitmaps.Bitmap.NumClear` | HW4/NachOS-4.0_MP4/code/lib/bitmap.cc:128-139 | how many numbers are not in the set |
| `FileHeaders.SucceedsIffRoom` | HW4/MP4_Report37.md:491-521 | for every length, negative ones included, and every size of table: Allocate succeeds exactly if clear bits suffice for the data sectors and the sectors of the header chain |
| `FileHeaders.OwnsNewSectors` | HW4/MP4_Report37.md:491-521 | on success the file owns, each once, sectors that were clear; exactly they are marked, as many as its length needs |
| `FileHeaders.FailureMarks` | HW4/MP4_Report37.md:491-521 | a failed Allocate leaves the map unchanged exactly if the first header's check failed; otherwise sectors stay marked |
| `FileHeaders.NegativeLength` | HW4/MP4_Report37.md:491-505 | a negative length compares as larger than the unsigned MaxFileSize: Allocate does what it does for one full header |
| `FileHeaders.LengthIff` | HW4/MP4_Report37.md:491-521 | the file made is as long as asked for exactly if the length is not negative |
| `FileHeaders.FailureExample` | HW4/MP4_Report37.md:510-521 | a file of 3713 bytes on a map of any size with 30 clear sectors: Allocate fails and leaves sectors marked |
| `FileHeaders.SmallFile` | HW1/NachOS-4.0_MP1/code/filesys/filehdr.cc:40-57 | a file that fits one header is allocated as HW1 does it, with its table of 30 sectors or any other: the map is unchanged on failure, and there is no chain |
| `FileHeaders.DeallocatedIs` | HW4/MP4_Report37.md:523-534 | Deallocate clears exactly the data sectors down the chain |
| `FileHeaders.RestoredIffOneHeader` | HW4/MP4_Report37.md:523-534 | Allocate then Deallocate leaves exactly the chain's sectors marked: the map is restored exactly if the file fits one header |
| `FileHeaders.LeakExample` | HW4/MP4_Report37.md:523-534 | allocating and deallocating a file of 3713 bytes on a map of any size with 40 clear sectors leaves a sector marked |
| `FileHeaders.RunKeeps` | HW4/MP4_Report37.md:491-534 | over any sequence of allocations and deallocations on one map, successful or not, live files own pairwise disjoint marked sectors and every marked sector is accounted for |
| `FileHeaders.SectorsConserved` | HW4/MP4_Report37.md:491-534 | clear + reserved + owned + leaked sectors is always the whole disk |
| `FileHeaders.OneHeaderNeverLeaks` | HW1/NachOS-4.0_MP1/code/filesys/filehdr.cc:40-71 | while all files fit one header, of HW1's size or any other, nothing ever leaks |
| `FileHeaders.AllocatedFilled` | HW4/MP4_Report37.md:491-521 | in an allocated chain all headers but the last are full and exactly the last has no link |
| `FileHeaders.FileHeader.Allocate` | HW4/MP4_Report37.md:491-521 | for any int as length, the in-place, recursive Allocate over header objects and the word-packed bitmap refines the specification; its ASSERT on FindAndSet holds |
| `FileHeaders.FileHeader.Deallocate` | HW4/MP4_Report37.md:523-534 | the in-place Deallocate refines the specification; its ASSERT that freed sectors are marked holds |
| `FileHeaders.FileHeader.ByteToSector` | HW4/MP4_Report37.md:574-584 | walks the chain to the data sector of the byte at `offset`, without failing its ASSERT |
| `Volumes.AllocatesLowest` | HW4/MP4_Report37.md:491-521 | Allocate marks the lowest of the clear sectors, also when it fails; the data sectors of a file ascend, and so does its chain |
| `Volumes.SpentIs` | HW4/MP4_Report37.md:491-521 | how many sectors an Allocate marks: what the file needs if that many are clear; else, in closed form, the full headers with their links that there is room for, and one table more if only its link is missing |
| `Volumes.BooksBalance` | HW4/MP4_Report37.md:491-534 | over any run of allocations and deallocations, clear sectors, leaked sectors and the lengths of the live files are what a counter of these three says: an Allocate with room takes just what the file needs, one without leaks what it marked, a Deallocate gives the data back and leaks the chain |
| `OpenFiles.AmountGreatest` | HW4/NachOS-4.0_MP4/code/filesys/openfile.cc:121-124 | a request is cut to the greatest number of bytes that lie within the file |
| `OpenFiles.WriteSplices` | HW4/NachOS-4.0_MP4/code/filesys/openfile.cc:143-184 | a write puts bytes [position, position+k) and leaves every other byte of the file |
| `OpenFiles.OtherFilesKept` | HW4/NachOS-4.0_MP4/code/filesys/openfile.cc:143-184 | a write leaves the bytes of every file with other sectors |
| `OpenFiles.LiveFilesApart` | HW4/NachOS-4.0_MP4/code/filesys/openfile.cc:143-184 | among the live files of a volume a write to one leaves every other as it was |
| `OpenFiles.AllocatedLaysOut` | HW4/MP4_Report37.md:491-521 | a header filled in by Allocate lays its file out: distinct sectors of the disk, enough for its length |
| `OpenFiles.WriteTwice` | HW4/NachOS-4.0_MP4/code/filesys/openfile.cc:73-87 | two calls of Write leave the file that one call with both buffers would, also when they run into its end |
| `OpenFiles.WriteThenRead` | HW4/NachOS-4.0_MP4/code/filesys/openfile.cc:115-184 | ReadAt at the position of a WriteAt returns what was written, cut where the write was |
| `OpenFiles.OpenFile.Length` | HW4/NachOS-4.0_MP4/code/filesys/openfile.cc:191-202 | the sum over the chain of headers |
| `OpenFiles.OpenFile.ReadAt` | HW4/NachOS-4.0_MP4/code/filesys/openfile.cc:115-141 | exactly the slice of the file at `position`, cut at its end; the rest of the buffer unchanged; for all alignments |
| `OpenFiles.OpenFile.WriteAt` | HW4/NachOS-4.0_MP4/code/filesys/openfile.cc:143-184 | refines the splice; the whole disk after it: touched sectors have new, old or, past the end of the file, zero bytes, no other sector changes |
| `OpenFiles.OpenFile.Read` | HW4/NachOS-4.0_MP4/code/filesys/openfile.cc:73-79 | ReadAt at the seek position, which moves by the result |
| `OpenFiles.OpenFile.Write` | HW4/NachOS-4.0_MP4/code/filesys/openfile.cc:81-87 | WriteAt at the seek position, which moves by the result |
| `PersistentBitmaps.WriteBack` | HW4/NachOS-4.0_MP4/code/filesys/pbitmap.cc:70-74 | the words, least significant byte first, put at the start of the file |
| `PersistentBitmaps.FetchFrom` | HW4/NachOS-4.0_MP4/code/filesys/pbitmap.cc:57-61 | the words overwritten from the file as far as it goes |
| `PersistentBitmaps.ImageBit` | HW4/NachOS-4.0_MP4/code/filesys/pbitmap.cc:57-74 | number i is in the set exactly if bit i % 8 of byte i / 8 of the file is set |
| `PersistentBitmaps.RestoredIff` | HW4/NachOS-4.0_MP4/code/filesys/pbitmap.cc:57-74 | WriteBack then FetchFrom restores the bitmap, whatever it held in between, exactly if the file holds it all or what it held agrees past the end |
| `Packets.HeaderRoundTrip` | HW4/NachOS-4.0_MP4/code/machine/network.h:33-39 | a header cast to bytes and back is the same |
| `Packets.WireLayout` | HW4/NachOS-4.0_MP4/code/network/post.cc:299-331 | where everything is on the wire: machine to and from, packet length, mailbox to and from, message length, six little-endian words, and the message behind them |
| `Packets.MailRoundTrip` | HW4/NachOS-4.0_MP4/code/network/post.cc:190-216 | what Send puts on the wire, padded with anything, is delivered with both headers and data intact |
| `Packets.Send` | HW4/NachOS-4.0_MP4/code/network/post.cc:299-331 | the buffers built in place are the wire format of the message |
| `Packets.NetworkInput.CallBack` | HW4/NachOS-4.0_MP4/code/machine/network.cc:60-88 | takes one packet off the socket exactly if none is buffered, and then announces it |
| `Packets.NetworkInput.Receive` | HW4/NachOS-4.0_MP4/code/machine/network.cc:93-103 | hands over the buffered packet and frees the buffer |
| `PostOffice.StepKeeps` | HW4/NachOS-4.0_MP4/code/network/post.cc:190-343 | every step of any number of machines, senders, workers, readers and a lossy link keeps the mail invariant |
| `PostOffice.FailsExactlyMisaddressed` | HW4/NachOS-4.0_MP4/code/network/post.cc:190-216 | in every run, with every message that Send accepts, an ASSERT on the way fails exactly when the postal worker comes to a message for a mailbox that its machine lacks; the worker never reads an empty buffer |
| `PostOffice.FailedIffMissent` | HW4/NachOS-4.0_MP4/code/network/post.cc:190-216 | in every run whose deliveries are done, a machine has failed exactly if some message for a mailbox that it lacks was sent to it and not dropped |
| `PostOffice.SafeIffMailboxesExist` | HW4/NachOS-4.0_MP4/code/network/post.cc:190-331 | at every point of every run: no ASSERT has failed or can fail in delivering what is under way exactly if every message not dropped names a mailbox of its destination |
| `PostOffice.FailingExample` | HW4/NachOS-4.0_MP4/code/network/post.cc:299-331 | two machines with one mailbox each: Send accepts a message for mailbox 1, and a run of six steps ends with the destination's ASSERT failing |
| `PostOffice.FailedForGood` | HW4/NachOS-4.0_MP4/code/lib/sysdep.cc:546-571 | a failed machine does nothing more and nothing reaches it |
| `PostOffice.OnePacketEachWay` | HW4/NachOS-4.0_MP4/code/machine/network.cc:60-103 | messageAvailable plus worker between P and Receive is 1 exactly if a packet is buffered, else 0; one send is under way exactly while its sender waits with the lock |
| `PostOffice.MailArrivesInOrder` | HW4/NachOS-4.0_MP4/code/network/post.cc:97-137 | each mailbox receives from each machine a subsequence, in order, without duplicates, intact and rightly addressed, of what it sent |
| `PostOffice.OnlyTheLinkLoses` | HW4/NachOS-4.0_MP4/code/machine/network.cc:158-182 | a message has been dropped, by the link or because there was nobody to take it, exactly if it is not at its destination, delivered or on its way |
| `PostOffice.MailboxesGetAll` | HW4/NachOS-4.0_MP4/code/network/post.cc:190-216 | when a postal worker has nothing left to do, its mailboxes have received, box by box and in order, all that reached the machine up to the first message for a mailbox that it lacks |
| `MailHistory.SentIsMailed` | HW4/NachOS-4.0_MP4/code/machine/network.cc:158-182 | over any run, what a machine has sent is what its threads gave to the network, in order, and dropped is exactly what the link lost or found nobody to take |
| `MailHistory.GotIsFetched` | HW4/NachOS-4.0_MP4/code/network/post.cc:119-137 | over any run, a mailbox has given to its readers what was first in it at each of their turns |
| `MailHistory.SendCompletes` | HW4/NachOS-4.0_MP4/code/network/post.cc:299-331 | a Send that has the lock goes through: its P succeeds only behind the interrupt, the message is sent, and the lock is free again |
| `PostThreads.Simulates` | HW4/NachOS-4.0_MP4/code/network/post.cc:190-343 | every step of the threads that run Send (sendLock, messageSent) and PostalDelivery (messageAvailable), and of the kernel under them, is a step that the machine allows or one that it does not see; its sender and its semaphore values are the threads' |
| `PostThreads.RunRefines` | HW4/NachOS-4.0_MP4/code/network/post.cc:190-343 | every run of the threads of all machines is a run of module PostOffice, so that its theorems hold of them |
| `PostThreads.ThreadsRefine` | HW4/NachOS-4.0_MP4/code/network/post.cc:299-331 | from the start, too; and no ASSERT of the lock, the semaphores or the kernel fails on the way, nor is the network given a packet while it is sending one |
| `HashTables.PutAgrees` | HW4/NachOS-4.0_MP4/code/lib/hash.cc:109-125 | adding an item to its home bucket keeps buckets and map in agreement |
| `HashTables.RemoveAgrees` | HW4/NachOS-4.0_MP4/code/lib/hash.cc:209-223 | taking an item out of its bucket keeps buckets and map in agreement |
| `HashTables.EachItemOnce` | HW4/NachOS-4.0_MP4/code/lib/hash.cc:331-360 | stepping through the buckets meets every item of the table exactly once and nothing else |
| `HashTables.HashTable.Insert` | HW4/NachOS-4.0_MP4/code/lib/hash.cc:109-125 | the map gains the item; numItems <= 3 * numBuckets, by growing if need be |
| `HashTables.HashTable.ReHash` | HW4/NachOS-4.0_MP4/code/lib/hash.cc:135-153 | the table is four times as large and holds the same map; the draining loops end |
| `HashTables.HashTable.Find` | HW4/NachOS-4.0_MP4/code/lib/hash.cc:192-198 | the map's item for the key, or none exactly if it has none |
| `HashTables.HashTable.Remove` | HW4/NachOS-4.0_MP4/code/lib/hash.cc:209-223 | the map's item, now removed; its ASSERT holds |
| `HashTables.HashIterator.Next` | HW4/NachOS-4.0_MP4/code/lib/hash.cc:348-360 | the items still to come lose exactly their first |

## Left out

- Host I/O (files, sockets, terminals, the random number of the link): an array of sectors, sequences of packets, and
  parameters stand for them.
- `SWITCH`, stacks, `StackAllocate`, fence posts and the saving of user registers: a context switch changes the current thread.
- Fairness and the order in which semaphore waiters get through: the code lets threads barge in, so neither holds.
- Locks, conditions, `SynchList`, `SynchDisk` and the threads of the post office are step machines on values: their routines
  are interrupted in the middle, which a method is not. Update in place and aliasing of those objects are not captured; the
  order of their steps is.
- Interrupt levels: a region with interrupts off is one action. `SetLevel` itself, with its tick, is in `Interrupts`.
- Semaphores in `Scheduling` are records in a table of the kernel, not objects of their own.
- `Arithmetic.DivisionRight`: does not say what the host does with the most negative number divided by -1, which C leaves
  undefined; the model wraps.
- `Simulator.Machine.RaiseException`: stops where the kernel's exception handler is called; the handler is a parameter of
  `DelaySlot.InterruptsInvisible`, which asks of it only that it leaves register 0 at zero.
- `char` is signed and 8 bits wide, `int` 32 bits and little-endian, as on the x86 hosts the program is built for; tick counts
  and lengths are unbounded.
- `FileHeaders.FileHeader.Allocate`: the table starts with zeros where the source writes -1, and a negative length is reduced
  without the wrap-around that C leaves undefined for the most negative ones.
- HW1's `Allocate` checks no length; it is modelled from 0 up to what its table holds.
- `FileHeaders.RunKeeps`: is about one map that is kept; `FileSystem::Create`, which throws its map away when `Allocate` fails,
  is not part of the model.
- Reading and writing headers to disk (`FileHeader::FetchFrom`, `WriteBack`), directories and `FileSystem`.
- `OpenFiles.OpenFile.ReadAt` and `OpenFiles.OpenFile.WriteAt` go to the array of sectors directly; that each `ReadSector` sees
  the last `WriteSector` under any interleaving is proved in `SynchDisk`. Positions are not negative, which `Seek` does not check.
- `sendBusy` in the network device, which is never set, is not modelled: one send at a time rests on `sendLock` and
  `messageSent`, as `PostThreads` proves. Putting mail into a mailbox and taking it out is one step there; the mailbox's list,
  with its own lock, is `SynchList`.
- `HashTables`, the ready list and the semaphores' queues use sequences with the contracts of `Lists.List`; the pointers of the
  chains are modelled in `Lists`, and under `Interrupts`.
- The big-endian and non-SIM_FIX variants, the debugger, printing, self tests, `main`, kernel start-up, directories, `coff2noff`,
  console, timer and alarm: dead variants, user interface or easy members.
