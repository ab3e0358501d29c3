# A model of the Pintos kernel

This project models the hard parts of a Pintos kernel in Dafny and proves what they are for. Each part is
a module; methods follow the C functions step by step, and their contracts speak about an abstract value
(a byte sequence per file, flat memory, a finite map, a sorted sequence) rather than about the
representation.

| part | files | what is proved |
|---|---|---|
| indexed files | `Bitmap.dfy`, `Sectors.dfy`, `Volume.dfy`, `Space.dfy`, `Inode.dfy`, `FileRuns.dfy` | over any run of calls a three-level index over a sector allocator is a set of independent byte sequences and a count of free sectors; no two files share a sector, and removing a file frees all of its sectors |
| scheduler | `Scheduler.dfy`, `SchedulerRuns.dfy`, `Preemption.dfy`, `Wakeups.dfy`, `Tower.dfy`, `Kernel.dfy` | a machine whose steps are the stretches of code between which interrupts may come: list and status invariants, mutual exclusion, priority donation, no lost wakeup, and who runs, over every run |
| virtual memory | `Paging.dfy`, `Memory.dfy`, `MemoryRuns.dfy` | over any run frames, swap slots and files together are flat memory and plain files; when faults, evictions and mappings succeed |
| linked lists | `Merging.dfy`, `LinkedList.dfy` | the in-place natural merge sort on pointers is a stable sort |
| heap | `Malloc.dfy` | blocks never overlap, free counts are right, pages come back, in a pool with other users |
| hash table | `Hash.dfy` | a finite map through every resize |
| division | `Division.dfy` | 64-bit quotients from a 64-by-32-bit divide that never traps |
| archives and numbers | `Ustar.dfy`, `Formatting.dfy` | headers and integers survive being printed and parsed |
| sorting and searching | `Heapsort.dfy` | heap sort sorts, binary search finds |
| directories | `Directory.dfy` | a file of entries in the file system is a finite map of names |
| page tables | `PageDirectory.dfy` | two levels of packed entries are a partial map |
| timer | `Timer.dfy`, `Sleeping.dfy` | every sleeper wakes exactly once, at its tick, over every run of scheduler and timer together |

`Common.dfy` has the types and sequence notions that several parts use. Conventions: a predicate called
`Inv`, `Valid` or `Ok` is what every operation keeps; a parameter such as `memory`, `written` or
`structOk` stands for the success of an allocation or of a device; proof-only parts of a state (`owner`,
`at`, `slotOf`, `stamp`, `foreign`) record who uses what and are never read by the operations.

Where the code does not do what one would hope, the code is modelled as it is, with the exact condition:

- Donation stops after eight locks. `Scheduling.AcquireExact` gives the exact condition under which nobody
  is left below a listed donor, and `Towers.TowerDonation` a chain of nine, reached from boot, where it fails.
- A thread that is setting its own priority can be preempted with less than its base priority:
  `SchedulerRuns.SettingBelow` says exactly when.
- A waiter that was donated priority while it waited can be overtaken by a later one of the same priority:
  `Preemption.Overtakes` says exactly when, and `Preemption.OvertakenWaiter` is such a case.
- A growth that fails keeps the sectors it took so far. `Space.GrowExact` and `Space.GrowLoss` say exactly when
  a growth fails and when sectors are lost, and `Inodes.LoseSectors` loses nearly a whole volume.
- A file mapped twice is not kept consistent. `Paging.ToFileExact` says exactly when an eviction changes what some
  process sees, in terms of the state before it; `Memories.SharedEviction` is a state where one does, and
  `Memories.Memory.MapFile` says exactly when a mapping is unshared.
- A stack page whose frame came from an eviction is not zeroed. `Memories.Memory.PageFault` says exactly when it
  is zero all the same, and in `Memories.StaleStack` a process reads what another one wrote.
- `malloc` computes the size of a big block in 32 bits. `Allocation.PagesSuffice` says exactly when the block
  is big enough, and `Allocation.HugeRequest` is a request that is not.
- `sdiv64` is right for every quotient but the one that does not exist, and `umod64` cuts remainders to 32 bits.

## Model

| member | source | states |
|---|---|---|
| Bitmaps.MaskEffect | src/lib/kernel/bitmap.c:157-179 | setting or clearing one bit of a word with its mask changes that bit and no other bit of the word |
| Bitmaps.Bitmap.Set | src/lib/kernel/bitmap.c:145-179 | one bit of the bitmap, seen as a sequence of booleans, gets the value; all others stay |
| Bitmaps.Bitmap.SetMultiple | src/lib/kernel/bitmap.c:218-228 | exactly the given range of bits gets the value |
| Bitmaps.Bitmap.Contains | src/lib/kernel/bitmap.c:251-263 | true exactly if some bit of the range has the value |
| Bitmaps.Bitmap.Scan | src/lib/kernel/bitmap.c:296-310 | the first group of the wanted length and value at or after the start, or none if there is none |
| Bitmaps.Bitmap.ScanAndFlip | src/lib/kernel/bitmap.c:320-326 | finds the first such group and flips exactly its bits; without one nothing changes |
| Sectors.PackedWords | src/filesys/inode.c:23-31 | the 128 words written to a sector are the words read back |
| Sectors.InodeRoundTrip | src/filesys/inode.c:23-31 | an on-disk inode written to its sector is read back unchanged |
| Volumes.NoSharing | src/filesys/inode.c:57-89 | in a valid volume no sector has two roles: inode, data, indirect, doubly indirect and inner index sectors of all files are pairwise distinct |
| Volumes.GrewDirect | src/filesys/inode.c:121-133 | a new zeroed sector behind a direct pointer grows its file by one zero sector, keeps every other file and all ownership facts |
| Volumes.GrewIndirect | src/filesys/inode.c:134-152 | the same behind the indirect index, including the allocation of the index sector itself |
| Volumes.GrewDoubly | src/filesys/inode.c:153-192 | the same behind the doubly indirect index, including new outer and inner index sectors |
| Volumes.PatchedContents | src/filesys/inode.c:476-500 | overlaying part of one data sector overlays exactly that part of the file's bytes |
| Volumes.Deleted | src/filesys/inode.c:202-252 | dropping a file leaves a valid volume in which all other files are as before |
| Volumes.RolledBack | src/filesys/inode.c:106-197 | forgetting the sectors of a failed growth gives back every file as it was |
| Inodes.FileSystem.Allocate | src/filesys/free-map.c:28-41 | the first free sector, now marked; succeeds if and only if there is one |
| Inodes.FileSystem.Release | src/filesys/free-map.c:45-50 | exactly the released sector becomes free |
| Space.OwnedCount | src/filesys/inode.c:106-197 | a file owns exactly its inode and the data and index sectors its length calls for: the closed form of its size on disk |
| Space.GrowExact | src/filesys/inode.c:121-197 | a growth that allocates sector by sector succeeds if and only if as many sectors are free as the new size calls for; it uses exactly those, and if it fails all but at most one |
| Space.GrowLoss | src/filesys/inode.c:121-197 | a growth that fails loses free sectors unless there was none, or just one and the first step needs more |
| Inodes.FileSystem.Extend | src/filesys/inode.c:106-197 | succeeds if and only if the free sectors suffice, and says how many are left either way; success: the file is padded with zeros to the new length and only new sectors are charged to it; failure: every file keeps its bytes, at most one sector is left free, and it says when sectors are lost |
| Inodes.LoseSectors | src/filesys/inode.c:121-197 | a failing input: on a new volume one file that is too long leaves no file and at most two free sectors |
| Inodes.FileSystem.Deallocate | src/filesys/inode.c:202-252 | frees exactly the data and index sectors the file owned, each once |
| Inodes.FileSystem.Create | src/filesys/inode.c:260-291 | succeeds if and only if there are memory and enough free sectors; the new inode is a file of that many zero bytes; on failure no file changes |
| Inodes.FileSystem.Open | src/filesys/inode.c:297-327 | an open inode mirrors the file, with one more opener |
| Inodes.FileSystem.Remove | src/filesys/inode.c:375-379 | only the removed mark changes |
| Inodes.FileSystem.Close | src/filesys/inode.c:349-370 | the last close of a removed inode frees exactly the sectors it owned, as many as its length calls for, and removes that file only; any other close changes no file and no free-map bit |
| Inodes.FileSystem.ByteToSector | src/filesys/inode.c:57-89 | the sector that holds the byte at that position through all three index levels, or none past the end |
| Inodes.FileSystem.ReadAt | src/filesys/inode.c:385-434 | returns exactly the bytes of the file from the offset on, up to the size or the end of the file; without memory for a bounce buffer, the whole-sector part of that |
| Inodes.FileSystem.WriteAt | src/filesys/inode.c:441-510 | accepted if and only if writing is not denied and the free sectors suffice; then the file reaches at least to the end of the data, each byte written is at its place, each other byte is the old one, or zero past the old end, and no other file changes; a refused write changes no file |
| Inodes.ReadsBack | src/filesys/inode.c:385-510 | a read of what was written gives it back, one of the gap in front of it gives zeros, and one elsewhere what it gave before |
| Inodes.FileSystem.CreateFile | src/filesys/filesys.c:151-156 | as filesys_create does but for the directory entry: succeeds if and only if there are memory and sectors for the inode and the length; ownership only grows by that file's sectors, and no unowned sector stays marked on success |
| FileRuns.Call | src/filesys/inode.c:260-530 | one create, open, read, write, remove, close, deny or allow does to the disk structures what the function on byte sequences and a count of free sectors says, with its answer |
| FileRuns.Run | src/filesys/inode.c:260-530 | any sequence of those calls over any inodes, also ones created on the way: all answers and the final files, open inodes and free count are those of independent byte sequences, each of which is what was written to it; marked sectors are the owned ones and those marked before, unless a call ran out of space; and if the same files are there as at the start, untouched, the free map is the same |
| FileRuns.FilesRecall | src/filesys/inode.c:260-530 | after any run every byte of every file is the one the last write that reached it put there since the file was made, else the one there was at the start, else zero, and the file reaches as far as any write did |
| FileRuns.ReadsRecall | src/filesys/inode.c:385-434 | and every read of the run gives those bytes, as they were when it was made |
| FileRuns.RunConserves | src/filesys/inode.c:106-370 | over any run in which nothing fails for lack of space, free sectors and the sectors files take up add up to the same number: a deleted file gives back all it took |
| Inodes.FileSystem.Lifetime | src/filesys/inode.c:260-370 | create, open, grow by writing, remove and last close restore the free map, every other file and the table of open inodes; this goes through if and only if there is space for the larger of the two lengths |
| Scheduling.InsertOrdered | src/lib/kernel/list.c:449-462 | adds exactly the one thread to the queue |
| Scheduling.InsertKeepsSorted | src/threads/thread.c:232-267 | inserting the latest thread keeps the queue in dispatch order: higher priority first, ties by last insertion |
| Scheduling.FirstMax | src/lib/kernel/list.c:496-508 | an element of the queue no other element of which has a higher priority |
| Scheduling.Effective | src/threads/thread.c:366-389 | exactly the maximum of the thread's own priority and its listed donors' priorities |
| Scheduling.DispatchInv | src/threads/thread.c:603-678 | dispatching from a state where nobody runs keeps all invariants, and the thread chosen has at least the priority of every ready thread |
| Scheduling.YieldInv | src/threads/thread.c:326-339 | thread_yield keeps all invariants |
| Scheduling.AcquireInv | src/threads/synch.c:215-236 | lock_acquire, with donation and a new place on the ready list for every raised holder, keeps all invariants |
| Scheduling.ReleaseInv | src/threads/synch.c:264-287 | the first half of lock_release keeps all invariants |
| Scheduling.UpInv | src/threads/synch.c:120-143 | sema_up keeps all invariants, whether or not it yields |
| Scheduling.ResumeInv | src/threads/synch.c:65-80 | a woken waiter that looks at the value again keeps all invariants |
| Scheduling.PropagateExact | src/threads/thread.c:392-420 | the donation walk with its early break and its depth limit leaves nobody below a listed donor if and only if the chain of lower holders is no longer than the limit, or the first one beyond does not list the last one reached |
| Scheduling.AcquireExact | src/threads/synch.c:215-236 | the same if and only if for lock_acquire as a whole, with the condition on the state before the call |
| SchedulerRuns.StepInv | src/threads/synch.c:65-290 | every step of the scheduler keeps all invariants |
| SchedulerRuns.RunInv | src/threads/synch.c:65-290 | in every state reached by any run all invariants hold |
| SchedulerRuns.ListsAgree | src/threads/thread.c:255-339 | in every such state the ready list holds exactly the ready threads other than idle, once each and in dispatch order; nobody is on the ready list and a wait list, or on two wait lists |
| SchedulerRuns.DonationStep | src/threads/synch.c:65-290 | a step keeps every thread at or above its own priority and its listed donors' if and only if it stays within the donation depth |
| SchedulerRuns.RunDonation | src/threads/synch.c:214-290 | in every state reached within the donation depth no thread has less than a thread on its donor list, each of which waits for a lock it holds, nor less than its own priority, except while thread_set_priority has stored that and not yet acted on it |
| SchedulerRuns.SettingBelow | src/threads/thread.c:424-444 | inside thread_set_priority the running thread has less than its base priority if and only if the new one is higher; the update makes up for it |
| Wakeups.StepWakes | src/threads/synch.c:65-290 | every step keeps, for every semaphore somebody is blocked on, at least as many threads awake inside sema_down as its value |
| Wakeups.NoLostWakeup | src/threads/synch.c:65-143 | in every state reached from boot a semaphore with a value that somebody is blocked on has a thread awake that will look at it |
| SchedulerRuns.ReleasePriority | src/threads/synch.c:264-287 | a release drops exactly the donors waiting for that lock and leaves the releaser exactly the maximum of its own priority and the remaining donors' |
| SchedulerRuns.YieldRunsHighest | src/threads/thread.c:326-339 | after a yield no ready thread has more priority than the running one, nor has the one that yielded |
| SchedulerRuns.UpWakesHighest | src/threads/synch.c:120-143 | sema_up adds one to the value and takes the first among the waiters of the highest priority off the list, who is then ready or running; the others keep their order |
| Preemption.UpTopIff | src/threads/synch.c:120-143 | after sema_up outside an interrupt no ready thread has more priority than the running one if and only if none had before, or a waiter had more than the running thread |
| Preemption.UpPreempts | src/threads/synch.c:120-143 | the running thread goes on running if and only if it is an interrupt or no waiter has more priority; otherwise the thread that then runs has at least every waiter's |
| Preemption.SetPriorityOutcome | src/threads/thread.c:424-444 | afterwards the caller has the base priority it asked for, its priority is exactly the highest of that and its donors', nobody else's has changed, and no ready thread has more than the running one |
| Preemption.StepTop | src/threads/synch.c:65-290 | every step that neither makes a thread ready without yielding nor lowers the running thread's priority leaves no ready thread above the running one, if there was none |
| Preemption.RunTop | src/threads/thread.c:255-339 | and so does every run of such steps |
| Preemption.CreateOutcome | src/threads/thread.c:170-217 | the new thread is ready with the priority given, and once the creator has compared itself with it no ready thread has more than the running one |
| Preemption.TryOutcome | src/threads/synch.c:245-258 | takes the lock if and only if its semaphore is up, then holds it; otherwise nothing changes |
| Preemption.ReleaseOutcome | src/threads/synch.c:264-290 | frees that lock and no other, and with its second half puts the semaphore up and wakes a waiter if there is one |
| Preemption.DownOutcome | src/threads/synch.c:65-80 | gets past a semaphore that is up, taking one from it, and blocks on one that is not |
| Preemption.ExitOutcome | src/threads/thread.c:305-322 | exactly the running thread goes, and another one runs |
| Preemption.AcquireRaises | src/threads/synch.c:215-236 | gives the caller's priority to exactly the first eight of the chain of lower-priority holders above the lock, and changes no other priority |
| Preemption.BlocksInLine | src/threads/synch.c:65-80 | on a wait list along which priorities fall the thread that blocks stands behind everybody of at least its priority and in front of the others, and priorities still fall |
| Preemption.WakesInLine | src/threads/synch.c:120-143 | there sema_up wakes the one in front, so that waiters of the same priority are woken in the order in which they came |
| Preemption.Overtakes | src/threads/synch.c:65-80 | a thread that blocks overtakes a waiter of at least its priority if and only if that waiter stands behind one of less |
| Preemption.OvertakenWaiter | src/threads/synch.c:65-143 | a failing input: of two waiters with the same priority the later one is woken first |
| SchedulerRuns.FirstAmongHighest | src/lib/kernel/list.c:496-508 | list_max returns the first of the highest |
| SchedulerRuns.AcquireOutcome | src/threads/synch.c:215-236 | acquiring a free lock makes the thread its holder; acquiring a taken one blocks the thread on it and lists it with the holder |
| SchedulerRuns.HeldUntilReleased | src/threads/synch.c:215-301 | a held lock stays with its holder through every step but the holder's own release |
| SchedulerRuns.InitialInv | src/threads/thread.c:92-122 | the state after boot, with idle in any status but running, satisfies all invariants |
| Towers.TowerReached | src/threads/thread.c:392-420 | a tower of holders, each waiting for the lock of the next, is reached from boot by an explicit run |
| Towers.TowerDonation | src/threads/thread.c:392-420 | with n+1 such holders, donation reaches the top if and only if n is below 8: from nine holders on the top keeps less priority than a listed donor |
| KernelThreads.OrderedPosition | src/lib/kernel/list.c:449-462 | the loop stops where InsertOrdered inserts |
| KernelThreads.ListMax | src/lib/kernel/list.c:496-508 | the loop returns the first among the highest |
| KernelThreads.DropDonors | src/threads/synch.c:274-283 | the loop leaves exactly the donors that do not wait for the lock, in order |
| KernelThreads.Kernel.YieldCpu | src/threads/thread.c:326-339 | the fields end up as the yield step says |
| KernelThreads.Kernel.PropagatePriority | src/threads/thread.c:392-420 | the loop over at most eight locks does what the recursive propagation does |
| KernelThreads.Kernel.LockAcquire | src/threads/synch.c:215-236 | the fields end up as the acquire step says, up to where the thread holds the lock or blocks |
| KernelThreads.Kernel.LockRelease | src/threads/synch.c:264-287 | the fields end up as the release step says |
| KernelThreads.Kernel.SemaUp | src/threads/synch.c:120-143 | the fields end up as the sema_up step says; outside an interrupt no ready thread is then above the running one, if none was, and the thread goes on running exactly if it is an interrupt or no waiter has more priority |
| KernelThreads.Kernel.SetOwnPriority | src/threads/thread.c:424-444 | the five stretches of thread_set_priority, one after the other, do what its five steps do: the caller has that base priority and exactly the highest of it and its donors', and no ready thread has more than the running one |
| Timers.Timer.TimerSleep | src/devices/timer.c:102-112 | the thread is due after max(n, 1) ticks and the sleep list stays sorted and complete |
| Timers.Timer.TimerInterrupt | src/devices/timer.c:186-198 | unblocks exactly the threads that are due at the new tick, each once |
| Timers.SleepsForTicks | src/devices/timer.c:102-198 | from any time, a thread that goes to sleep for n ticks is asleep after any events with k ticks, if it does not sleep again, if and only if k is less than n, or than one if n is smaller |
| Timers.SleepsUntilDue | src/devices/timer.c:102-198 | over every run of ticks and other threads' sleeps a sleeping thread sleeps on exactly until its tick |
| Timers.WokenOnce | src/devices/timer.c:102-198 | the only tick of a run that wakes it is the one at which it is due |
| Sleeping.MoveJoint | src/devices/timer.c:102-198 | every step of the scheduler, every sleep and every timer interrupt keeps scheduler and timer in agreement: exactly the threads blocked on no semaphore have a tick to wake up at, and it is still to come |
| Sleeping.StartJoint | src/threads/thread.c:92-122 | at boot scheduler and timer agree: nobody is asleep |
| Sleeping.SleepsForTicks | src/devices/timer.c:102-198 | the same over every run of scheduler and timer together: the thread is blocked while there have been fewer than max(n, 1) timer interrupts, and after that it is not, unless it goes to sleep again |
| Sleeping.AsleepUntilDue | src/devices/timer.c:102-198 | over every run of scheduler and timer together a sleeping thread is asleep exactly while its tick is still to come, unless it goes to sleep again |
| Merging.MergeSorted | src/lib/kernel/list.c:380-399 | merging two sorted runs gives a sorted one, for any strict weak order |
| Merging.MergeStable | src/lib/kernel/list.c:380-399 | merging never puts an element before one it is not less than |
| Merging.CountHalves | src/lib/kernel/list.c:405-440 | a pass writes half as many runs as there were, rounded up |
| Merging.PassRuns | src/lib/kernel/list.c:405-440 | after a pass there are no more runs than it wrote |
| Merging.PassStable | src/lib/kernel/list.c:405-440 | a pass is a stable rearrangement |
| Merging.PassSorted | src/lib/kernel/list.c:405-440 | when a pass writes a single run the list is sorted |
| Merging.StableSortUnique | src/lib/kernel/list.c:405-440 | in a sorted stable rearrangement x comes before y if and only if x is less, or not greater and before y already: the result is determined |
| LinkedLists.Splice | src/lib/kernel/list.c:184-204 | within a list the pointer assignments move the range in front of the element and leave a well-linked list |
| LinkedLists.SpliceFrom | src/lib/kernel/list.c:184-204 | from another list they leave both lists well linked, with the range moved |
| LinkedLists.FindEndOfRun | src/lib/kernel/list.c:358-372 | the end of the maximal nondecreasing run |
| LinkedLists.InplaceMerge | src/lib/kernel/list.c:380-399 | the pointer structure is that of the merged sequence, everything else in place |
| LinkedLists.MergePass | src/lib/kernel/list.c:417-436 | one pass over the pointers is one functional pass, with the same run count |
| LinkedLists.List.Sort | src/lib/kernel/list.c:405-440 | terminates with a well-linked list of the same elements, sorted and stable for any strict weak order; it takes one pass, or p passes with 2^(p-1) less than the number of runs |
| LinkedLists.List.InsertOrdered | src/lib/kernel/list.c:449-462 | the element goes in front of the first one it is less than, and the list stays well linked |
| LinkedLists.InsertKeepsSorted | src/lib/kernel/list.c:449-462 | an ordered insertion keeps a sorted list sorted, the new element after its equals |
| LinkedLists.List.Reverse | src/lib/kernel/list.c:326-337 | swapping the links reverses the list |
| LinkedLists.Unlink | src/lib/kernel/list.c:249-255 | removes exactly that element and returns the one after it |
| Paging.ToSwapInv | src/vm/swap.c:131-148 | writing a page to a free slot keeps frames, slots, frame table and mappings consistent and leaves the frame in nobody's use |
| Paging.ToSwapContents | src/vm/swap.c:131-148 | and changes the contents of no page of any process |
| Paging.ToFileExact | src/vm/swap.c:98-128 | dropping a file-backed page, after writing back a dirty mapped one, changes no page if and only if, beforehand, a clean page has what its file has, and no byte of a dirty one differs from its file where a page still to be read in shares it |
| Paging.ToFileContents | src/vm/swap.c:98-128 | so it changes no page if no part of a file is mapped and backs another page too |
| Paging.FromFileContents | src/userprog/exception.c:235-251 | reading a page in from its file changes no page |
| Paging.FromSwapContents | src/vm/swap.c:152-167 | reading a page in from its slot and freeing the slot changes no page |
| Paging.GrownContents | src/userprog/exception.c:222-231 | a new stack page has what its frame had in it, and no other page changes |
| Paging.GoneByte | src/vm/memory_mapping.c:81-131 | removing a page of a mapping leaves its part of the file with what the page had, and the rest of all files as it was |
| Memories.Memory.WriteToBlock | src/vm/swap.c:49-56 | the eight sectors of the slot have the page; all other slots are as before |
| Memories.Memory.ReadFromBlock | src/vm/swap.c:39-46 | the page in the eight sectors of the slot |
| Memories.Memory.Sweep | src/vm/frame_table.c:86-110 | clears every accessed bit, stamps those pages with the time, and finds the first page with the oldest time among the others |
| Memories.Memory.PopLru | src/vm/frame_table.c:77-119 | the page not accessed for longest; if all were accessed since the last sweep, the first in the table; none only if the table is empty |
| Memories.EvictsOldest | src/vm/frame_table.c:86-119 | the page chosen was not accessed since the last sweep if any was not, and none of those was accessed longer ago; ties and the case that all were go to the first in the table |
| Memories.SweepStamps | src/vm/frame_table.c:86-110 | the sweep stamps exactly the pages that were accessed with the time and clears their bits |
| Memories.Memory.Evict | src/vm/swap.c:83-149 | succeeds if and only if the page chosen can be dropped or there is a free slot; then it gives up its frame, and no page of any process changes if and only if dropping it is harmless as above, which it always is with nothing shared |
| Memories.Memory.ObtainFrame | src/userprog/exception.c:203-213 | a frame nobody uses, if and only if the pool has one or the eviction succeeds: zeroed if it came from the pool, else as the evicted page left it |
| Memories.Memory.PageFault | src/userprog/exception.c:155-283 | exactly when a fault is served; every fault keeps frames, slots and mappings consistent; a served fault loads the page and, with nothing shared, changes no page; a new stack page is zero if and only if the pool had a frame or the evicted page was all zeros; a failed fault changes no page |
| Memories.StackGrowth | src/userprog/exception.c:129-141 | a stack grows for exactly the accesses at most 32 bytes below its pointer, within user memory and not below the program, so for PUSH and PUSHA |
| Memories.StaleStack | src/userprog/exception.c:203-231 | a failing run: a process that never wrote anything reads from its new stack page the byte another process wrote |
| Memories.Memory.Access | src/userprog/exception.c:189-283 | an access succeeds if and only if the page is loaded or a frame can be had, and a store's page is writable |
| Memories.Memory.Run | src/userprog/exception.c:189-283 | any accesses of any processes, with all faults and evictions they cause, read and write flat memory; with a frame, a slot for every page that may need one and no write-denied mapped file, all of them are served |
| Memories.LoadsRecall | src/userprog/exception.c:189-283 | over any accesses a load gives the byte last stored there, or the one there was |
| Memories.Memory.AddFile | src/vm/sup_page_table.c:96-129 | the new page shows its part of the file and zeros, and nothing is shared afterwards if and only if nothing was and no mapping has that part |
| Memories.Memory.MapFile | src/userprog/syscall.c:339-434 | succeeds if and only if address, length, memory and free pages allow; a failed call leaves the supplemental page table exactly as it was; a new mapping shows byte j of the file j bytes behind the address; nothing is shared afterwards if and only if nothing was and no page is backed by the file's bytes |
| Memories.Memory.Unmap | src/vm/memory_mapping.c:71-140 | exactly the mapping's pages go; with nothing shared the file gets the mapping's memory image, unless it may not be written, and no other page, file or mapping changes |
| Memories.Memory.Session | src/userprog/syscall.c:326-434 | map, any accesses with their faults and evictions, unmap: the file ends up with what the accesses left in the mapping; with room as above all accesses are served |
| MemoryRuns.Do | src/userprog/syscall.c:326-434 | exactly when an access, a stack growth, a mapping or an unmapping succeeds, and what it does to flat memory and plain files |
| MemoryRuns.Run | src/userprog/exception.c:155-283 | any run of those by any processes reads and writes flat memory and plain files, where a mapped file is what the mapping shows; a file not mapped at the end has those bytes on disk |
| MemoryRuns.MemoryHolds | src/userprog/exception.c:155-283 | after any such run every byte of memory is the one last stored there since its page came to be, or what the page then had: a new stack page's bytes, or those of the file mapped |
| MemoryRuns.LoadSays | src/userprog/exception.c:155-283 | and a load gives that byte |
| MemoryRuns.MapShowsFile | src/userprog/syscall.c:339-434 | a mapped file is found at the address it was mapped at, byte for byte |
| MemoryRuns.StoreReachesFile | src/userprog/syscall.c:339-434 | a store into a mapping changes that byte of its file, as programs see it, and nothing else of any file |
| MemoryRuns.FlatRemoved | src/vm/memory_mapping.c:71-140 | unmapping leaves every file as programs saw it while it was mapped |
| Memories.SharedEviction | src/vm/swap.c:104-128 | a file mapped by two processes: evicting the dirty page of one changes what the other sees |
| Allocation.Allocator.GetPages | src/threads/palloc.c:71-101 | the first group of that many free pages, now marked; null if there is none or none is asked for |
| Allocation.DescriptorSizes | src/threads/malloc.c:72-85 | seven descriptors, from 16 to 1024 bytes |
| Allocation.ArenaFilled | src/threads/malloc.c:72-85 | an arena has exactly as many blocks as fit a page after its header, and each block size is twice the one before |
| Allocation.Allocator.Malloc | src/threads/malloc.c:90-154 | succeeds if and only if a block of the smallest fitting size is listed, a page is free, or for a big request that many pages in a row; a new block, not in use before, with all heap invariants kept, also with pages of the pool in others' hands |
| Allocation.Allocator.Free | src/threads/malloc.c:219-264 | exactly that block is no longer in use, with all heap invariants kept |
| Allocation.BlocksApart | src/threads/malloc.c:268-294 | the bytes of two blocks in use never overlap and lie within their arenas after the header |
| Allocation.CarvedInv | src/threads/malloc.c:124-146 | dividing a page into blocks keeps the heap invariants: each block listed once, the free count the number listed |
| Allocation.ReturnedInv | src/threads/malloc.c:219-241 | putting a block back keeps them, and the free count never exceeds the arena's blocks |
| Allocation.DissolvedInv | src/threads/malloc.c:240-253 | giving back a page whose blocks are all listed keeps them and leaves none of its blocks listed |
| Allocation.ArenaInUse | src/threads/malloc.c:240-253 | every page kept for small blocks has one in use: it is given back with its last block |
| Allocation.AllPagesBack | src/threads/malloc.c:219-264 | when nothing is in use any more the marked pages of the pool are exactly those others took |
| Allocation.Allocator.GivePages | src/threads/palloc.c:117-142 | and give them back at any time, likewise |
| Allocation.Allocator.TakePages | src/threads/palloc.c:71-101 | others may take pages from the same pool at any time; all heap invariants are kept |
| Allocation.PagesSuffice | src/threads/malloc.c:105-120 | in 32-bit arithmetic the pages of a big block hold the request if and only if size and header fit the address space |
| Allocation.HugeRequest | src/threads/malloc.c:105-120 | a request for the largest size gets a single page |
| Hashing.TurnedOff | src/lib/kernel/hash.c:330-340 | turning off the lowest bit keeps the highest one, unless it is the only one |
| Hashing.MaskIsMod | src/lib/kernel/hash.c:306-310 | masking the hash with a power of two less one is the remainder |
| Hashing.HashTable.Find | src/lib/kernel/hash.c:132-135 | the element with an equal key, if the map has one |
| Hashing.HashTable.Insert | src/lib/kernel/hash.c:99-110 | the map gets the element unless it has an equal one, which is returned |
| Hashing.HashTable.Replace | src/lib/kernel/hash.c:115-127 | the map gets the element; the one replaced is returned |
| Hashing.HashTable.Delete | src/lib/kernel/hash.c:145-154 | the map loses the key; the element removed is returned |
| Hashing.HashTable.BestCount | src/lib/kernel/hash.c:364-372 | the highest power of two in half the element count, at least four |
| Hashing.HashTable.Rehash | src/lib/kernel/hash.c:352-413 | the same map and count in a power of two of at least four buckets; without memory nothing changes |
| Hashing.HashTable.Next | src/lib/kernel/hash.c:219-235 | the next of the elements still to come, or none if there are none |
| Hashing.HashTable.Iterate | src/lib/kernel/hash.c:200-235 | a full iteration visits every element exactly once |
| Division.Nlz | src/lib/arithmetic.c:42-73 | shifting by the result brings the highest bit to the top of the word |
| Division.SchoolDivision | src/lib/arithmetic.c:80-113 | for a one-word divisor the partial division cannot overflow and the two partial quotients add up to the quotient |
| Division.LargeDivision | src/lib/arithmetic.c:115-126 | for a longer divisor the normalised division cannot overflow and its estimate is the quotient or one more, told apart by the correction |
| Division.Udiv64 | src/lib/arithmetic.c:78-127 | the quotient for every 64-bit dividend and nonzero divisor; neither DIVL traps |
| Division.Umod64 | src/lib/arithmetic.c:132-135 | the remainder, cut to 32 bits |
| Division.Sdiv64 | src/lib/arithmetic.c:140-146 | the quotient rounded toward zero if and only if it is not the smallest number divided by -1, which gives itself |
| Ustar.StripIdempotent | src/lib/ustar.c:66-73 | stripping a stripped name changes nothing |
| Ustar.Strip | src/lib/ustar.c:66-73 | the loop drops every leading slash, ./ and ../, and turns nothing or .. into a dot |
| Ustar.StrippedPieces | src/lib/ustar.c:66-73 | what is dropped is a sequence of /, ./ and ../, what is left starts with none of them, and nothing or .. becomes a dot |
| Ustar.ChecksumIsTotal | src/lib/ustar.c:37-54 | the checksum is the sum of all 512 bytes of the header with eight spaces in the field |
| Ustar.CalculateChksum | src/lib/ustar.c:37-54 | the sum of the bytes with the checksum field as spaces |
| Ustar.ChecksumParsed | src/lib/ustar.c:114-115 | writing the checksum does not change it, and it is parsed back from its field |
| Ustar.OctalFieldParsed | src/lib/ustar.c:130-162 | a value printed into an octal field is parsed back |
| Ustar.OctalParsed | src/lib/ustar.c:130-162 | a value is read from a field if and only if it fits 32 bits and the field starts with its octal digits, at least one, and a space or zero byte |
| Ustar.MadeFields | src/lib/ustar.c:83-118 | a header that is made has name, mode, owner, size, date, checksum, type, magic, version and names in their places, as octal digits where they are numbers, and zeros elsewhere |
| Ustar.MakeHeader | src/lib/ustar.c:83-118 | fills the header in place, or fails and leaves it alone if and only if the stripped name is over 99 characters |
| Ustar.ParseHeader | src/lib/ustar.c:182-227 | an entry if and only if magic and version are right, the checksum field holds the sum of the header with that field as spaces, name and prefix fit, and it is a directory or a file with a size below 2^31; its name, type and size are those in the fields; the end of the archive if and only if all bytes are zero |
| Ustar.EntryIffAcceptable | src/lib/ustar.c:182-227 | that if and only if, over the bytes of the header |
| Ustar.ChangeNoticed | src/lib/ustar.c:201-207 | changing any one byte of an entry outside the checksum field is refused |
| Ustar.HeaderRoundTrip | src/lib/ustar.c:83-227 | parsing a made header gives the stripped name, the type and the size, 0 for a directory; only a size negative as an int is refused |
| Formatting.WriteDigits | src/lib/stdio.c:501-513 | digits and commas of every 64-bit value in every base take at most 29 characters |
| Formatting.WriteZeros | src/lib/stdio.c:515-524 | with the zeros of precision and # flag the buffer has at most 64 characters |
| Formatting.FormatInteger | src/lib/stdio.c:470-547 | never overruns its buffer, and prints sign, prefix, padding and digits as the conversion asks |
| Formatting.RenderedReads | src/lib/stdio.c:470-547 | in every base what is printed without a width is a minus sign exactly for negative numbers, 0x exactly if asked for, and digits of the base that have the value |
| Formatting.RenderedAligned | src/lib/stdio.c:526-547 | a width fills the same characters up to exactly that many: with spaces in front, behind with the minus flag, or with zeros in front of the digits with the zero flag |
| Formatting.BodyLength | src/lib/stdio.c:515-524 | at least as many digits as the precision asks for, up to 63, and no leading zero beyond those and the one that # asks for in octal |
| Formatting.CommaPlaces | src/lib/stdio.c:501-513 | counted from the right, the commas stand after every group of digits and nowhere else |
| Formatting.GroupingAddsCommas | src/lib/stdio.c:505-513 | grouping adds commas and nothing else |
| Formatting.OctalField | src/lib/stdio.c:470-547 | a value that fits is printed in exactly the field's width of octal digits, which have that value |
| Formatting.Atoi | src/lib/stdlib.c:10-41 | the decimal number the string starts with, as a 32-bit int |
| Formatting.DecimalReads | src/lib/stdlib.c:10-41 | white space is skipped, then one sign; the digits that follow count and what comes after them does not |
| Formatting.DecimalRoundTrip | src/lib/stdlib.c:10-41 | every number printed with %d reads back as itself |
| Heapsort.Heapify | src/lib/stdlib.c:97-123 | the element floats down until all from there on is a heap; the elements are the same |
| Heapsort.RootMax | src/lib/stdlib.c:97-123 | the root of a heap is its maximum |
| Heapsort.Sort | src/lib/stdlib.c:132-152 | an ordered permutation, for any total preorder and any count |
| Heapsort.BinarySearch | src/lib/stdlib.c:185-207 | on an ordered array a match if and only if there is one |
| Directories.FilledEntry | src/filesys/directory.c:204-208 | an entry written over any old buffer reads back as its sector and name, in use |
| Directories.Directory.Find | src/filesys/directory.c:125-145 | the one slot in use with the name, or none |
| Directories.Directory.Lookup | src/filesys/directory.c:152-166 | the sector the directory maps the name to |
| Directories.Directory.Add | src/filesys/directory.c:175-212 | succeeds if and only if the name is new, has 1 to 14 characters, and the file system accepts the write at the first free slot; then the map has just that name more; a failed call leaves the map, and at most one more empty slot |
| Directories.Directory.Remove | src/filesys/directory.c:218-249 | succeeds if and only if the name is there, its inode can be opened and the directory written; then the map has just that name less, and the file is deleted at once or marked for its last closer |
| Directories.Directory.ReadDir | src/filesys/directory.c:255-271 | the next name in slot order other than dot and dot-dot |
| Directories.Directory.ReadAll | src/filesys/directory.c:255-271 | a full pass returns every name but dot and dot-dot exactly once |
| Directories.Directory.IsEmpty | src/filesys/directory.c:49-63 | true exactly if there are no names but dot and dot-dot |
| PageDirectories.UserEntryFields | src/threads/pte.h:96-98 | an entry made for a user page points to its frame and has exactly the right flags |
| PageDirectories.FlagEffect | src/userprog/pagedir.c:144-224 | setting or clearing a flag of an entry changes that flag only |
| PageDirectories.PageDirectory.SetPage | src/userprog/pagedir.c:99-119 | maps exactly that page to the frame; fails, changing nothing, only without a page for a new table |
| PageDirectories.PageDirectory.GetPage | src/userprog/pagedir.c:126-137 | the frame the page is mapped to, if any |
| PageDirectories.PageDirectory.ClearPage | src/userprog/pagedir.c:144-157 | unmaps exactly that page and keeps every other flag |
| PageDirectories.PageDirectory.SetFlag | src/userprog/pagedir.c:182-224 | changes the dirty or accessed flag of that entry, no other flag and no mapping |
| PageDirectories.IndexBits | src/threads/pte.h:32-39 | the bits taken from an address for the two indices divide its page number by 1024 |
| PageDirectories.PageDirectory.Destroy | src/userprog/pagedir.c:28-48 | frees exactly the frames mapped and the page tables, each once if no frame is shared |

## Left out

- Inodes.FileSystem.Allocate: does not write the free map to its own file; the failure of that write, which takes lack of kernel memory for its bounce buffer, is not modelled.
- Inodes.FileSystem.WriteAt: the branch that clears the bounce buffer is not modelled, because it cannot be taken: a chunk with nothing before or after it in its sector is a whole sector and is written directly.
- Memories.Memory.PageFault: a fault, an eviction, a mapping and an unmapping are each one atomic step; interleavings inside one are not modelled. Page numbers do not wrap around at 32 bits, and the flags of entries that are not present are not kept in this part (PageDirectory.dfy has them).
- Memories.Memory.Evict: bytes of a mapped page past the end of the file are not part of the page's kept contents.
- Formatting.Atoi: overflow, undefined in C, is taken to wrap around.
- Timers.Timer.TimerSleep: tick counts do not wrap around at 64 bits.
- Division.Sdiv64: negating the smallest number, undefined in C, is taken to wrap around.
- Heapsort.Heapify: elements are values of any type; the byte-by-byte exchange of do_swap is one assignment.
- Directories.Directory.Add: every read of an entry has memory for its bounce buffer, as the source says it relies on; the directory is at least one entry short of the largest file.
- Directories.Directory.Remove: requires that the directory lists a live inode other than its own under that name.
- SchedulerRuns.RunDonation: speaks of the donors a thread lists; a thread still waiting when a lock changes hands is not listed with the new holder, so nothing is said about the two.
- Imperative methods for thread_create, thread_exit, lock_try_acquire and the blocking in timer_sleep: they are steps of the scheduler machine on values only.
- Condition variables and the blocking side of the interrupt queues: their guarantees depend on interleavings between releasing a lock and waiting.
- Process exit: swap slots of an exiting process stay marked, so slots are only accounted for while processes live.
- realloc and calloc (a malloc with a copy or a fill), list_unique, list_min, hash_clear and hash_apply (one pass over a list), the string hash functions (any hash will do for the table), vsnprintf and the format parser (they take formats apart for FormatInteger): no property here rests on them.
- The rest of filesys_create: if the directory entry cannot be added, only the inode's sector is released.
- MemoryRuns.Run: an act that maps a write-denied file, or one that backs a page already, is not carried out; Memories.Memory.MapFile and Memories.Memory.Unmap cover those.
- Path resolution, system call dispatch, ELF loading, argument passing, device drivers, interrupt stubs, boot code and the multi-level feedback queue stubs.
- 32-bit wrap-around of addresses inside the heap and of list and table sizes: all lie within the pages of one pool.
