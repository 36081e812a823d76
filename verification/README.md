# Verified model of a small microkernel system

The repository is a single-core AArch64 microkernel with user-level services: page tables with shared
physical pages, a two-list scheduler, message passing, copy-on-write fork, pipes, a file server with a block
cache, a program loader and a shell.  This project models that core in Dafny and proves what it is for.

| file | what it models |
|---|---|
| PageTables.dfy | memory as one value: allocation bits, counts, page contents; the references in all trees and the invariant over them |
| Pmap.dfy, EnvVm.dfy, MemSyscalls.dfy | mm/pmap.c, the address spaces of kernel/env.c and the memory system calls, imperatively, over arrays |
| AllocMask.dfy | page_alloc with the mask as it is written |
| CowFork.dfy, CowRuns.dfy, CowReads.dfy, UserFork.dfy | user/fork.c: a transition system over all environments with its eager specification, its runs, what programs read meanwhile, and the code itself |
| PipeRing.dfy, PipeClosed.dfy | user/pipe.c: the ring under preemption, and how reference counts tell that an end is closed |
| ListQueue.dfy | the pointer macros of include/queue.h |
| EnvKernel.dfy, Scheduler.dfy, EnvCalls.dfy, EnvEffects.dfy | environments, run queues and mailboxes as one value, sched_yield, the kernel entries, and what each does to whom |
| KernelCode.dfy | the same as code over linked lists and an array, proved to do what the functions say |
| Rpc.dfy, ServeLoop.dfy | the protocol between fsipc clients and the file server, on top of the kernel model, and the handlers' control flow |
| BlockCache.dfy, BlockCacheCode.dfy | the cache of fs/fs.c over fs/sd_card.c, as functions and as code |
| Loader.dfy, ArgStack.dfy | usr_load_elf and init_stack of user/spawn.c |
| Lexer.dfy | the shell's in-place lexer |
| PrintNum.dfy | the number printer of lib/print.c |
| MemoryMap.dfy, Wrappers.dfy | constants of the memory layout, and Option |

Main results: reference counts are exact over every run from boot and every teardown (`MemSyscalls.Run`,
`PageTables.TeardownIsExact`) and no event touches what other spaces map (`MemSyscalls.Isolation`); the page
table is a finite map (`PageTables.RemapsIsMapUpdate`); lazy fork is indistinguishable from eager copying
(`CowRuns.CowSimulatesEagerCopy`, `CowReads.StoreGoesThrough`); the pipe is a queue under every schedule
(`PipeRing.Run`) and "closed" is never said falsely (`PipeClosed.PipeIsClosedIsSound`); bounded bypass
(`Scheduler.BoundedBypass`); every environment in one place and messages delivered once
(`EnvCalls.RunsStaySound`, `EnvCalls.MailboxIsStable`); replies match requests (`Rpc.RepliesMatchRequests`); the
cache refines a plain disk (`BlockCache.RunRefines`); the image and the arguments of a new program
(`Loader.Machine.LoadElf`, `ArgStack.StackRoundTrip`); lexer and printer equal their pure forms
(`Lexer.LexLine`, `PrintNum.FormatRoundTrip`).

Where the code does not do what one would want, a lemma says exactly when it does:

- `EnvVm.CreateFirst`, `MemSyscalls.DirectoryBecomesUserPage`: boot allocates page 0 without counting it (boot/init.c:56-60), so that it is free after its last unmapping, and env_setup_vm maps it without looking (kernel/env.c:85-86).
- `MemSyscalls.SysMemAlloc`: when page_insert fails the page that was allocated for it is lost (kernel/syscall_all.c:76-85).
- `MemSyscalls.PageOut`: a valid leaf without PTE_USER is overwritten without being released.
- `AllocMask.PageAllocAsWritten`, `AllocMask.UpperHalfIsLost`: `1 << j` is an int (mm/pmap.c:26, mm/pmap.c:29).
- `CowRuns.DisciplinedIffInTime`, `CowRuns.TooLateIsReachable`, `CowRuns.DuppageSafeIffWordNotStale`: fork passes duppage a page-table word read earlier (user/fork.c:114).
- `PipeClosed.CoveredIffGranted`, `PipeClosed.DupSafeIffRingGranted`, `PipeClosed.FalselyClosed`: dup compares instead of assigning at user/fd.c:168 and so ignores a failed mapping.
- `PipeClosed.TruncatedAgrees`: env_runs is kept in an int (user/pipe.c:70); after 2^31 dispatches the retry loop cannot end.
- `EnvCalls.DestroyIsForSelf`, `EnvCalls.WakingIsForNonReceivers`: destroying or waking another environment.
- `BlockCache.UnmapKeepsContent`, `BlockCache.CheckLosesBlockZero`: a free block's newer page, and block 0 in check_write_block.
- `Loader.LaterSegment`: segments that share a page.
- `Loader.Machine.LoadElf`: read stores a zero behind what it read (user/fd.c:232), and usr_load_elf gives it a buffer of exactly one page.
- `ArgStack.FitsIffRoom`: the array and the stack pointer of init_stack are rounded to 4 bytes only (user/spawn.c:25).
- `Scheduler.YieldIsTheLoop`, `Scheduler.WhenYieldFails`: when sched_yield returns, panics, or spins.

Smaller departures of code from intention that the models follow: sys_ipc_can_send delivers and wakes before it
looks up the page, so that -1 can follow a delivery (kernel/syscall_all.c:240-251); pipewrite returns 0 when the
pipe is closed even after writing part (user/pipe.c:131); init_stack returns 1 when its allocation fails
(user/spawn.c:27); env_setup_vm ignores failed insertions (kernel/env.c:86); sys_mem_unmap stores no result when it
succeeds (kernel/syscall_all.c:132-150).

Reading the models: `hide` at the start of a proof keeps definitions out of it that it does not need.  Ghost fields
of the classes are the abstract values of linked lists and histories.  A result `ok == false` of a method that has
a panic path stands for the panic.

## Model

| member | source | states |
|---|---|---|
| PageTables.Translate | mm/pmap.c:53-93 | the leaf word that a three-level walk from a directory finds for an address, or none |
| PageTables.Holders | mm/pmap.c:83-118 | every reference to a page in all address spaces: leaf entries, table links, directory roots; a finite set |
| PageTables.Valid | kernel/env.c:61-87 | the global invariant: each count is the pinned boot count plus the number of holders, counted pages are allocated, every table hangs at one place |
| PageTables.GainKeepsValid | mm/pmap.c:115-118 | one new entry with one increment keeps the whole invariant |
| PageTables.LoseKeepsValid | mm/pmap.c:141-162 | one cleared entry with one decrement, freeing at zero, keeps the whole invariant |
| PageTables.LinkKeepsValid | mm/pmap.c:72-84 | linking a fresh zeroed page as a table keeps the invariant and changes no translation |
| PageTables.MapValidIffData | mm/pmap.c:109-120 | a counted mapping into an empty leaf remaps that one address of that one space, and keeps the invariant if and only if the page is allocated and no table; mapping a table leaves the tables no trees |
| PageTables.UnmapKeepsValid | mm/pmap.c:146-162 | clearing a leaf keeps the invariant and deletes that one address of that one space; tables stay tables |
| PageTables.RemapKeepsValid | mm/pmap.c:99-107 | rewriting the entry of the same page changes the permission only and no count |
| PageTables.UnlinkKeepsValid | kernel/env.c:215-220 | cutting off an emptied table releases exactly that reference |
| PageTables.DropRootKeepsValid | kernel/env.c:222-225 | releasing an emptied directory keeps the invariant for the other spaces |
| PageTables.TeardownIsExact | kernel/env.c:193-229 | after a teardown each count is lower by exactly the number of references the dead tree held, and a page became free exactly when it had no other reference |
| PageTables.NewRootKeepsValid | kernel/env.c:66-82 | a fresh directory whose only entry maps itself joins the invariant |
| PageTables.RemapsIsMapUpdate | mm/pmap.c:95-162 | the tree refines a finite map: insert is update, remove is deletion, and the maps of all other directories are equal before and after |
| PageTables.GrowingIsInvisible | mm/pmap.c:72-89 | allocating tables on the way changes no entry of any map |
| PageTables.WordAddressInjective | mm/pmap.c:60-92 | two sites that hold something never share a table word |
| PageTables.RefsFitIn32Bits | mm/pmap.c:118 | a count never reaches 2^32, because every reference but a root needs a table word of its own |
| PageTables.BootIsValid | boot/init.c:55-80 | the state left by boot satisfies the invariant |
| Pmap.PhysMem.constructor | boot/init.c:55-80 | which pages boot allocates and how often it counts each; page 0 is allocated with count zero |
| Pmap.PhysMem.PageAlloc | mm/pmap.c:19-37 | with a mask of the width of the word: returns the lowest free page, zeroed and marked, or fails exactly when none is free |
| AllocMask.PageAllocAsWritten | mm/pmap.c:19-37 | with the mask as written: never hands out an allocated page, finds only pages whose number is below 32 modulo 64, and succeeds exactly when some word has a free page below 31 or nothing allocated from 31 on |
| AllocMask.UpperHalfIsLost | mm/pmap.c:26-29 | handing out page 31 of a word marks pages 32 to 63, which nobody gets, and while any of them is marked page 31 is not found again |
| Pmap.PhysMem.PageFree | mm/pmap.c:39-50 | clears the allocation bit exactly when the count is zero |
| Pmap.PhysMem.PageDecref | mm/pmap.c:141-144 | one reference less, freed at zero |
| Pmap.PhysMem.LinkTable | mm/pmap.c:72-84 | a missing table is allocated and linked; failure changes nothing |
| Pmap.PhysMem.PgdirWalk | mm/pmap.c:53-93 | finds the leaf word of the address; creates tables only on request and changes no translation; fails only when no page is free |
| Pmap.PhysMem.PageLookup | mm/pmap.c:123-139 | finds exactly what the address translates to and changes nothing |
| Pmap.PhysMem.PageRemove | mm/pmap.c:146-162 | deletes one address; counts and allocation bits follow; no other word changes |
| Pmap.PhysMem.PageInsert | mm/pmap.c:95-121 | updates one address, replacing and releasing what was there; counts and allocation bits follow; the invariant is kept if and only if the page is no table; on failure the map is as it was |
| Pmap.PhysMem.MapEmpty | mm/pmap.c:109-120 | the second half of page_insert, for an unmapped address, with the same condition |
| EnvVm.BeginSpace | kernel/env.c:66-82 | a directory on the lowest free page, for a space that maps nothing |
| EnvVm.EnvSetupVm | kernel/env.c:61-87 | when the boot pages are allocated and no tables: a new space maps them at their own addresses, maps itself in its own slot, and maps nothing else; no other space changes; no page is lost; all are mapped when memory is left, for which 2n + 2 free pages suffice |
| EnvVm.CreateFirst | kernel/env.c:61-86 | whatever has become of page 0, inserting it keeps the invariant if and only if page 0 was still allocated and no table before the call; otherwise a directory or table is mapped for the user at address 0 |
| EnvVm.PageZero | kernel/env.c:66-86 | once the directory is allocated, page 0 is a table exactly when it was free or a table before |
| EnvVm.NewDirectory | kernel/env.c:72-82 | the fresh directory holds its self-map and nothing else |
| EnvVm.BootStep | kernel/env.c:85-86 | each round maps one boot page or, with its result ignored, none |
| EnvVm.EnvFree | kernel/env.c:193-229 | the triple loop removes the whole tree, only that tree, leaves the self-maps of all others, and keeps the invariant |
| EnvVm.FreeDir | kernel/env.c:197-221 | one directory entry with everything below it is torn down |
| EnvVm.FreeMid | kernel/env.c:202-218 | one middle entry with its leaf table is torn down |
| EnvVm.Unlink | kernel/env.c:215-220 | the word of an emptied table is cleared and the table released |
| MemSyscalls.IndexOfIdentifiesPage | mm/pmap.c:63-91 | below 2^39 two addresses share their three indices exactly when they lie in one page |
| MemSyscalls.SysMemAlloc | kernel/syscall_all.c:62-88 | on success the address maps a page that was free and reads as zero, and no page is lost; on failure no translation changes, and either nothing has changed at all or memory ran out in page_insert and exactly the page taken before is lost, allocated with no reference |
| MemSyscalls.SysMemMap | kernel/syscall_all.c:90-130 | on success the destination maps the page of the source; on failure no translation changes: nothing has changed at all, or no page is left |
| MemSyscalls.SysMemUnmap | kernel/syscall_all.c:132-150 | deletes one address and leaves register 0 as it was, or stores -1 there for an address above KERNBASE or an unknown environment |
| MemSyscalls.PageOut | mm/pmap.c:208-248 | a missing page is created zeroed and a present user page left alone; the invariant is kept if and only if the leaf was invalid or a user page, or memory ran out |
| MemSyscalls.OverwrittenLeaks | mm/pmap.c:237-241 | overwriting a valid leaf leaves the count of its page above its references |
| MemSyscalls.InTablesIsTable | kernel/env.c:66-82 | looking through all spaces decides whether a page is a directory or a table |
| MemSyscalls.Execute | kernel/syscall_all.c:62-150 | every memory event keeps the global invariant and has exactly its effect on the address spaces, or runs out of memory and has none; it spares all other contents and all self-maps; a data page stays one until its count drops to zero; only a creation can be refused, and exactly when page 0 is not a data page |
| MemSyscalls.OnMap | kernel/syscall_all.c:90-130 | ... for a mapping: the destination comes to map the page that the source maps |
| MemSyscalls.OnCreate | kernel/env.c:61-87 | ... for a creation: one new space, which maps the boot pages |
| MemSyscalls.OnDestroy | kernel/env.c:193-229 | ... for a teardown: that root goes, with its tree |
| MemSyscalls.Isolation | mm/pmap.c:95-162 | an event that does not name a space changes no mapping of it and no word that it maps, but for a store through a mapping of the same page |
| MemSyscalls.Run | boot/init.c:55-80 | from boot, over every sequence of allocations, mappings, unmappings, faults, stores, creations and teardowns: every state has each count equal to the references there are, counted pages allocated and every directory mapping itself; each state comes from the one before by the effect of its event; the creations refused are those that find page 0 no data page, none before page 0 has lost its last reference |
| MemSyscalls.OnlyMapping | boot/init.c:56-60 | after boot and one creation the only reference to page 0 is the mapping at address 0 |
| MemSyscalls.DirectoryBecomesUserPage | kernel/env.c:85-86 | the failing run from boot: one environment is created and unmaps address 0; the next directory is page 0 itself, mapped for the user at address 0 |
| CowReads.StepReads | user/fork.c:37-137 | byte by byte: a store changes the byte at its own address, and where its page is shared as a library page; a page that a step adds is zero or reads as what it was mapped or copied from; every other byte that any environment reads stays |
| CowReads.StepSharing | user/fork.c:64-86 | library pages stay shared with whatever they are shared with, in the child as in its parent, and no other page becomes shared |
| CowReads.StoreGoesThrough | user/fork.c:37-62 | a store by a running environment to a page it maps always goes through, at once or after its fault handler has run with one unused page; afterwards the writer reads the byte it stored and nobody else sees a difference, but through library pages |
| CowReads.EagerStoreIsLocal | user/fork.c:90-137 | in the eager machine a store changes one byte of one page, or of one shared object wherever it is mapped |
| CowReads.ViewIsWhatIsRead | user/fork.c:90-137 | the view on which both machines agree is what programs read: pages, bytes and with whom they are shared |
| CowFork.Step | user/fork.c:37-137 | the lazy machine, one system call or store at a time, with the library pages that programs allocate and share; CowReads.StepReads and CowReads.StepSharing say what each step does to what programs read |
| CowFork.EagerStep | user/fork.c:90-137 | the specification: fork copies private pages at once and shares library pages |
| CowFork.WritableIsOwned | user/fork.c:64-86 | a private page that an environment can write is reachable through no other mapping |
| CowFork.BootIsDisciplined | kernel/env.c:85-86 | new environments satisfy the sharing discipline |
| CowFork.StepKeepsInv | user/fork.c:37-137 | the sharing discipline holds after every step of every environment, the first call of duppage taken with the word of its page |
| CowFork.StepSimulates | user/fork.c:37-137 | every step changes what programs see exactly as the eager machine does |
| CowRuns.StepIffNotTooLate | user/fork.c:108-120 | a step of the machine in which the word read by fork and the first call of duppage are separate keeps the sharing discipline if and only if it is not that call after a fault on its page |
| CowRuns.CowSimulatesEagerCopy | user/fork.c:37-137 | over every interleaving of stores, faults, shared pages and nested forks in which no parent faults on a page between reading its word and passing it to duppage, each environment sees what it would see had every private page been copied, while library pages stay shared |
| CowRuns.DisciplinedIffInTime | user/fork.c:114-117 | that condition is exact: every state of a run has the sharing discipline if and only if no such call comes too late |
| CowRuns.TooLateIsReachable | user/fork.c:114-117 | whenever fork is about to read the word of a page that an earlier fork left read-only, the run in which the parent faults on it before the call breaks the discipline |
| CowRuns.DuppageSites | user/fork.c:64-86 | what the two calls of duppage leave in parent and child |
| CowRuns.DuppageSafeIffWordNotStale | user/fork.c:114-117 | both calls of duppage keep the sharing discipline if and only if a page that fork read as read-only still is |
| UserFork.UserBcopy | user/fork.c:5-23 | word loop and byte loop together copy exactly the range, for aligned and unaligned buffers |
| UserFork.Machine.Pgfault | user/fork.c:37-62 | after a fault the page is private and writable and no environment sees a difference; it panics exactly when the page was not read-only |
| UserFork.Machine.Duppage | user/fork.c:64-86 | the child sees a copy of the page, the parent the same as before; the exception stack is skipped |
| UserFork.Machine.Visit | user/fork.c:114-117 | the innermost body copies the page exactly when it is mapped |
| UserFork.Machine.CopyPages | user/fork.c:108-120 | the triple loop, with its skips, visits every page of the parent once |
| UserFork.Machine.Fork | user/fork.c:90-137 | run alone, fork equals the eager fork: private pages copied, library pages shared, a zero exception stack, nothing else changed |
| PipeRing.PositionFacts | user/pipe.c:101-135 | positions kept modulo 2^64 compare, subtract and index like the true ones |
| PipeRing.Pipe.WriterTests | user/pipe.c:129-133 | the writer goes on exactly when the ring is not full; a full ring of a closed pipe makes the call return 0 |
| PipeRing.Pipe.WriterStores | user/pipe.c:134 | the byte is stored where no unread byte is, and is not visible yet |
| PipeRing.Pipe.WriterBumps | user/pipe.c:135-138 | the byte becomes part of the stream; the last one returns the length |
| PipeRing.Pipe.ReaderTests | user/pipe.c:101-113 | the reader returns early exactly when the ring is empty and it has something or the pipe is closed |
| PipeRing.Pipe.ReaderLoads | user/pipe.c:114 | the byte loaded is the next one written |
| PipeRing.Pipe.ReaderBumps | user/pipe.c:115-118 | the byte leaves the ring; the last one returns the length |
| PipeRing.Pipe.ReadThenRingIsWritten | user/pipe.c:95-138 | bytes read, then bytes in the ring, are the bytes written |
| PipeRing.Pipe.BeginWrite | user/pipe.c:127-128 | a call of pipewrite starts with all the bytes it was given, or returns 0 if there are none |
| PipeRing.Pipe.BeginRead | user/pipe.c:101-107 | a call of piperead starts with the length it was given |
| PipeRing.WriterTurn | user/pipe.c:128-138 | one turn of the writer: a call that ends has put its first bytes into the stream, all of them or those before the full ring of a closed pipe, and returns their number or 0 |
| PipeRing.ReaderTurn | user/pipe.c:101-118 | one turn of the reader: a call that ends returns no more than was asked, and nothing only if nothing was asked or the pipe is closed |
| PipeRing.Run | user/pipe.c:95-138 | under every schedule of one reader and one writer, split at test, buffer access and increment: what the calls of piperead returned, then the ring, is what the calls of pipewrite were given, in order, each as far as it got; only a closed pipe cuts a call short; the ring never holds more than 32 |
| PipeClosed.Step | user/fd.c:117-180 | the system calls of close, dup, exit and _pipeisclosed in their order |
| PipeClosed.StepMappings | user/fd.c:117-180 | each call adds and removes the descriptor and ring mappings it names and no others; dup copies the end of its source, fork gives the child what its parent has |
| PipeClosed.ForkCounts | user/fork.c:90-137 | fork adds to the counts of each end and of the ring what the parent has of them |
| PipeClosed.StepCovered | user/fd.c:161-176 | a step keeps a ring mapping beside every descriptor mapping if and only if it is not the descriptor mapping of a dup whose ring page is missing |
| PipeClosed.StepKeepsInv | user/fd.c:144-180 | ... and with it the whole invariant, close and dup being half done only in the safe order |
| PipeClosed.CoveredIffGranted | user/fd.c:161-176 | over a run: every state has a ring mapping beside every descriptor mapping if and only if each dup whose ring mapping the kernel refused has its descriptor mapping refused too, or its source is gone by then |
| PipeClosed.RunKeepsInv | user/pipe.c:69-149 | the whole invariant over every such run |
| PipeClosed.TruncatedAgrees | user/pipe.c:70-75 | the int copy of env_runs agrees with the u64 exactly when nothing was dispatched between and the count still fits an int; from 2^31 dispatches on the retry loop never ends |
| PipeClosed.RingOutnumbersEnds | user/pipe.c:144-149 | in every state of every such run the ring page has at least as many references as both descriptor pages together |
| PipeClosed.ClosedIsTrue | user/pipe.c:69-82 | an environment that is told "closed" has no other end left anywhere |
| PipeClosed.ClosedForGood | user/fd.c:144-180 | an end mapped nowhere never comes back |
| PipeClosed.PipeIsClosedIsSound | user/pipe.c:69-82 | from the creation of the pipe, through any such schedule of closes, dups, forks and exits, "closed" is right and stays right |
| PipeClosed.ClosedIsNoticed | user/pipe.c:77-81 | conversely the comparison says "closed" once the other end is gone and nothing is half done |
| PipeClosed.DupSafeIffRingGranted | user/fd.c:161-176 | dup ignores the result of mapping the ring page: its two mappings together keep the counts meaningful if and only if the first was granted |
| PipeClosed.FalselyClosed | user/fd.c:168-176 | a run of dup with one refused mapping after which the reader is told "closed" while the writer is open |
| ListQueue.InsertHead | include/queue.h:146-151 | head insertion is [e] + s; the modifies clause leaves every other list alone |
| ListQueue.SeekLast | include/queue.h:160-163 | the element's own next field, used as the cursor, ends at the last element and no link of the list has moved; the modifies clause leaves every other list alone |
| ListQueue.InsertTail | include/queue.h:158-170 | tail insertion is s + [e]; the modifies clause leaves every other list alone |
| ListQueue.InsertAfter | include/queue.h:115-122 | insertion behind an element, without the head; the modifies clause leaves every other list alone |
| ListQueue.InsertBefore | include/queue.h:135-140 | insertion before an element, without the head; the modifies clause leaves every other list alone |
| ListQueue.Remove | include/queue.h:179-184 | deletion of exactly that element, without the head; the modifies clause leaves every other list alone |
| EnvKernel.MakeId | kernel/env.c:28-34 | identifiers fit a u32 and their low ten bits are the slot |
| EnvKernel.MakeIdInjective | kernel/env.c:28-34 | two creations get the same identifier exactly in the same slot and a multiple of 2^21 creations apart |
| EnvKernel.DeliveryAnswersReceive | kernel/syscall_all.c:207-257 | each delivery answers one receive of the same slot, with nothing in between, so that no receive is answered twice |
| Scheduler.Switch | kernel/sched.c:14-22 | one round of the loop on the two lists |
| Scheduler.SwitchRotates | kernel/sched.c:14-22 | the two alternating lists behave as one queue: the current goes to the end, the first comes off |
| Scheduler.SwitchesRotate | kernel/sched.c:13-23 | n rounds are a rotation by n |
| Scheduler.YieldIsTheLoop | kernel/sched.c:9-27 | the loop ends if and only if some live environment is runnable with a nonzero priority (or it need not start), and dispatches the first such in queue order |
| Scheduler.WhenYieldFails | kernel/sched.c:16-19 | it panics exactly when there is no environment at all, and spins forever exactly when there are some but none may run |
| Scheduler.YieldKeepsPlaces | kernel/sched.c:9-27 | a call moves environments between places and loses none |
| Scheduler.YieldEffect | kernel/sched.c:22-26 | a dispatched environment is runnable and gets as many slices as its priority; only one env_runs changes |
| Scheduler.YieldKeepsInv | kernel/sched.c:9-27 | a call keeps the environment invariants |
| Scheduler.YieldUsesASlice | kernel/sched.c:13-24 | a call dispatches a given runnable environment or uses one of the slices ahead of it |
| Scheduler.AheadIsBounded | kernel/sched.c:13-24 | the slices ahead are at most the priorities of the others |
| Scheduler.BoundedBypass | kernel/sched.c:9-27 | an environment that stays runnable, with none created meanwhile, is dispatched within (sum of the other priorities) + 1 calls, whatever the others do between calls |
| EnvCalls.Lookup | kernel/env.c:36-59 | envid2env |
| EnvCalls.LookupFinds | kernel/env.c:36-59 | the identifier 0 finds the caller, any other exactly the live environment that carries it; with the permission check exactly oneself and one's children |
| EnvCalls.SysIpcCanSend | kernel/syscall_all.c:217-257 | the call as a function of the kernel state; delivery precedes the page lookup |
| EnvEffects.ChildIsCreated | kernel/syscall_all.c:152-172 | with a free slot the child is not runnable, has its parent's priority, a new identifier, which the caller gets and which finds it unless it is 0, and is last on run list 0; nobody else changes; without one -1 and nothing changes |
| EnvEffects.BootEnvIsCreated | kernel/env.c:174-186 | at boot the new environment is runnable, has no parent and is last on run list 0 |
| EnvEffects.DestroyedIsGone | kernel/env.c:226-239 | the destroyed environment is free, its slot is the next to be given away and it is not current; nobody else changes but for the run count of the one dispatched |
| EnvEffects.StatusIsSet | kernel/syscall_all.c:174-196 | the environment found with the permission check gets the status, nothing else changes; ENV_FREE destroys it; otherwise the state is as it was |
| EnvEffects.ReceiverBlocks | kernel/syscall_all.c:207-215 | the caller is blocked with its address recorded and another, runnable environment is dispatched |
| EnvEffects.MessageArrives | kernel/syscall_all.c:217-257 | who is refused with which value, and what the receiver finds in its mailbox; a page that the sender does not map makes the call return -1 after it has delivered |
| EnvEffects.TickDispatches | kernel/sched.c:9-27 | a runnable environment is dispatched, the current one if it has a slice left; only its run count changes |
| EnvEffects.StepHasEffect | kernel/syscall_all.c:152-257 | every allowed kernel entry has the effect of its event on the environments concerned |
| EnvEffects.RunsHaveEffects | kernel/syscall_all.c:152-257 | ... at every step of every run from a sound state |
| EnvCalls.CreateSound | kernel/env.c:89-111 | creation keeps every environment in one place and gives away only slots that wait for nothing |
| EnvCalls.DestroySound | kernel/env.c:226-239 | self-destruction keeps every environment in one place |
| EnvCalls.SetStatusSound | kernel/syscall_all.c:174-196 | changing a status keeps the invariants when no waiting receiver is woken |
| EnvCalls.RecvSound | kernel/syscall_all.c:207-215 | a receiver is blocked, queued and recorded once |
| EnvCalls.SendSound | kernel/syscall_all.c:217-257 | a send delivers to a waiting receiver only and wakes it |
| EnvCalls.StepKeepsSound | kernel/syscall_all.c:152-257 | every kernel entry keeps each environment in exactly one place, free list and status in step, waiting receivers blocked, messages paired, identifiers true |
| EnvCalls.BootIsSound | kernel/env.c:15-26 | the state after env_init satisfies all of it |
| EnvCalls.RunsStaySound | kernel/env.c:15-239 | ... over every run |
| EnvCalls.MailboxStep | kernel/syscall_all.c:207-245 | a mailbox is written only by a send that its waiting owner receives |
| EnvCalls.MailboxIsStable | kernel/syscall_all.c:207-257 | what was delivered stays until that slot receives again, also when the slot is given to a new environment |
| EnvCalls.DestroyIsForSelf | kernel/env.c:226-239 | env_free does not unlink the run list: destroying keeps every environment in one place if and only if the one destroyed is the current one |
| EnvCalls.WakingIsForNonReceivers | kernel/syscall_all.c:193 | setting an environment runnable keeps waiting receivers blocked if and only if it is not waiting |
| KernelCode.Kernel.constructor | kernel/env.c:15-26 | env_init with its loop: all environments free, in order |
| KernelCode.Kernel.InitLists | kernel/env.c:22-25 | the loop of env_init |
| KernelCode.Kernel.Enlist | kernel/sched.c:15 | tail insertion on one run list, the other list and the free list untouched |
| KernelCode.Kernel.TakeFirst | kernel/sched.c:20-21 | the first element of a run list, removed |
| KernelCode.Kernel.SwitchRound | kernel/sched.c:14-22 | one round on the linked lists is Scheduler.Switch |
| KernelCode.Kernel.SchedYield | kernel/sched.c:9-27 | the loop on the linked lists is Scheduler.Yield: it dispatches, panics or, watched for any number of rounds, is still looping; after more rounds than there are live environments exactly when it loops for ever |
| KernelCode.Kernel.EnvId2Env | kernel/env.c:36-59 | the code is EnvCalls.Lookup |
| KernelCode.Kernel.EnvAlloc | kernel/env.c:89-111 | the first free slot with a new identifier, or failure on an empty list |
| KernelCode.Kernel.EnvCreatePriority | kernel/env.c:174-186 | creation at boot, queued last on list 0 |
| KernelCode.Kernel.SysEnvAlloc | kernel/syscall_all.c:152-172 | the code is EnvCalls.SysEnvAlloc, of which EnvEffects.ChildIsCreated says what the child is |
| KernelCode.Kernel.EnvFree | kernel/env.c:226-227 | the slot goes to the head of the free list |
| KernelCode.Kernel.EnvDestroy | kernel/env.c:231-239 | free, and yield if it was the current one, with all three ways the yield can end |
| KernelCode.Kernel.SysSetEnvStatus | kernel/syscall_all.c:174-196 | new state and return value, for every status and every lookup result |
| KernelCode.Kernel.SysIpcRecv | kernel/syscall_all.c:207-215 | new state, or nothing for an address above KERNBASE, with all three ways the yield can end |
| KernelCode.Kernel.SysIpcCanSend | kernel/syscall_all.c:217-257 | new state and return value in each of the four cases |
| Rpc.Client | user/fsipc.c:22-29 | fsipc as the sequence fill, send until accepted, receive |
| Rpc.Serve | fs/serv.c:275-332 | serve as the sequence receive, check, read, send until accepted, unmap |
| Rpc.SendEffect | user/ipc.c:15-28 | a send is accepted exactly when its live receiver waits, and otherwise changes nothing |
| Rpc.StepKeepsRpc | user/ipc.c:15-44 | every step of every client and of the server keeps the protocol invariant, and ipc_send never panics |
| Rpc.RepliesMatchRequests | user/fsipc.c:22-29 | the i-th answer a client gets is the one the server gave to that client's i-th request, whose code and page it read; every request but perhaps the last has exactly one answer |
| Rpc.StepRecords | user/ipc.c:15-44 | the histories are true: a request is recorded when the client fills its page with it, an answer when it is in its client's mailbox, its arrival when the client returns with what its mailbox holds; the server reads the page mapped at REQVA and answers what its handler gave |
| Rpc.RequestPageIsFixed | fs/serv.c:95-332 | while the server has a request, the page mapped at REQVA is that client's and does not change |
| Rpc.Alternates | user/ipc.c:15-44 | a client that has sent has a runnable server; a server about to receive has only runnable clients |
| Rpc.NeverStops | user/ipc.c:15-44 | with at least one client, no yield of the protocol panics or spins |
| Rpc.ServesWhatIsAnswered | fs/serv.c:281-330 | the server starts to serve exactly the messages that the loop of ServeLoop answers |
| Rpc.AnswerIsReply | fs/serv.c:95-332 | the one answer of the handler, with its verdict widened to a u64, is what the next two steps of the server send, to the client whose request was served |
| ServeLoop.Server.ServeOpen | fs/serv.c:95-139 | exactly one reply on every path, with the first failure or success and the page |
| ServeLoop.Server.ServeMap | fs/serv.c:141-171 | exactly one reply on every path |
| ServeLoop.Server.ServeTwo | fs/serv.c:173-266 | exactly one reply on every path, for serve_set_size and serve_dirty |
| ServeLoop.Server.ServeOne | fs/serv.c:191-245 | exactly one reply on every path, for serve_close, serve_remove and serve_create |
| ServeLoop.Server.ServeRequest | fs/serv.c:281-330 | one reply for a proper request, none without a page or with an unknown code; Rpc.AnswerIsReply ties it to the protocol |
| ServeLoop.Server.Serve | fs/serv.c:275-332 | the replies to a sequence of messages, in order |
| ServeLoop.OneAnswerEach | fs/serv.c:292-328 | if all messages are proper, the replies are one for each, to its sender |
| ServeLoop.AnswerByCode | fs/serv.c:95-328 | the answer by request code: sync succeeds, close, remove and create answer with the failure of their one call, the others with the first failure of their two; only open and map hand over a page, and only on success |
| BlockCache.WithBitAt | fs/fs.c:203-243 | changing one bit of the bitmap changes that bit only |
| BlockCache.WriteCard | fs/fs.c:175-186 | after write_block the eight sectors of the block are its page and all other blocks of the card are as before |
| BlockCache.LoadKeepsContent | fs/fs.c:153-163 | loading a block changes no content |
| BlockCache.WriteKeepsContent | fs/fs.c:175-189 | writing a mapped block changes no content |
| BlockCache.UnmapKeepsContent | fs/fs.c:84-110 | unmapping keeps every content if and only if the block is in use, not mapped, or equal on the card |
| BlockCache.ReadBlockMaps | fs/fs.c:153-163 | afterwards the block is in the cache with its content, and nothing else has changed |
| BlockCache.UnmapBlockUnmaps | fs/fs.c:84-110 | afterwards the block is not in the cache and every other one is as it was; the card has its page if it was in the cache and in use, and is unchanged otherwise |
| BlockCache.MapBlockMaps | fs/fs.c:74-79 | afterwards the block is in the cache, with zeros if it was not before, and nothing else has changed |
| BlockCache.SyncWritesAll | fs/fs.c:841-849 | fs_sync makes the card equal to the content of every block of the disk, leaves the card alone behind them and changes no content |
| BlockCache.CheckRestoresSuper | fs/fs.c:347-373 | block 1 ends as it began, in the cache and on the card; block 0 ends with the content of block 1; all others keep theirs |
| BlockCache.SmashReadsBack | fs/fs.c:357-367 | the comparison inside check_write_block succeeds |
| BlockCache.CheckLosesBlockZero | fs/fs.c:353-354 | block 0 keeps its content if and only if it equalled block 1, and the next fs_sync puts the loss on the card |
| BlockCache.FirstFree | fs/fs.c:238-243 | the lowest free block from a number on |
| BlockCache.SetFreeMarks | fs/fs.c:213-243 | marking one block changes whether that block is free and no other |
| BlockCache.OpRefines | fs/fs.c:74-268 | every operation does to the blocks in use what it does on a plain array of blocks; a new block holds its cached page, or zeros if it had none |
| BlockCache.RunRefines | fs/fs.c:74-268 | ... over every sequence of reads, stores, flushes, unmappings, syncs, allocations and releases |
| BlockCache.OpLeaves | fs/fs.c:74-268 | which blocks every operation leaves in the cache, on the card and free: an allocation takes exactly the lowest free block from 3 on |
| BlockCacheCode.Disk.SdRead | fs/sd_card.c:27-46 | the sector loop gathers the sectors in order and leaves the rest of the page |
| BlockCacheCode.Disk.SdWrite | fs/sd_card.c:62-80 | the sector loop scatters the page and leaves the other sectors |
| BlockCacheCode.Disk.BlockIsFree | fs/fs.c:196-208 | reads the bit of the block in the cached bitmap |
| BlockCacheCode.Disk.ReadBlock | fs/fs.c:127-170 | panics exactly for a block out of range or free; otherwise loads it if it was not mapped, and says so |
| BlockCacheCode.Disk.CheckRange | fs/fs.c:20-28 | diskaddr panics exactly for a block that the super block does not cover |
| BlockCacheCode.Disk.WriteBlock | fs/fs.c:174-189 | panics exactly for a block out of range or unmapped; otherwise the block goes to the card |
| BlockCacheCode.Disk.MapBlock | fs/fs.c:74-79 | panics exactly for a block out of range; otherwise a zero page for an unmapped block |
| BlockCacheCode.Disk.UnmapBlock | fs/fs.c:83-110 | panics exactly for a block out of range; otherwise the code is BlockCache.UnmapBlock, of which UnmapBlockUnmaps says what it leaves |
| BlockCacheCode.Disk.FsSync | fs/fs.c:840-849 | the loop is BlockCache.Sync |
| BlockCacheCode.Disk.AllocBlockNum | fs/fs.c:232-246 | the first free block from 3 on is taken, or none is left |
| BlockCacheCode.Disk.FreeBlock | fs/fs.c:212-224 | marks the block, or panics for block 0 and out of range |
| BlockCacheCode.Disk.CheckWriteBlock | fs/fs.c:346-373 | the sequence of calls, with its own assertions holding |
| Loader.OtherPages | user/spawn.c:155-187 | laying out more of one page leaves the pages before and after it done |
| Loader.FilledPage | user/spawn.c:157-187 | a fresh page with the next bytes of the file at their offset holds the image up to there |
| Loader.Machine.FillPage | user/spawn.c:157-187 | one page, or its rest, is filled from the file; other pages and pages outside the segment stay; the zero that read stores is behind the buffer exactly when the whole page is read |
| Loader.Machine.ZeroRest | user/spawn.c:188-197 | the part behind the file on the last page is zero |
| Loader.WholeStep | user/fd.c:232 | the parts read so far include a whole page exactly when the last one or an earlier one was |
| Loader.Machine.FileBytes | user/spawn.c:157-187 | the first part and the first loop lay out everything that comes from the file |
| Loader.Machine.ZeroPages | user/spawn.c:198-203 | the last loop adds zero pages up to the end of the segment |
| Loader.Machine.LoadElf | user/spawn.c:148-205 | for every alignment and size, success leaves the file bytes at their addresses and zeros in the rest of every page touched; pages that do not overlap the segment never change, also on failure; it fails exactly when one of its calls is refused or the segment reaches above KERNBASE; all loops end; read has stored a zero behind the buffer exactly when a whole page of the segment comes from the file |
| Loader.Machine.LoadSegments | user/spawn.c:258-278 | every page holds the image of the last segment that touches it; it fails exactly when a call is refused or a segment reaches above KERNBASE |
| Loader.LaterSegment | user/spawn.c:157-203 | a later segment keeps an earlier one if and only if their images agree on every page they share |
| ArgStack.WordRoundTrip | user/entry.S:40-46 | a little-endian word reads back as stored |
| ArgStack.Args | user/spawn.c:20-25 | the size check leaves room for the header below the pointer array, and the array ends below the strings |
| ArgStack.LoadsArg | user/spawn.c:46-51 | the i-th relocated pointer leads to the i-th string |
| ArgStack.StackRoundTrip | user/entry.S:40-46 | what user_start and the program read back, count, pointers, strings and the final null pointer, is the original argument vector |
| ArgStack.StoreWord | user/spawn.c:49-58 | a u64 store, byte by byte |
| ArgStack.CopyStrings | user/spawn.c:33-44 | the copying loops put the strings with their zeros at the top of the page |
| ArgStack.StorePointers | user/spawn.c:46-53 | the pointer array, null-terminated, without disturbing the strings |
| ArgStack.StoreHeader | user/spawn.c:55-58 | argv and argc below the array complete the layout |
| ArgStack.FitsIffRoom | user/spawn.c:20-25 | the size check refuses exactly the arguments for whose strings, pointers and header the page has no room; the stack pointer is a multiple of 4, and of 8 exactly when the strings leave no more than half a word unused |
| ArgStack.InitStack | user/spawn.c:9-71 | the return value for every outcome of the check and of the three system calls, a failed allocation being returned as 1; on success the page is laid out and the stack pointer is at argc |
| Lexer.NothingLost | user/sh.c:9-38 | the tokens spell the line without its white space |
| Lexer.LexRender | user/sh.c:9-38 | lexing any sequence of tokens written out gives that sequence back |
| Lexer.Lexer.constructor | user/sh.c:44-47 | the first call reads one token ahead |
| Lexer.Lexer.Scan | user/sh.c:9-38 | the two loops of _gettoken find the next token of the original line and write only zeros, none before their start |
| Lexer.Lexer.Look | user/sh.c:45-51 | the lookahead is the next token, and a delimiter at its start is already overwritten |
| Lexer.Lexer.GetToken | user/sh.c:40-53 | returns the tokens of the original line one by one; a word is NUL-terminated at its true end when returned; at the end the answer is 0 for ever |
| Lexer.LexLine | user/sh.c:60-74 | a whole line gives exactly its tokens, and all words are still in place at the end |
| PrintNum.DigitsAreDigits | lib/print.c:232-242 | every character written is a digit of the base |
| PrintNum.ReadNumber | lib/print.c:232-242 | reading the digits in the base gives the number |
| PrintNum.FormatRoundTrip | lib/print.c:216-284 | reading the output back, spaces and sign aside, gives the number and its sign, for every base from 2 to 16, width, adjustment and padding |
| PrintNum.BackwardReversed | lib/print.c:252-280 | reversing the right part of what was written backwards gives sign, padding and digits in their order |
| PrintNum.Format | lib/print.c:248-262 | the length is the larger of the width and the number with its sign |
| PrintNum.FormatLayout | lib/print.c:248-280 | where the digits, the sign and the padding stand, for either adjustment and for zero padding |
| PrintNum.FormatIsNormal | lib/print.c:232-242 | no leading zero but for the number 0, and letters of the case that was asked for |
| PrintNum.WriteLow | lib/print.c:232-242 | the do-while loop writes the digits, lowest first |
| PrintNum.WriteBackward | lib/print.c:232-262 | digits, sign and padding before the reversal, with the sign behind padding zeros |
| PrintNum.ReverseText | lib/print.c:265-280 | the last loop reverses the number alone or the whole text |
| PrintNum.Print | lib/print.c:216-284 | the buffer holds the format, the length is returned, and nothing behind it is written |

## Left out

- Hardware: caches, TLB and barriers, timers, UART and the EMMC driver; the SD card is an array of sectors whose transfers succeed.
- Pmap.PhysMem.PageAlloc: a 64-bit mask is used where mm/pmap.c:26 and mm/pmap.c:29 write `1 << j`; the mask as written is in AllocMask, with shift counts from 32 on taken modulo 32, as AArch64 does and C leaves open.
- PageTables.Translate: nothing is mapped under the directory slot of the self-map, which programs only read.
- MemSyscalls.Run: addresses are below 2^39 and outside the self-map window (GET_L1_INDEX(UVPT)); a creation that finds page 0 freed or turned into a table is refused, where the code goes on in a broken state; a fault on a valid page without PTE_USER is skipped, for which MemSyscalls.PageOut has the exact condition.
- EnvVm.CreateFirst: the creation is followed up to its first insertion; the later ones in a state that this has broken are not modelled.
- EnvVm.EnvFree: the list and status part of env_free is in KernelCode.Kernel.EnvFree; the two halves are separate models.
- CowFork.Step: IPC page transfers, and unmapping by programs, are not mixed with copy-on-write.
- UserFork.Machine.Fork: the code runs without interruption there, and without the parent's own stores to its stack and the faults these cause; the child's stack page is what the parent has when its duppage is done, as CowRuns.CowSimulatesEagerCopy says. Allocation failures, which are panics, and set_pgfault_handler are not modelled.
- UserFork.Machine.Visit: the PTE_USER test is not modelled, since every page that programs map carries the bit.
- UserFork.Machine.Pgfault: requires that the page is mapped and that allocation succeeds; its other panics are not modelled.
- PipeRing.Run: the answer of the closed test is an input at each step; that no byte is lost at end of file is not claimed, because piperead tests emptiness before closedness.
- PipeClosed.Step: fork, spawn and exit are single steps for the counts of one pipe.
- PipeClosed.PipeIsClosedIsSound: fewer than 2^63 dispatches.
- Creating a pipe step by step (pipe, fd_alloc): runs start from a pipe just created.
- EnvCalls.StepKeepsSound: excludes destroying another environment, waking a waiting receiver by hand, and priorities below 1; the first two have exact conditions. Register frames and address spaces are not part of these states.
- EnvKernel.MakeId: the counter is unbounded; the shift discards its upper bits as the u32 does.
- EnvCalls.LookupFinds: an identifier 0 means the caller, also when it was meant for slot 0 after 2^21 creations.
- Rpc.RepliesMatchRequests: the live environments are the server and clients that only use fsipc with known codes, their buffer page and the reply pages are mapped, and each client has its own; that answers come in bounded time is not claimed.
- Rpc.Client: ipc_send and ipc_recv of user/ipc.c are steps of the protocol state machine, not methods of their own.
- ServeLoop.Server.Serve: the endless loop is run for a finite sequence of messages; the file operations are their results; opentab is not modelled.
- BlockCache.OpRefines: stores and releases name blocks of files; unmapping the super block or a bitmap block, after which the server faults, is excluded; syscall_mem_alloc in read_block and map_block succeeds (read_block does not check it).
- file_block_walk, directories and files, fs/fsformat.c: slots declared u32 are accessed as u64, so the code does not decide their layout.
- Loader.Machine.LoadElf: the file is long enough and filesz is at most memsz (below 2^31); of the zero that read stores behind its buffer it is said when it happens, not what it overwrites.
- ArgStack.InitStack: init_stack_valist is the same code over a va_list and is not repeated; the strings contain no zero byte.
- PrintNum.FormatRoundTrip: padding is a space or a zero, the two that the formatter passes, unless the output is left-adjusted.
- Lexer.LexLine: the parser and everything that runs a command are not modelled.
- load_icode_mapper, the shell's commands, user utilities, console, lp_Print and test programs.
