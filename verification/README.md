# Verified model of Smart-OS

This project models the components of the Smart-OS real-time kernel whose
correctness lies in linked structures, packed bytes or whole-run behaviour, and
proves what their design promises. Each component has a specification (functions on
values), a class or methods with the same fields, loops and in-place updates as the C
code, proved to be those functions, and lemmas over whole runs.

| files | component |
|---|---|
| `Fat12`, `Volume`, `Append`, `FileSystem` | packed 12-bit table entries, first-fit allocation, cluster chains, the append-only writer and the chunked reader over an array of 512-byte sectors |
| `Directory`, `DirectoryOps` | 8.3 names and the root directory with its separate scanning loops |
| `FsRuns`, `FsSession`, `FsTheorems`, `Format`, `FullVolume` | whole runs against a table of named byte strings; round trip, isolation, chains; format and mount; a full device |
| `SchedulerSpec`, `Scheduler`, `SchedulerRuns`, `EdfBound` | the earliest-deadline-first scheduler, its statistics, and the utilisation bound |
| `TimerSpec`, `Timers`, `TimerRuns` | software timers on an intrusive list that is relinked while a tick walks it |
| `MempoolSpec`, `Mempool`, `MempoolRuns` | the memory pool with its free list inside the free blocks and its budget per tick |
| `SyncSpec`, `Sync`, `SyncRuns`, `SyncReplies` | recursive mutex with deadline inheritance, and counting semaphore, over the scheduler's task blocks |
| `WaitLists`, `TaskList` | the `next` pointers that the scheduler's list and all wait lists share, over runs of blocking, posts and hand-overs |
| `SyncScheduled`, `TwoMutexes` | the same runs with the scheduler deciding who calls; two mutexes over the same tasks |
| `SnakeSpec`, `Snake` | the snake game |
| `ShellLine`, `ShellSpec`, `Shell`, `ShellKeys` | line editor, tokenizer, `echo` and `cat` on the file system, and all of them from the keys on |
| `Bytes`, `Arithmetic`, `Links` | bytes and little-endian fields, quotients, linked lists |

`dafny verify dfyconfig.toml` checks everything.

## How to read it

- A class keeps the C structure's fields. Its `View()` is the value the specification
  works on, and each method's `ensures` says that the new view is the specification
  function of the old one. Ghost fields (chains, queues, pool places) name what the
  pointers and table entries mean.
- A run is a sequence of states with one call, tick or key between neighbours. What is
  asked of callers is in the predicates `Allowed` (file system) and `Possible`
  (elsewhere).
- Pointers to a record are references; a block address in the memory pool is a 32-bit
  number, stored little-endian in the block as the C code does.
- Widths are explicit where they matter: `U32` in the scheduler, 16-bit counters in
  the pool, the 32-bit generator in the game, 12-bit table entries.

## Where the code does less than it says

- The comment at core/smart_fs.c:493 says that both table copies are updated; the
  second write goes to the next sector, which is the second copy only if a table has
  one sector (`Fat12.MirrorHarmlessIff`). On larger tables it overwrites entries of
  the first copy, on every formatted device (`Format.MirrorOverwrites`). Properties of
  the file system are stated for volumes whose clusters are all among the 341 entries
  (0 to 340) that lie wholly in the first sector; the shipped 96-sector device has
  clusters 2 to 78.
- The allocator searches up to cluster 0xFEF whatever the volume
  (`Fat12.FirstFitInVolumeIff`; a full device: `FullVolume.AllocateWhenFull`); writers
  are asked for enough room (`HasRoom`).
- Create accepts names of 12 characters, the handle keeps 11
  (`Directory.RememberedNameIff`, `Directory.FullNameForgotten`), and what is appended
  under a name it loses does not show when the file is opened again
  (`FsTheorems.ReopenedSizeIff`).
- Create does not look for the name: `echo` to an existing name makes a second entry
  and appends to whichever comes first (`ShellSpec.EchoThenCatIff`).
- core/smart_core.h promises one-shot tasks for period 0; they never run
  (`SchedulerRuns.OneShotNeverRuns`).
- The repository's README.md:448 says that periodic timers rejoin the list. When several
  timers at the front of the list run out in one tick, those that rejoined are dropped
  again (`TimerSpec.TickKeepsAllIff`, and from the start `TimerRuns.TimerLost`).
  `smart_timer_reset` leaves a running timer on the list (`TimerRuns.ResetKeepsInvIff`),
  and starting it again makes the list a circle (`TimerRuns.ResetThenStart`,
  `Timers.PointsAtItself`, and from the start `TimerRuns.FollowedByItself`).
- The pool accepts a block that is free already (`MempoolSpec.FreeSoundIff`) and then
  hands it out twice (`MempoolRuns.DoubleFree`); pools after the fourth never get their
  budget back (`Mempool.Registry.Register`).
- Wait lists reuse the scheduler's `next` pointer, and nothing puts a task back on the
  scheduler's list. From the first task that blocks on, the scheduler and the tick meet
  the tasks created after the newest that has ever blocked, and that one with the tasks
  that wait behind it (`WaitLists.MetOverRuns`, `SyncRuns.MetFromInit`). Every other task
  that does not wait is lost (`SyncScheduled.NeverRunsAgain`), and so is a mutex whose
  owner is older than a task that blocks on it (`SyncScheduled.NewerBlocksForGood`).
- The repository's README.md:33 promises blocking waits. A task that blocks is made ready,
  with or without the mutex or the semaphore, by the first tick at or after its next
  arrival that meets it (`SyncRuns.NotReadiedIff`, `SyncRuns.SemNotReadiedIff`; runs
  `SyncScheduled.ReadiedWithoutMutex`, `SyncScheduled.ReadiedWithoutPost`), and by none
  if it is not met (`SyncScheduled.LeftBehind`).
- Line 34 promises inheritance. An owner that yields can leave the bound, and its unlock
  then puts back a deadline of an earlier period (`SyncRuns.InheritanceOverRunsIff`,
  `SyncRuns.DeadlineRestored`; run `SyncScheduled.UnlockedTooEarly`). With two mutexes,
  releasing one can lose what the other gave (`TwoMutexes.ReleaseKeepsOtherIff`; run
  `TwoMutexes.InheritanceLost`).
- The game's guard against turning back can be passed with two keys
  (`SnakeSpec.TwoKeysTurnBack`, `SnakeSpec.TwoKeysEndGame`), and food can appear under
  the snake's head (`SnakeSpec.FoodOnSnakeIff`, `SnakeSpec.FoodUnderHead`).

## Model

| member | source | states |
|---|---|---|
| `Fat12.PackReadsBack` | core/smart_fs.c:54-77 | the two bytes written for an entry, odd or even, read back as the 12 bits stored |
| `Fat12.TwoEntriesInThreeBytes` | core/smart_fs.c:54-77 | an even entry and the odd one after it are the 24-bit little-endian number in their three bytes: the even one its low 12 bits, the odd one its high 12 |
| `Fat12.StoreInSector` | core/smart_fs.c:466-491 | storing an entry changes that entry of the sector to the 12 bits and no other, although neighbours share a byte |
| `Fat12.StoreUpdatesOneEntry` | core/smart_fs.c:466-491 | on the whole table, storing entry c is exactly the update of entry c |
| `Fat12.MirrorHarmlessIff` | core/smart_fs.c:466-506 | the second copy goes to the sector after the one written, whatever the table size: entry e is safe from a store to c, on every device and for every value, exactly when e does not lie in that next sector |
| `Format.MirrorOverwrites` | core/smart_fs.c:493-506 | on every formatted device the first allocation stores the end mark of cluster 2 and also turns entry 342 of the same table, which was free, into an end mark |
| `Fat12.ChainAcyclic` | core/smart_fs.c:80-88 | following entries from a first cluster to an end mark never meets a cluster twice |
| `Fat12.ChainUnique` | core/smart_fs.c:80-88 | a first cluster has only one chain |
| `Fat12.ChainFitsTable` | core/smart_fs.c:424-431 | a chain is shorter than the table, so every walk along it ends |
| `Fat12.ChainMarks` | core/smart_fs.c:80-88 | links are below 0xFF8, and the last entry of a chain is 0xFF8 or above; new ends are marked 0xFFF |
| `Fat12.FreeFromExact` | core/smart_fs.c:509-523 | the free list holds exactly the entries that read zero, ascending |
| `Fat12.FreeTake` | core/smart_fs.c:509-523 | taking the least free cluster leaves exactly the rest of the free list |
| `Fat12.FirstFitInVolumeIff` | core/smart_fs.c:509-523 | the allocator, which does not know the volume size, hands out a cluster of the volume exactly when one of the volume's clusters is free |
| `FullVolume.AllocateWhenFull` | core/smart_fs.c:509-523 | format the 96-sector device, create a file, write its 77 clusters full: the next allocation returns cluster 79, whose first sector is the one after the last of the device |
| `FileSystem.BlockRead` | drivers/smart_block.c:81-121 | a sector of the device in the buffer, or an error and the buffer untouched |
| `FileSystem.BlockWrite` | drivers/smart_block.c:124-164 | one sector replaced, or an error and the device untouched |
| `FileSystem.Fs.ReadFatEntry` | core/smart_fs.c:54-77 | the 12-bit entry, or 0xFFF when the sector cannot be read, for every entry that lies in one sector |
| `FileSystem.Fs.GetNextCluster` | core/smart_fs.c:80-88 | the next cluster, or the end mark |
| `FileSystem.Fs.WriteFatEntry` | core/smart_fs.c:466-506 | the device after both sector writes, and exactly what is left when the first or the second fails |
| `FileSystem.Fs.AllocateCluster` | core/smart_fs.c:509-523 | returns the least free cluster and changes nothing but its entry (and the mirror) |
| `FileSystem.Fs.LinkNewCluster` | core/smart_fs.c:610-620 | the new cluster ends the chain and the old last one points at it |
| `FileSystem.Fs.Write` | core/smart_fs.c:526-625 | any buffer: contents become old contents + buffer, the chain grows by the least free clusters to exactly the length the new size calls for, sectors outside the chain and the table are unchanged, all handle fields are given |
| `FileSystem.Fs.Read` | core/smart_fs.c:394-463 | returns exactly the next bytes of the file, as many as are asked for and left, and moves the position by that; the rest of the buffer is untouched |
| `FileSystem.Fs.Walk` | core/smart_fs.c:410-431 | the cluster at a given step of the chain |
| `Volume.SectorsAt` | core/smart_fs.c:433-441 | the n-th sector of a file is the one the code computes from n / sectors-per-cluster and n % sectors-per-cluster |
| `Volume.ClusterPlaces` | core/smart_fs.c:433-441 | cluster 2 starts the data region; clusters and their sectors follow one another |
| `Volume.SectorsDistinct` | core/smart_fs.c:552-603 | a chain without repetition has no sector twice |
| `Volume.SectorsDisjoint` | core/smart_fs.c:579-603 | chains without a common cluster share no sector |
| `Volume.AppendInSector` | core/smart_fs.c:579-603 | overlaying a chunk at the end of the file inside one sector appends it to the file's bytes |
| `Volume.ChainLengthBounds` | core/smart_fs.c:552-570 | a file's chain has between ceil(size / cluster) and size / cluster + 1 clusters, all different, all in the volume |
| `Directory.RememberedNameIff` | core/smart_fs.c:366-391 | the handle keeps 11 characters: a longest valid name of 12 is still the same stored name exactly under a condition on where its dot is |
| `Directory.FullNameForgotten` | core/smart_fs.c:366-391 | ABCDEFGH.TXT, a name with all eight and all three characters, is not remembered |
| `FsTheorems.ReopenedSizeIff` | core/smart_fs.c:366-391 | open, append n bytes, close: the file is found under its name as before, and shows its new size exactly if the handle remembers the stored name or n is zero; otherwise its entry is untouched |
| `Directory.SameName` | core/smart_fs.c:91-134 | two names are the same stored name exactly if their upper-cased, padded stems and extensions agree |
| `Directory.CaseIgnored` | core/smart_fs.c:91-134 | names that differ only in the case of ASCII letters have the same stored name |
| `Directory.NoSmallLetters` | core/smart_fs.c:91-134 | no byte 97 to 122 occurs in a stored name |
| `Directory.StoredCharacters` | core/smart_fs.c:91-134 | bytes outside 97 to 122 are stored as themselves: those before the first dot from place 0 on, those after it from place 8 on, spaces elsewhere |
| `Directory.CreatedIsFound` | core/smart_fs.c:756-851 | after a create of a name the lookup of that name, in letters of either case, finds a live entry |
| `Directory.EntryBytes` | core/smart_fs.c:366-391 | where name, cluster and size lie in the 32 bytes of an entry, low byte first; the mark 0xE5 and what it leaves |
| `Directory.NewEntryBytes` | core/smart_fs.c:826-837 | a new entry: the name, attribute 0x20, and zeros |
| `Directory.ScansAgree` | core/smart_fs.c:137-177 | on a directory without used slots after the first zero slot, the scan that stops there and the one that does not find the same slot, the first live match |
| `Directory.DirOkKept` | core/smart_fs.c:771-847 | rewriting a live slot, or the first free one, keeps that property |
| `Directory.PutSlotOne` | core/smart_fs.c:771-847 | rewriting one 32-byte slot in its sector changes that directory entry and no other |
| `DirectoryOps.FilenameTo83` | core/smart_fs.c:91-134 | the conversion loops yield the padded stored name |
| `DirectoryOps.SplitName` | core/smart_fs.c:771-803 | the separate splitting in create and delete yields the two fields of that same stored name |
| `DirectoryOps.FindFileInRoot` | core/smart_fs.c:137-177 | the first live slot with the stored name, or not found |
| `DirectoryOps.UpdateFileInfo` | core/smart_fs.c:628-675 | first cluster and size of the first matching slot replaced, nothing else on the device changed; or not found and nothing changed |
| `DirectoryOps.Create` | core/smart_fs.c:756-851 | the first reusable slot gets a fresh entry, and nothing else changes; invalid names and a full directory change nothing |
| `DirectoryOps.Delete` | core/smart_fs.c:854-960 | the first matching slot is marked deleted, and nothing else changes |
| `DirectoryOps.Open` | core/smart_fs.c:366-391 | the handle gets the entry's first cluster and size, position 0 and the remembered name |
| `DirectoryOps.OpenedShows` | core/smart_fs.c:366-391 | position 0, the size and cluster of the entry, and a directory exactly if bit 4 of the attributes is set |
| `DirectoryOps.Close` | core/smart_fs.c:678-687 | the handle's first cluster and size go into the entry found under its remembered name |
| `FsRuns.CreateRefines` | core/smart_fs.c:756-851 | create keeps the volume invariant and is create on the simple table of named byte strings |
| `FsRuns.OpenRefines` | core/smart_fs.c:366-391 | open keeps it and is open |
| `FsRuns.WriteRefines` | core/smart_fs.c:526-625 | write keeps it and appends to that one file |
| `FsRuns.ReadRefines` | core/smart_fs.c:394-463 | read keeps it and returns the slice at the position |
| `FsRuns.UpdateRefines` | core/smart_fs.c:628-675 | recording a handle changes no file's contents |
| `FsRuns.CloseRefines` | core/smart_fs.c:678-687 | close changes no file's contents and drops the handle |
| `FsRuns.DeleteRefines` | core/smart_fs.c:854-960 | delete removes exactly that file |
| `FsRuns.RunRefines` | core/smart_fs.c:366-960 | every run of create, open, write, read, update, close and delete keeps the invariant and returns, call by call, what the simple file system returns |
| `FsSession.Session.Create` | core/smart_fs.c:756-851 | the driver's create is a step of the run model |
| `FsSession.Session.Open` | core/smart_fs.c:366-391 | so is open |
| `FsSession.Session.Write` | core/smart_fs.c:526-625 | so is write, for any buffer |
| `FsSession.Session.Read` | core/smart_fs.c:394-463 | so is read, for any size |
| `FsSession.Session.Update` | core/smart_fs.c:628-675 | so is the explicit update of the entry |
| `FsSession.Session.Close` | core/smart_fs.c:678-687 | so is close |
| `FsSession.Session.Delete` | core/smart_fs.c:854-960 | so is delete |
| `FsTheorems.WriteReadRoundTrip` | core/smart_fs.c:394-687 | open, write in any chunks, close, reopen, read in any chunks: the bytes read are the old contents followed by all bytes written, as far as asked for, and every other file is as before |
| `FsTheorems.ReadAfterWrite` | core/smart_fs.c:394-625 | after open and writes, a read without closing starts as many bytes into the file as were written, and returns what is left from there, as far as asked for |
| `FsTheorems.CreateAnswers` | core/smart_fs.c:756-851 | create answers OK exactly for a name of one to twelve bytes with some slot free, INVALID exactly for another length, and fills the first free slot with an empty file |
| `FsTheorems.OpenDeleteAnswer` | core/smart_fs.c:366-960 | open and delete answer OK exactly if a file has the name, else NOT FOUND; delete takes away the first such file and only that |
| `FsTheorems.Isolation` | core/smart_fs.c:478-960 | calls on other files leave a file's name, size and every byte as they are, over whole runs |
| `FsTheorems.ChainsOverRuns` | core/smart_fs.c:466-620 | in every state of every run each file's chain is acyclic, ends in an end mark, is disjoint from every other and has a length within the bounds for its size |
| `FsTheorems.FreeOverRuns` | core/smart_fs.c:509-523 | over any stretch of a run, deletes included, the free list only loses clusters from its front |
| `FsTheorems.NeverTakenTwice` | core/smart_fs.c:509-523 | clusters allocated at two different steps of a run are all different, whatever is deleted in between |
| `Format.BootSectorDecodes` | core/smart_fs.c:180-227 | for every sector count, initialisation decodes from the boot sector the layout that format encoded |
| `Format.LayoutFromBytes` | core/smart_fs.c:180-227 | the layout of any boot sector in its bytes: tables after the reserved sectors, root after all tables, data after the fewest sectors that hold all root entries |
| `Format.BootSectorNamesSize` | core/smart_fs.c:246-285 | the sector count is in the 16-bit or in the 32-bit field, the other being zero; media byte and signature |
| `Format.TableCoversVolume` | core/smart_fs.c:246-285 | the table sectors hold 1.5 bytes for every data cluster and the two reserved ones, and the regions fit the device |
| `Format.FormatSucceedsIff` | core/smart_fs.c:246-341 | all region writes stay on the device exactly from 19 sectors on |
| `Format.Format` | core/smart_fs.c:230-363 | the formatted device: boot sector, first table with its header, second table without, empty root, data untouched; or exactly when it fails |
| `Format.Init` | core/smart_fs.c:180-227 | the layout globals for every device; every error return, which leaves the layout as it was |
| `Format.LastClusterFits` | core/smart_fs.c:212-224 | the decoded layout has at least one whole cluster on the device exactly when data start plus a cluster does not exceed the sector count |
| `Format.FreshVolume` | core/smart_fs.c:296-341 | after format every entry of the first table, however many sectors it has, is free (but the two reserved and those that straddle two sectors), every root slot is unused and the volume invariant holds with no file |
| `Format.FormatThenInit` | core/smart_fs.c:180-363 | formatting a device of 20 or more sectors and mounting it succeeds and gives an empty sound volume |
| `SchedulerSpec.PickIsEarliest` | core/smart_core.c:260-301 | the scan picks a task exactly if it is the first ready task in list order with the least deadline below 0xFFFFFFFF, or idle when there is none |
| `Scheduler.Kernel.CreateTask` | core/smart_core.c:206-257 | the new task at the head of the list, with the times and zeroed statistics given |
| `Scheduler.Kernel.FindBest` | core/smart_core.c:260-301 | the loop over the linked list returns that task |
| `Scheduler.FindOnList` | core/smart_core.c:261-286 | the loop itself, along any list of task blocks: the best ready task of that list, or idle |
| `Scheduler.Kernel.SmartSchedule` | core/smart_core.c:260-349 | the whole kernel state after a decision, statistics included |
| `Scheduler.Kernel.TaskYield` | core/smart_core.c:352-372 | the whole kernel state after a yield |
| `Scheduler.Kernel.SmartDelay` | core/smart_core.c:385-406 | the whole kernel state after a delay |
| `Scheduler.Kernel.SysTick` | core/smart_core.c:428-488 | the whole kernel state after a tick: every due task woken, and a decision only if one was |
| `Scheduler.WakeOnList` | core/smart_core.c:457-482 | the loop of the tick, along any list of task blocks: it wakes the tasks of that list that are due, and no others |
| `Scheduler.Kernel.Start` | core/smart_core.c:491-550 | the state when the system starts |
| `SchedulerRuns.SchedulerOverRuns` | core/smart_core.c:237-487 | in every run of create, start, tick, yield and delay: the next task is the earliest-deadline one; after k yields arrival = creation + k * period and deadline = arrival + relative deadline; no average exceeds the maximum; after a tick nobody waits or sleeps past his time |
| `SchedulerRuns.TaskAsAsked` | core/smart_core.c:206-372 | over runs from boot, a task has the period its create call named; its first arrival is the tick of that call, its deadline the relative one later, and each yield moves both on by the period |
| `SchedulerRuns.DelayLasts` | core/smart_core.c:385-482 | over runs from boot: a task that calls delay(n) at tick s is not ready and does not run before tick s + n, and is ready after the tick that makes the time s + n |
| `SchedulerRuns.YieldLasts` | core/smart_core.c:352-482 | a task that yields is not ready and does not run until its next arrival, a whole number of periods after its creation, and is ready after the first tick from then on |
| `SchedulerRuns.StatsOverRuns` | core/smart_core.c:303-345 | in every state from boot the statistics of every task are what an observer of the running task sees: the last and the longest stretch, the moving average with weight one eighth, switches and misses |
| `SchedulerRuns.OneShotNeverRuns` | core/smart_core.c:234-241 | in no run from boot is a task without a period ever running, but for the idle task: its deadline is the one the scan takes for none |
| `SchedulerRuns.EmaStep` | core/smart_core.c:306-326 | under a constant sample the average stands still exactly within seven below the sample (or at zero), falls strictly from above and rises strictly from below, never past it |
| `SchedulerRuns.EmaConverges` | core/smart_core.c:306-326 | after as many samples as the distance measure says, it is within seven below the sample for good, and equal to it if it came from above |
| `EdfBound.EveryDeadlineMet` | DESIGN.md:15-18 | if the utilisations of all periodic tasks (deadline = period) add up to at most one, every job has yielded before the tick of its deadline, in every run of execution, yields and ticks |
| `EdfBound.EventKeepsFeasible` | core/smart_core.c:260-487 | no event makes the demand up to any date exceed the time left until it |
| `EdfBound.NeverStuck` | core/smart_core.c:260-487 | the runs of that theorem cannot get stuck: some event is always possible |
| `TimerSpec.WalkExact` | core/smart_timer.c:295-366 | what the tick's walk leaves on the list, for every list: all that stays active, except that of the leading run of expiring timers only the last, if periodic, survives |
| `TimerSpec.TickKeepsAllIff` | core/smart_timer.c:314-351 | a tick keeps every timer that should stay active exactly when no periodic timer of the leading expiring run is followed by another expiring timer of it |
| `TimerRuns.TimerLost` | core/smart_timer.c:49-369 | from the start, creating and starting two periodic timers of period one leads to a tick that fires both and loses the one started last: running, counted as active, off the list |
| `Timers.TimerService.constructor` | core/smart_timer.c:30-46 | sixteen free entries, an empty list and zero counters |
| `Timers.TimerService.Create` | core/smart_timer.c:49-124 | the first free pool entry configured, a new id, the count; or no change |
| `Timers.TimerService.Start` | core/smart_timer.c:127-155 | the timer restarted at the head of the list; no change if it runs already or is free |
| `Timers.TimerService.Stop` | core/smart_timer.c:158-198 | the timer found and unlinked wherever it is in the list |
| `Timers.TimerService.Delete` | core/smart_timer.c:217-231 | stopped, unlinked, its entry cleared and the count decreased |
| `Timers.TimerService.SetPeriod` | core/smart_timer.c:234-250 | the period replaced; the remaining time only if stopped |
| `Timers.TimerService.Reset` | core/smart_timer.c:201-214 | state and remaining time of any timer, running or not; the structure stays sound exactly if the timer was not on the list |
| `Timers.TimerService.Tick` | core/smart_timer.c:286-369 | the in-place walk over the linked list, with every relinking, leaves exactly the specified list, records and counters, also when it loses timers |
| `TimerRuns.StructureOverRuns` | core/smart_timer.c:49-369 | in every run of create, start, stop, delete, set-period and tick: the list is free of duplicates and holds exactly the running timers, its length is the active count, live ids differ, and the total is the number of entries in use |
| `TimerRuns.TickFires` | core/smart_timer.c:298-350 | a tick fires exactly the running timers whose absolute due time it is, each once |
| `TimerRuns.FiresOnSchedule` | core/smart_timer.c:127-369 | a timer of period p started at tick s fires exactly at s + p if one-shot and at s + k * p for every k if periodic, while no call names it, whatever happens to other timers |
| `TimerRuns.StructureFromBoot` | core/smart_timer.c:30-369 | the same structure in every state of every run from the cleared pool on |
| `TimerRuns.FiresFromBoot` | core/smart_timer.c:30-369 | the same firing times for a timer that is started at any step of a run from the cleared pool on |
| `TimerRuns.CreateTakes` | core/smart_timer.c:49-124 | over runs from the cleared pool: a create call takes an entry exactly if it names a callback and a period and one is free, and then one only |
| `TimerRuns.EntryAsAsked` | core/smart_timer.c:49-250 | until it is deleted, a timer has the kind its create call named and the period last asked for |
| `TimerRuns.FiresAsAsked` | core/smart_timer.c:49-369 | a timer created at some step and started at tick s fires exactly at s + p if the create call said one-shot, and at s + k * p if it said periodic, with p the period last asked for by create or set-period, while no call names it |
| `TimerRuns.QuietUntilStarted` | core/smart_timer.c:158-231 | a stopped or deleted timer does not fire until it is started |
| `TimerRuns.DeletedIsFree` | core/smart_timer.c:217-231 | a deleted timer's entry is free |
| `TimerRuns.CountersFromBoot` | core/smart_timer.c:298-366 | the counters of expiries and callbacks are the number of firings so far |
| `TimerRuns.ResetKeepsInvIff` | core/smart_timer.c:201-214 | resetting keeps the structure exactly for timers that are not running: the code does not unlink |
| `TimerRuns.ResetThenStart` | core/smart_timer.c:127-214 | a timer reset while running and started again is on the list twice; if it headed the list, it is followed by itself |
| `Timers.PointsAtItself` | core/smart_timer.c:127-155 | in pointers: the block then points at itself, and no list that ends is linked from it |
| `TimerRuns.FollowedByItself` | core/smart_timer.c:49-214 | the run that shows it, from the cleared pool: create, start, reset, start |
| `MempoolSpec.AlignUpExact` | core/smart_mempool.c:12-15 | the stride is the least multiple of four that fits the block, exactly unless the 32-bit addition wraps |
| `MempoolSpec.AddressValidIff` | core/smart_mempool.c:27-35 | the address check accepts exactly the starts of the pool's blocks |
| `MempoolSpec.AllocTakesFirst` | core/smart_mempool.c:73-108 | hands out the first free block and keeps the in-block list sound; refused exactly for an empty budget or an empty list |
| `MempoolSpec.FreePutsFirst` | core/smart_mempool.c:110-140 | a block given back becomes the head of a sound list |
| `MempoolSpec.FreeSoundIff` | core/smart_mempool.c:121-136 | giving back a block leaves a sound free list exactly if the block was not on it already; given back twice, the pointers run in a circle |
| `MempoolRuns.DoubleFree` | core/smart_mempool.c:37-140 | from every freshly initialised pool with a budget of five: allocate a block, give it back twice, both accepted, and the next two allocations hand out that same block |
| `MempoolRuns.FreeCountIff` | core/smart_mempool.c:53-133 | over any run from initialisation the 16-bit counter is the number of free blocks exactly if the pool has fewer than 65536 blocks |
| `Mempool.MemPool.Init` | core/smart_mempool.c:37-71 | every field, the list threaded through all blocks in order, and the registration, for every block size and count that fit |
| `Mempool.MemPool.AllocTry` | core/smart_mempool.c:73-108 | the whole pool state, buffer included, after an allocation attempt |
| `Mempool.MemPool.FreeTry` | core/smart_mempool.c:110-140 | the whole pool state after an attempt to give back any address, and that the pool becomes unsound exactly when a free block is given back |
| `Mempool.MemPool.AddressOk` | core/smart_mempool.c:27-35 | the three tests are the specified check |
| `Mempool.MemPool.WriteBlock` | core/smart_mempool.c:73-108 | a client's bytes in its own block leave the pool sound |
| `Mempool.Registry.Register` | core/smart_mempool.c:17-25 | the fifth pool and later ones are not registered |
| `Mempool.Registry.TickAll` | core/smart_mempool.c:142-150 | every registered pool gets its budget back; nothing else changes |
| `MempoolRuns.HeapOverRuns` | core/smart_mempool.c:60-140 | in every run of allocations, returns of blocks in use, foreign addresses, ticks and client writes the in-block free list is acyclic, in the pool, ends in null and is counted |
| `MempoolRuns.NoDoubleHandout` | core/smart_mempool.c:92-136 | between two times a block is handed out it has been given back |
| `MempoolRuns.HeldOverRuns` | core/smart_mempool.c:92-136 | a block in use stays in use until given back, and its bytes stay until its owner writes |
| `MempoolRuns.Partition` | core/smart_mempool.c:60-136 | free blocks and blocks in use make up the pool |
| `MempoolRuns.FreeThenAlloc` | core/smart_mempool.c:92-136 | allocating after giving back returns the same block and restores head, counter and list |
| `MempoolRuns.BudgetBetweenTicks` | core/smart_mempool.c:84-134 | budget left + successful operations = budget at the start, so between ticks at most the budget succeeds |
| `MempoolRuns.LowWater` | core/smart_mempool.c:97-100 | the low-water mark is the least number of free blocks over the whole run so far |
| `MempoolRuns.FreeAnswers` | core/smart_mempool.c:110-140 | giving back answers INVALID exactly for what is not the start of a block, BUSY exactly without budget, and changes nothing then |
| `MempoolRuns.AllocAnswers` | core/smart_mempool.c:73-108 | allocating call after call from a fresh pool hands out the blocks in order of address until the budget (BUSY) or the pool (EMPTY) is used up |
| `SyncSpec.BestIsEarliestLeast` | core/smart_sync.c:360-375 | the scan of the wait list finds the least deadline, the earliest queued on ties |
| `SyncRuns.NotReadiedIff` | core/smart_sync.c:187-253 | over runs with ticks, yields and hand-overs: a task that blocks is left waiting until it is handed the mutex exactly if it has a period and every tick that meets it comes before its arrival + period; otherwise it is ready while another task owns the mutex, and its call has returned success |
| `SyncRuns.MetFromInit` | core/smart_sync.c:187-410 | what the scheduler and the tick meet in every state of every run, blocking and hand-overs included: the tasks created after the newest that has ever blocked, then that one and the tasks that wait behind it; a waiting task is met exactly if the newest to have blocked waits no further back than it |
| `SyncScheduled.ReadiedWithoutMutex` | core/smart_core.c:457-487 | the run that shows the one case, from initialisation, with the scheduler deciding who calls: task 1 of period 1 blocks, the next tick makes it ready, and it runs on while task 2 owns the mutex |
| `SyncScheduled.LeftBehind` | core/smart_sync.c:231-245 | the run that shows the other: a newer task blocks behind task 1, the tick at which task 1 is due does not meet it, and it stays waiting |
| `SyncScheduled.NeverRunsAgain` | core/smart_core.c:260-288 | a task that neither runs nor waits, and is older than some task that has blocked, never runs again in any run, whatever it holds; so does one that has been handed the mutex after a newer task has blocked |
| `SyncScheduled.NewerBlocksForGood` | core/smart_sync.c:187-253 | when a task blocks on a mutex held by an older one, the owner never runs again and the mutex is never released |
| `SyncRuns.SemNotReadiedIff` | core/smart_sync.c:23-71 | the same condition for a task that blocks on a semaphore |
| `SyncRuns.SemMetFromInit` | core/smart_sync.c:23-155 | and the same account of what the walk meets, posts included |
| `SyncScheduled.ReadiedWithoutPost` | core/smart_core.c:457-487 | the run that shows the first case: a task of period 1 is picked and waits, and the next tick makes it ready although nothing was posted |
| `Sync.Enqueue` | core/smart_sync.c:231-245 | the task at the end of the linked wait list, and every pointer as it is left |
| `Sync.Mutex.Lock` | core/smart_sync.c:187-253 | the whole state of mutex and tasks, pointers included, with recursion, inheritance, queueing and the yield; error without a current task |
| `Sync.Mutex.TryLock` | core/smart_sync.c:283-320 | the whole state, and a timeout that changes nothing |
| `Sync.Mutex.Unlock` | core/smart_sync.c:322-410 | the whole state, pointers included, with the restored deadline and the hand-over out of the middle of the list |
| `Sync.Semaphore.constructor` | core/smart_sync.c:7-21 | the count clamped to the maximum |
| `Sync.Semaphore.Wait` | core/smart_sync.c:23-71 | the count taken, or the task at the end of the queue and paused, and the pointers |
| `Sync.Semaphore.TryWait` | core/smart_sync.c:101-119 | the count taken, or a timeout and no change |
| `Sync.Semaphore.Post` | core/smart_sync.c:121-155 | the first waiting task readied and unlinked, or the count raised up to the maximum |
| `SyncRuns.MutexOverRuns` | core/smart_sync.c:187-410 | in every run of lock, try-lock, unlock, yields, ticks and other changes by any tasks: locked exactly if there is an owner, with count at least one; no queue when unlocked; nobody queued twice, and never the owner |
| `SyncRuns.InheritanceOverRunsIff` | core/smart_sync.c:222-226 | in every state of a run the owner's deadline is no later than its own original and every waiting task's, exactly if the owner never yields to a deadline beyond these |
| `SyncRuns.MutexFromInit` | core/smart_sync.c:168-410 | both in every run from initialisation on, whatever the tasks are |
| `SyncRuns.FinalUnlock` | core/smart_sync.c:354-410 | the last unlock gives the old deadline back and the mutex to the waiting task with the least deadline (earliest on ties), the others keep their order, all other tasks are untouched |
| `SyncReplies.TryLockAnswers` | core/smart_sync.c:283-320 | in every state of every run from initialisation: OK exactly if the caller then owns the mutex, nested once more than before; TIMEOUT exactly if another task owned it, with nothing changed |
| `SyncReplies.LockAnswers` | core/smart_sync.c:187-253 | lock answers OK in every such state; the caller then owns the mutex, nested once more, exactly if no other task did, and otherwise waits last, the owner keeping mutex and depth and having the lesser of its own and the caller's deadline |
| `SyncReplies.UnlockAnswers` | core/smart_sync.c:322-410 | ERROR exactly if the caller did not own the mutex, with nothing changed; otherwise OK, nested once less, down to not owning it |
| `SyncRuns.WaitsUntilOwner` | core/smart_sync.c:228-245 | a waiting task leaves the queue only by becoming the owner |
| `SyncRuns.OwnedOverRuns` | core/smart_sync.c:203-220 | while a task owns the mutex the count is its nesting depth, the saved deadline does not change, its arrival moves on by a period with each yield and its deadline by no more |
| `SyncRuns.DeadlineRestored` | core/smart_sync.c:187-355 | a task that takes a free mutex and unlocks as often as it locks has its old deadline back, however many tasks blocked and however often it yielded in between; the deadline keeps its distance from the arrival exactly if it did not yield or has no period |
| `SyncScheduled.UnlockedTooEarly` | core/smart_sync.c:354-355 | the run that shows the other case, from initialisation: lock, yield, the tick that wakes the owner, unlock, and the deadline is no later than the arrival |
| `TwoMutexes.ReleaseKeepsOtherIff` | core/smart_sync.c:203-226 | over runs with two mutexes: a task takes b, then a, and releases a; its deadline is then the one it had when it took a, and this is no later than every deadline that the waiting tasks of b brought exactly if that was so when it took a and no task has called the lock of b with an earlier deadline since |
| `TwoMutexes.InheritanceLost` | core/smart_sync.c:354-355 | the run that loses it, from initialisation, with the scheduler deciding who calls: take b, take a, an older task wakes and blocks on b with deadline 2, release a, and the owner is back at deadline 10 |
| `WaitLists.MetOverRuns` | core/smart_sync.c:23-410 | with any number of mutexes and semaphores: what the walk over the shared pointers meets in every state of every run of blocking, posts and hand-overs in any order, exactly and in order |
| `TaskList.WalkIsListed` | core/smart_core.c:260-288 | the loops of the scheduler and the tick go along exactly the task blocks of that walk |
| `TaskList.ListAfterBlocking` | core/smart_sync.c:47-62 | after any tasks of the created list have blocked on one object, in any order, the walk is exactly: the tasks created after the newest blocked one, that one, and those that blocked after it |
| `TaskList.BlockedMetIff` | core/smart_sync.c:47-62 | a blocked task is still met exactly if it blocked no earlier than the newest of them |
| `TaskList.AllMetIff` | core/smart_sync.c:47-62 | the scheduler still meets every task exactly if the blocked tasks are the first of them to block and all tasks created before it |
| `TaskList.CutAndRestored` | core/smart_sync.c:47-62 | three tasks: when the middle one blocks the walk ends at it, and when the first one blocks too it meets all tasks again |
| `SyncRuns.SemaphoreOverRuns` | core/smart_sync.c:23-155 | in every run, ticks included: initial count + posts = grants + count + posts dropped at the maximum, count at most the maximum, nobody is queued while the count is positive, and tasks are woken in the order in which they blocked |
| `SyncReplies.PostReadies` | core/smart_sync.c:121-155 | in every run, a post readies the task that has waited longest and no other; if nobody waits it adds one, up to the maximum |
| `SyncReplies.WaitTakesOrJoins` | core/smart_sync.c:23-119 | a wait or try-wait takes one from a positive count; at zero a try-wait changes nothing and a wait queues its task last, paused until its next arrival if it has a period |
| `SnakeSpec.SpawnIsFirstOff` | user/snake_game.c:24-47 | the food is draw number k of the generator, for the least k below 99 whose cell is off the body, or 99 |
| `SnakeSpec.UpdateMoves` | user/snake_game.c:99-168 | an update ends the game exactly on wall or body, and otherwise puts the head in front and drops the tail unless food was eaten; the score and winning exactly as stated |
| `SnakeSpec.KeyMovesHead` | user/snake_game.c:99-300 | in a running game, after W, S, A or D (either case) not facing the opposite way, an update that does not end the game puts the head at (x, y - 1), (x, y + 1), (x - 1, y) or (x + 1, y), and the neck where the head was; longer by one exactly if food was there |
| `SnakeSpec.KeyEndsGame` | user/snake_game.c:99-300 | and the game is over at that update exactly if that cell is off the board or on the snake |
| `SnakeSpec.KeyIgnored` | user/snake_game.c:269-300 | a key that points back, or is none of these nor P, changes nothing in a running game |
| `SnakeSpec.FirstMoves` | user/snake_game.c:50-168 | every game starts at (10, 5); the first update goes to (11, 5), after W to (10, 4), after s to (10, 6) |
| `SnakeSpec.FirstFood` | user/snake_game.c:24-70 | the first food is the first of a hundred attempts, from the tick as seed, that misses the snake |
| `SnakeSpec.PausedStands` | user/snake_game.c:261-320 | a paused game stands still and takes no key but P, which resumes it |
| `SnakeSpec.EndedStays` | user/snake_game.c:261-320 | a game that has ended stays so, until R starts a new one |
| `SnakeSpec.SnakeOverRuns` | user/snake_game.c:50-320 | in every state of every game: distinct cells of the 20x10 board, consecutive ones adjacent, 3 <= length, score = 10 * (length - 3), and won exactly at length 200 |
| `SnakeSpec.NeckIff` | user/snake_game.c:107-134 | the snake runs into its neck exactly when its direction is opposite to its last move |
| `SnakeSpec.NoNeckAfterOneKey` | user/snake_game.c:269-300 | after a move and at most one key the next step is not onto the neck |
| `SnakeSpec.TwoKeysTurnBack` | user/snake_game.c:269-300 | two keys between updates can turn any direction into its opposite: the guard looks at the direction chosen last |
| `SnakeSpec.TwoKeysEndGame` | user/snake_game.c:50-300 | every game that begins with W and A before the first update ends with it: the snake runs into its neck |
| `SnakeSpec.FoodOnSnakeIff` | user/snake_game.c:137-150 | new food lies on the snake exactly when, for the least k below 99 whose draw is off the old body and the unused cell behind it (or 99), draw number k is the food just eaten or hits the old body |
| `SnakeSpec.FoodUnderHead` | user/snake_game.c:50-168 | the game started at tick 23963 eats in its first update, and the new food is under the head |
| `Snake.SnakeGame.SpawnFood` | user/snake_game.c:24-47 | the loop of attempts is that search, from the seed as it was |
| `Snake.SnakeGame.Init` | user/snake_game.c:50-70 | the whole initial state |
| `Snake.SnakeGame.Shift` | user/snake_game.c:160-167 | the in-place shift from the tail is: head in front, every cell one place on |
| `Snake.SnakeGame.Update` | user/snake_game.c:99-168 | the whole state after an update |
| `Snake.SnakeGame.Input` | user/snake_game.c:261-320 | the whole state after a key, restart included |
| `ShellLine.WordsExact` | core/smart_shell.c:1555-1574 | the scan finds all maximal non-blank runs of a line, in order, and nothing else |
| `ShellLine.WordsUnique` | core/smart_shell.c:1555-1574 | there is only one such list |
| `ShellLine.Tokenizer.Parse` | core/smart_shell.c:1543-1577 | the tokenizer yields exactly the first 16 words of the line's first 127 characters: the copy, with terminators stored in place, read at argv[i] is word i |
| `ShellLine.LineEditor.ProcessInput` | core/smart_shell.c:1600-1644 | the edited line after a key, and what is executed on enter |
| `ShellLine.LineFits` | core/smart_shell.c:1630-1641 | the line is printable and fits its buffer after any keys |
| `ShellLine.TypeThenErase` | core/smart_shell.c:1624-1641 | text that fits is kept as typed, and as many erasures restore the line |
| `ShellLine.FullLineIsLost` | core/smart_shell.c:1630-1641 | 127 characters are kept as typed; the next one empties the line |
| `ShellLine.OtherKeysIgnored` | core/smart_shell.c:1600-1644 | other control characters, and what is not ASCII, change nothing |
| `Shell.RoomLeft` | core/smart_fs.c:526-625 | after a write of part of a text, what is free has room for the rest |
| `Shell.Commands.CmdCat` | core/smart_shell.c:333-367 | `cat`, reading 127-byte chunks, prints the file that is found and changes no file |
| `Shell.Commands.CmdEcho` | core/smart_shell.c:369-420 | `echo`, writing word by word, has exactly the specified effect on the files, in every branch |
| `ShellSpec.CatShowsAllIff` | core/smart_shell.c:351-362 | what `cat` prints is the whole file exactly if it has no zero byte |
| `ShellSpec.EchoThenCat` | core/smart_shell.c:333-420 | `cat` after `echo` prints what the file found held before, then the words joined by single spaces |
| `ShellSpec.EchoThenCatIff` | core/smart_shell.c:333-420 | it prints just the joined words exactly when what `cat` shows of the older bytes is the beginning of the words that zero bytes of the last, incomplete chunk swallow; without zero bytes that is when there are no older bytes, as always when no older file of that name comes before the first free slot |
| `ShellSpec.ZeroChunkDoesNotShow` | core/smart_shell.c:333-420 | an older file of 127 zero bytes does not show |
| `ShellSpec.CommandsAnswer` | core/smart_shell.c:333-420 | `cat` answers 0 exactly if there is such a file; `echo` exactly if the name has one to twelve bytes and there is such a file or a free slot, and otherwise -1 with no file changed |
| `ShellKeys.ArgvOfJoin` | core/smart_shell.c:1543-1577 | words typed with single spaces between them come out of the tokenizer as they went in |
| `ShellKeys.JoinExact` | core/smart_shell.c:391-404 | joined words are as long as the words and one more character between any two, the only blanks are single spaces, and the words come out again |
| `ShellKeys.TabsSeparate` | core/smart_shell.c:1555-1574 | tabs separate words too, and blanks at either end do not count |
| `ShellKeys.TypeEchoThenCat` | core/smart_shell.c:1579-1644 | over keys: typing `echo w1 .. wn > f`, return, `cat f`, return prints what the file held before and the joined words, and just these when no older file of that name is found first |

## Left out

- Fat12.StoreInSector: entries that straddle two sectors (341 and others) are not modelled; the code reads and writes one byte past its 512-byte cache for them.
- FileSystem.Fs.AllocateCluster: asks for a free entry among those that the table's first sector holds; the code goes on into the sectors behind it, and gives up at cluster 0xFF0.
- FileSystem.Fs.LinkNewCluster: the same.
- FileSystem.Fs.Write: the branches for a failed allocation or block write are not taken, because room on the device is asked for; what a half-written file looks like is not modelled.
- FileSystem.Fs.Read: the error return for an unreadable sector is not taken, because a sound chain lies on the device.
- FileSystem.BlockRead: one sector at a time; null buffers, the uninitialised flash base and the size test against the mapped flash are not modelled.
- FsRuns.RunRefines: one open handle per file, no create or delete of a name that is open, names without zero bytes that keep their stored form in a handle.
- Directory.RememberedNameIff: bytes that a stored name should not hold (control characters, a leading 0xE5) are excluded by the callers' conditions, not modelled as errors.
- Scheduler.Kernel.SysTick: the calls of the pool and timer ticks, which are modelled on their own, and the periodic status output.
- Scheduler.Kernel.Start: stack frames, stack guards, priorities of the exceptions and the first context switch; the switch itself is "current becomes next".
- SchedulerRuns.SchedulerOverRuns: calls come from periodic tasks, tick and deadline counters do not wrap, and no synchronisation calls occur; `TaskList` says what these do to the list.
- SchedulerRuns.StatsOverRuns: a miss is counted against the deadline as a yield has left it, one period on; how late a job really was is not kept.
- EdfBound.EveryDeadlineMet: switching costs nothing and decisions take effect at once.
- TimerRuns.FiresOnSchedule: ticks find the list in a state they do not break, and ids do not wrap.
- Timers.TimerService.Tick: callbacks make no timer calls; callback arguments and the measured callback times (always zero, time being tick-granular) are not modelled.
- Mempool.MemPool.Init: blocks must fit the buffer and the address space; a block size above 2^32 - 4, for which the stride wraps to zero, is excluded.
- Mempool.MemPool.AllocTry: null pool and null result pointers.
- SyncRuns.MutexOverRuns: a task that is still queued makes no call, although a tick may have readied it; if it called a lock, it would be linked into a list twice. Any task that is not queued may call; `SyncScheduled` is about runs in which the scheduler decides.
- SyncRuns.MetFromInit: one mutex, and tasks that block on nothing else; `WaitLists` is about any number of objects.
- SyncScheduled.NeverRunsAgain: no task is created after the start, and the statistics that a switch records are not kept.
- TwoMutexes.ReleaseKeepsOtherIff: a task queued on one mutex makes no call on either.
- Sync.Semaphore.Wait: a call before any task runs, which would yield without a task, and one from a task that is still queued.
- Sync.Mutex.Lock: a call from a task that is still queued, as above.
- Snake.SnakeGame.Init: the unused high score.
- ShellKeys.TypeEchoThenCat: on the simple file system that `Shell.Commands` refines; of the commands only `echo` and `cat`, and of the output only the file contents that `cat` prints.
- Shell.Commands.CmdEcho: asks for a name that no open handle has and for room for the text; write errors are not taken.
- Calls with a timeout, which poll the try calls and yield.
- Directory listing, `rm`, `format` and the other shell commands, which only call what is modelled or print.
- Message queues and the UART rings: textbook rings.
- Agreement of the two table copies and reuse of a deleted file's clusters: the code provides neither.
- UART output, prompts, banners, rendering, critical sections, assembly and start-up code.
