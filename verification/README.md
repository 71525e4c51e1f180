# Verification of the message-passing kernel and the file system

Two state machines of the operating system are modelled here and their promises proved.

**The kernel.** Processes exchange messages by rendezvous. A sender waits until its receiver takes
the message, a receiver may wait for one process, for anybody or for an interrupt, and the blocked
senders of a process hang in a list threaded through the process table. A send that would close a
cycle of senders is refused. Interrupts come at any time and leave one pending bit. The clock charges
ticks and picks the next process. On top of it the file system, disk and system tasks serve each other
and the clients.

- `Processes.dfy`: the process table's record, messages and memory.
- `Rendezvous.dfy`: send, receive and interrupt as steps over values, and the joint invariant.
- `Kernel.dfy`: the same calls in place on an array of process records, with flags, wait targets and the
  intrusive lists. Every method ends in the state that `Rendezvous` and `Scheduler` give.
- `Calls.dfy`: what each call leaves in every field of the caller, its partner and the queues, and when a call
  stops the system.
- `Delivery.dfy`: runs, with a log of what was sent and what arrived.
- `Scheduler.dfy`: tick accounting over runs.
- `Layers.dfy`: the programs of clients and servers, and progress of the whole system.
- `Service.dfy`: a run of those programs in which every kind of step occurs and two requests are served.
- `Response.dfy`, `Latency.dfy`: how many moves a request still takes, and with the scheduler choosing who
  moves, how many clock ticks.

**The file system.** One volume holds an inode map, a sector map, inode records, one flat directory and
a fixed extent of 2048 sectors per file. Everything goes through one shared buffer.

- `Device.dfy`, `Volume.dfy`, `Records.dfy`: bytes as eight bits, sectors, the disk, `fsbuf`, and what the
  sectors mean (maps, inode records, directory entries).
- `SectorMap.dfy`, `InodeCache.dfy`, `Directory.dfy`, `FileData.dfy`: the loops of the source over `fsbuf`, each
  proved against a function of the decoded disk.
- `Names.dfy`, `Extents.dfy`: the directory as a map from names to inodes; the sector map as a set of slots.
- `Files.dfy`, `Requests.dfy`: the state between two requests, its invariant, what each request does to
  it, and runs of requests.
- `Effects.dfy`: what each request returns and what it leaves in every field, stated on the state before and
  after it alone.
- `SuperBlock.dfy`, `Format.dfy`: the super block, `mkfs` and the empty file system.
- `Contents.dfy`: what the files hold over runs of requests, and where on the disk they lie.
- `Overruns.dfy`: what every file holds after a write past the capacity, and when other files are left alone.
- `References.dfy`: what an inode's reference count is made of over runs, and when an unlink succeeds.
- `FileSystem.dfy`: the server as a class; each request method ends in the state that `Requests` gives, and
  does to the disk what `Contents` says, for one request and for runs of requests.
- `Examples.dfy`: runs from an empty file system to the places where the code falls short.

A request is *defined* when it meets the kernel's own assertions, opens no terminal, has names that fit their
field and does not write into the directory; the class carries out every defined request. It is *legal* when
it also avoids the three failures of the file system listed below (full block, end of file, shrunken
directory) and creates no file without a name; every legal request keeps the invariant.

Where the code falls short of its intent, the model follows the code and the exact condition is proved:

- An interrupt that wakes a receiver leaves `p_msg` behind (`kernel/system_calls.c:36-37`), so the assertions
  `p_msg == 0` of `msg_receive` (`kernel/ipc.c:210`, `kernel/ipc.c:237`) can fail: `Delivery.ReceiveHalts`,
  `Delivery.StaleBufferExample`.
- A process with a pending interrupt that blocks on a named sender fails `kernel/ipc.c:285`:
  `Delivery.ReceiveHalts`, `Delivery.PendingInterruptExample`.
- `do_rdwt` computes an end position but counts down from the length (`fs/fs.c:239-252`), so the end
  position is honoured only if the request stays within it: `FileData.LimitHonoured`. One byte can be read
  from an empty file, which then is one byte long: `Examples.PastEndExample`. A write past the capacity goes on
  into the file whose extent is next: `Overruns.DefinedWriteSeen`. Other files are left alone exactly when the
  write stays within the capacity or no file has the next extent: `Overruns.LeavesOthersWhen`. Two creates, an
  open and one write get there: `Examples.OverwriteExample`.
- `new_dir_entry` puts an entry behind a full block into a buffer position that is not written
  (`fs/open.c:122-129`); the block is written once more behind itself: `Directory.InsertEntry`,
  `Names.NewNameIsFound`. A run of 28 creates gets there: `Examples.FullBlockExample`.
- Unlinking the last entry sets the directory's size by counting live entries (`fs/link.c:141-151`), which is
  right only if no live entry follows a hole: `Names.UnlinkRemovesName`, `Names.ShrinkLosesFile`. Four creates and
  three unlinks lose a file: `Examples.ShrinkExample`.
- `search_file` compares one entry more than there are (`fs/open.c:175-180`); this is harmless:
  `Names.SearchIsLookup`.
- A failed unlink keeps the reference it took (`fs/link.c:44-54`), so that the file can never be removed
  again, whoever closes it. An unlink succeeds exactly for a regular file that no descriptor names and of
  which no unlink has failed: `References.UnlinkOverRuns`, `References.FailedUnlinkSticks`,
  `Examples.StuckExample`.

`panic` and a failed assertion stop the system: outcome `Halted` in the kernel, `Stopped` for the two panics of
`do_open`. Each kernel call, interrupt and clock tick is one atomic step, as interrupts are off in
`sys_sendrec` (`kernel/system_calls.c:52`).

## Model

| member | source | states |
|---|---|---|
| Rendezvous.InitialInvariant | kernel/main.c:55-66 | the process table as `kernel_main` sets it up satisfies the joint invariant |
| Rendezvous.EdgeKeepsAcyclic | kernel/ipc.c:48-71 | a new SENDING edge keeps the graph of senders acyclic if and only if its target does not already reach its source |
| Rendezvous.ChainsEnd | kernel/ipc.c:51-68 | in an acyclic graph no chain of blocked senders returns to its start and every chain ends, which is why `deadlock` terminates |
| Rendezvous.ChosenIsQueued | kernel/ipc.c:205-246 | the sender that a receive picks is blocked sending to the receiver and in its queue; if ANY picks nobody then nobody is blocked sending to it |
| Rendezvous.PostKeeps | kernel/ipc.c:107-176 | a send that closes no cycle keeps statuses, queues, no missed rendezvous, no lost interrupt and acyclicity |
| Rendezvous.TakeKeeps | kernel/ipc.c:178-289 | a receive keeps the joint invariant, also when it takes a sender out of the middle of the queue |
| Rendezvous.StrikeKeeps | kernel/system_calls.c:20-48 | an interrupt keeps the joint invariant |
| Rendezvous.StepKeeps | kernel/system_calls.c:50-78 | every call of every process that does not stop the system keeps the joint invariant |
| Rendezvous.StampThenStep | kernel/system_calls.c:57-61 | writing the caller into the message before the call changes neither whether the call stops the system nor what it does; what is delivered is in `Calls` |
| Calls.SendEffect | kernel/ipc.c:107-176 | a waiting receiver has the caller's message, with nothing but its source set, in its buffer and nothing else in its memory changed; otherwise the caller is blocked with that message at the end of the queue |
| Calls.ReceiveEffect | kernel/ipc.c:178-289 | a pending interrupt goes first if it was asked for, then the named sender or the head of the queue, whose message is all that changes in the receiver's memory; otherwise the receiver blocks |
| Calls.InterruptEffect | kernel/system_calls.c:20-48 | whoever waits for an interrupt or for anybody is woken with its message; for anybody else it stays pending |
| Calls.RefusedWhen | kernel/ipc.c:48-71 | a send is refused if and only if a chain of processes, each blocked sending to the next, leads from the destination to the sender |
| Calls.ReceiveFailsWhen | kernel/ipc.c:209-285 | a receive fails an assertion if and only if no pending interrupt is taken and either a sender is there while the buffer pointer is stale, or none is while an interrupt is pending |
| Kernel.EnqueueLinks | kernel/ipc.c:152-162 | appending to the linked list leaves every process's list exactly its queue of blocked senders, finite and without repetition |
| Kernel.DequeueLinks | kernel/ipc.c:248-273 | unlinking a sender from the head or the middle leaves every list exactly the queue without it |
| Kernel.UnlinkList | kernel/ipc.c:249-258 | bridging over the i-th element of a linked list gives the list without it, in the same order |
| Kernel.HandOverRepresents | kernel/ipc.c:119-133 | the direct hand-over makes the receiver ready with the sender's message and touches no list |
| Kernel.Kernel.Boot | kernel/main.c:30-108 | the table starts with everybody ready, no lists, ticks equal to priorities 200, 150, 100, 600, 550, 500, 450, and the invariant holds |
| Kernel.Kernel.Deadlock | kernel/ipc.c:48-71 | terminates and returns true exactly when the caller is reachable from the destination along SENDING edges |
| Kernel.Kernel.PrintCycle | kernel/ipc.c:54-60 | the printing loop terminates, its assertion on `p_msg` holds all the way, and it prints the chain of senders from the destination to the caller, who comes only at the end |
| Kernel.Kernel.PickGreatest | kernel/clock.c:45-52 | finds the lowest-numbered ready process of greatest positive ticks, or reports that there is none |
| Kernel.Kernel.RefillTicks | kernel/clock.c:56-60 | gives every process without a flag its priority in ticks and leaves every process with one as it was |
| Kernel.Kernel.Schedule | kernel/clock.c:37-63 | terminates if some ready process has or can be given a tick, refills only when all ready ones are used up, picks the lowest-numbered ready process of most ticks, and leaves every blocked process as it was |
| Kernel.Kernel.ClockHandler | kernel/clock.c:16-27 | does nothing inside another kernel entry; otherwise charges the running process one tick and reschedules; IPC stays as it is and the invariant holds either way |
| Kernel.Kernel.Block | kernel/ipc.c:37-41 | called with a process that has a flag, gives the processor to another and the invariant of the slices holds again |
| Kernel.Kernel.Append | kernel/ipc.c:152-161 | walks to the end of the destination's list and hangs the sender there, changing one pointer |
| Kernel.Kernel.MsgSend | kernel/ipc.c:107-176 | stops exactly when the destination reaches the sender; otherwise hands over and wakes, or queues and blocks, and all assertions on the way hold, those on the blocked process included |
| Kernel.Kernel.Before | kernel/ipc.c:225-234 | the search in the receiver's list finds the named sender and its predecessor |
| Kernel.Kernel.Accept | kernel/ipc.c:248-270 | relinks around the chosen sender, copies its message and makes it ready; no other process changes |
| Kernel.Kernel.MsgReceive | kernel/ipc.c:178-289 | stops exactly when one of its two doubtful assertions fails; otherwise takes the pending interrupt, serves the chosen sender or blocks |
| Kernel.Kernel.SysSendRec | kernel/system_calls.c:50-78 | the system call refines the abstract step, stops exactly when that step does, the partner is the caller or no process, or the function is invalid, and keeps the joint invariant |
| Kernel.Kernel.SysSendInt | kernel/system_calls.c:20-48 | an interrupt wakes a process that waits for one and delivers the message, or sets the pending bit |
| Delivery.StepKeepsGood | kernel/system_calls.c:50-78 | every call keeps the agreement between the log of letters and the state of queues and buffers |
| Delivery.ExactlyOnce | kernel/ipc.c:119-162 | over every run each message sent has arrived exactly once, at its destination, as it lay in the caller's buffer before the call but for the true sender's number in its source, or its sender is still blocked with it |
| Delivery.EverySendIsLogged | kernel/ipc.c:107-176 | the number of letters equals the number of sends of the run, so none is invented or dropped |
| Delivery.BlockingOrder | kernel/ipc.c:205-258 | a receive from ANY serves the sender blocked longest; a receive from a named sender leaves the order of the others unchanged |
| Delivery.InterruptsAreKept | kernel/ipc.c:187-202 | an interrupt wakes its waiter or stays pending, and a pending one is consumed only by a receive from INTERRUPT or ANY |
| Delivery.ReceiveHalts | kernel/ipc.c:209-245 | exactly when the assertions of `msg_receive` fail: a sender is there and the last call was completed by an interrupt, or a named receive blocks with an interrupt pending |
| Delivery.StaleBufferExample | kernel/ipc.c:209-212 | a three-step run from boot after which a receive from ANY fails the assertion on `p_msg` |
| Delivery.PendingInterruptExample | kernel/ipc.c:275-285 | a one-step run from boot after which a receive from a named process fails the assertion on `has_int_msg` |
| Scheduler.ScheduleLoops | kernel/clock.c:43-62 | exactly when `schedule` would loop for ever: no ready process has ticks or a priority |
| Scheduler.BestIsUnique | kernel/clock.c:45-52 | the choice of the next process is determined by ticks and flags |
| Scheduler.StepKeepsBalance | kernel/clock.c:16-63 | at every step boundary ticks are between 0 and the priority and the running process is ready with a positive count |
| Scheduler.StepSpelledOut | kernel/clock.c:16-63 | everybody's ticks after each kernel entry: the running process is charged, a refill comes only when no ready process has ticks left and is for the ready ones only, and the first of those with most ticks runs |
| Scheduler.BlockedKeepTicks | kernel/clock.c:56-60 | a blocked process keeps its ticks at every step, refill or not |
| Scheduler.TimeIsConserved | kernel/clock.c:23-26 | between refills each process has lost exactly what it was charged, whoever blocks and wakes |
| Scheduler.ProportionalShare | kernel/clock.c:37-63 | a process ready at both ends of an epoch is charged exactly its priority in it |
| Scheduler.EpochIsBounded | kernel/clock.c:37-63 | a stretch without a refill has at most as many clock ticks as the sum of all priorities |
| Scheduler.NoStarvation | kernel/clock.c:37-63 | a process that stays ready is charged its full priority within a little more than two such sums of ticks |
| Layers.SendingChain | kernel/ipc.c:48-71 | with requests going only up the ranks, no chain of blocked senders leads back to a caller |
| Layers.NeverHalts | fs/fs.c:31-55 | no call that clients and servers make is refused as a deadlock or fails an assertion |
| Layers.AdvanceKeeps | kernel/hd.c:42-64 | every step of clients, file system, disk and system task keeps the layering of who waits for whom |
| Layers.EdgeGoesDown | kernel/systask.c:12-24 | whoever a process waits for is not an idle server and needs strictly fewer others to move |
| Layers.WaitsAreShort | kernel/ipc.c:82-105 | the combined send and receive wait graph has no cycle and no path over more than five processes |
| Layers.Progress | kernel/hd.c:316-329 | every chain of waiting ends at a runnable process or at the disk task whose interrupt is coming |
| Layers.NothingEverHangs | kernel/main.c:55-66 | from boot, over every run, no call halts and every process but an idle server waits for one that can move |
| Service.RequestsAreServed | fs/fs.c:31-55 | a run from boot in which two clients wait for the file system at once, it waits for the disk, the disk is waited for before and after its interrupt, and both clients get their replies |
| Response.PendingBound | fs/fs.c:31-55 | a request or transfer in progress takes fewer moves than `OpCost`, computed from the number of processes, the budget of a server and the rank of the caller |
| Response.BusyDown | kernel/ipc.c:205-258 | whatever anybody does, a server does not get further from its next request except by taking one, and a move of the process it waits for brings it closer |
| Response.QueuedDown | kernel/ipc.c:152-162 | a queued caller does not get further from its answer when others queue behind it or the server takes those in front, and gets closer with each move it waits for |
| Response.PendingDown | kernel/ipc.c:74-105 | no action puts off the answer to a request, and each move of the process at the end of the chain of waiting brings it closer |
| Response.MoverStays | kernel/ipc.c:107-289 | as long as the process at the end of a chain of waiting does not move, nothing along the chain changes |
| Response.EndsWithReply | kernel/ipc.c:82-105 | a request ends only by the reply of the server that worked on it |
| Latency.WaitIsShort | kernel/clock.c:37-63 | nobody is waited for longer than a window, the larger of what `NoStarvation` gives and the time of the disk |
| Latency.EveryRequestIsAnswered | kernel/clock.c:37-63 | over every run under the scheduler, if servers and library calls take their next step within a time slice, servers make boundedly many requests for one and the disk interrupts in time, every request of every process is answered within `OpCost` windows of clock ticks |
| Latency.BootIsSound | kernel/main.c:55-66 | the booted system meets what such runs start from |
| Device.Device.ReadSectors | fs/fs.c:58-72 | a read request puts the sectors into the front of `fsbuf` and leaves the rest of it alone |
| Device.Device.WriteSectors | fs/fs.c:58-72 | a write request replaces exactly the sectors asked for |
| Volume.FirstClear | fs/open.c:52-58 | the first clear bit: all before it are set |
| Records.ValueOfBits | include/fs.h:53-63 | reading back the bits of a 32-bit field gives the number that was put in |
| Records.RecordRoundTrip | fs/open.c:219-223 | an inode record decodes to what `sync_inode` wrote |
| Records.WordIsLittleEndian | include/fs.h:53-63 | a 32-bit field is the number of its four bytes, least significant first |
| Records.OneRecord | fs/open.c:239-246 | replacing the bytes of one record in its sector changes that inode and no other |
| Records.OneEntry | fs/open.c:126-129 | replacing the bytes of one directory entry changes that entry and no other |
| Records.RegionsAreApart | fs/fs.c:324-329 | the maps, the inode table and the directory lie in disjoint sectors, so a change in one leaves the others as they were |
| SectorMap.AllocSmapBit | fs/open.c:41-78 | sets the first clear bit and the n - 1 after it, over byte and sector boundaries, returns the sector of that bit, and touches nothing else |
| SectorMap.FillSector | fs/open.c:52-67 | the byte loop of one map sector: its assertion that the next bit is clear holds, and it continues where the sector before stopped |
| SectorMap.AllocImapBit | fs/open.c:11-39 | takes the first clear bit of the first inode map sector, or returns 0 and changes nothing if there is none |
| SectorMap.FreeSmapBits | fs/link.c:69-107 | first byte, whole bytes and last byte together clear exactly bits [b, b + n), for every start and count, and the assertions on the way hold when those bits are set |
| SectorMap.ClearBytes | fs/link.c:84-101 | the loop over whole bytes, with write-back and read at each sector boundary |
| SectorMap.FreeImapBit | fs/link.c:59-66 | clears exactly the inode's bit |
| SectorMap.FreeUndoesAlloc | fs/link.c:69-107 | releasing at the sector that allocation returned restores the map bit for bit; sector-to-bit inverts bit-to-sector |
| InodeCache.SyncInode | fs/open.c:234-247 | writes the four fields to the inode's record and changes no other record, no spare byte of any record and no other region |
| InodeCache.GetInode | fs/open.c:187-226 | the cached slot with one more reference, or the first free slot filled from the record on disk; no inode for number 0 |
| InodeCache.PutInode | fs/open.c:228-232 | one reference less, nothing else |
| InodeCache.NewInode | fs/open.c:80-94 | an empty regular file of 2048 sectors with one reference, in memory and on disk |
| Directory.StripPath | fs/open.c:133-154 | drops one leading slash, cuts at twelve characters, and fails exactly when another slash is among those twelve |
| Directory.StrippedWhen | fs/open.c:133-154 | with a slash in front or without, a path leads to the first twelve characters after it, and nowhere exactly when one of those is a slash |
| Directory.SlashIsDropped | fs/open.c:141-142 | "/foo" and "foo" are the same file |
| Directory.KmemCmp | lib/memory.asm:72-116 | over the twelve characters of a name, equality of the C strings, a NUL ending both |
| Directory.StoredName | fs/open.c:127 | a name of fewer than twelve characters reads back from its field, whatever was there before |
| Directory.SearchFile | fs/open.c:156-185 | the first matching entry in order, over all blocks, one slot further than there are entries |
| Directory.BlocksHold | fs/open.c:167-180 | a directory of any number of entries lies in as few blocks as hold them, and a search compares one entry more than there are unless the last block is full |
| Directory.FindSlot | fs/open.c:107-120 | the first hole, or the place behind the last entry, also when that lies behind the last block read |
| Directory.InsertEntry | fs/open.c:96-131 | for a name that fits its field: the entry goes into that slot and the size grows only without a hole; behind a full block the block is repeated instead |
| Directory.RepeatedIs | fs/open.c:122-130 | behind a full block each entry of that block is repeated at the same place of the next one, and no other entry changes |
| Directory.RemoveEntry | fs/link.c:117-151 | the entry of the inode is zeroed, and only for the last entry the size becomes the number of live entries before it |
| Directory.LiveIsCount | fs/link.c:141-142 | the size counted is the number of the entries in use |
| Directory.EraseEntry | fs/link.c:134-137 | zeroing sixteen bytes makes the entry a hole without a name and changes no other |
| FileData.Transfer | fs/fs.c:245-274 | for every position, end, length and buffer size: a write replaces exactly the covered bytes of the disk, a read delivers exactly those bytes, although whole bordering sectors are moved |
| FileData.LimitHonoured | fs/fs.c:239-255 | the bytes moved stay within size or capacity if and only if position plus length does; then all of the length is moved |
| FileData.WriteIsLocal | fs/fs.c:264-268 | a write replaces bytes [pos, pos + n) of its own extent and no byte of an extent apart from it |
| FileData.ReadBack | fs/fs.c:254-274 | what was written is what is read, wherever the two transfers cut it into chunks |
| Names.SearchIsLookup | fs/open.c:156-185 | search is look-up in the directory's map from names to inodes; the extra comparison never finds anything |
| Names.MapIsInjective | fs/open.c:96-131 | the map never names inode 0 and names no inode twice |
| Names.CreateAddsName | fs/open.c:122-130 | a new entry adds exactly its name to the map, reusing a hole if there is one, and the directory stays tidy |
| Names.NewNameIsFound | fs/open.c:122-130 | the new name is found afterwards if and only if its slot lies in a block that was read |
| Names.FullBlockLosesName | fs/open.c:122-130 | behind a full block the new name cannot be found |
| Names.UnlinkRemovesName | fs/link.c:131-153 | removal takes exactly its name out of the map if and only if the entry was not the last or no live entry follows a hole; then the directory stays tidy |
| Names.CountIsEnd | fs/link.c:141-151 | the count of live entries is the place where they end exactly when no live entry follows a hole |
| Names.ShrinkLosesFile | fs/link.c:150-153 | four files of which the first two and then the last are removed: the third can no longer be found |
| Extents.FirstFit | fs/open.c:52-63 | first fit lands on the front of the lowest free slot; the allocator's assertions hold exactly when that slot is whole |
| Extents.RoomIsEnough | fs/open.c:61-76 | an allocation meets its assertions if and only if one more whole slot than those in use fits in the map |
| Extents.SlotsCount | fs/fs.c:363-377 | the sector map has 1 + 2048 bits set for each slot in use |
| Extents.InodesCount | fs/fs.c:353-360 | the inode map has as many bits set as there are reserved inodes and files |
| Files.DirCreate | fs/open.c:96-131 | a new entry adds one name and one inode number, and the reserved entries stay in place |
| Files.DirUnlink | fs/link.c:117-153 | an erased entry takes away one name and one inode number, and the reserved entries stay in place |
| Files.RecordsCreate | fs/open.c:80-94 | the new record owns a slot that no other file owns |
| Files.RecordsUnlink | fs/link.c:109-115 | clearing a record gives up its slot and no other |
| Files.TableHasRoom | fs/open.c:195-209 | `get_inode` never finds the inode table full |
| Files.CacheUpdate | fs/open.c:234-247 | when slot and record change together, every cached inode still agrees with its record and no inode is cached twice |
| Files.DescsDetach | fs/fs.c:190-198 | a close takes one reference from an inode that has one to give, and the counts stay upper bounds |
| Files.HandlesAttach | fs/fs.c:158-162 | after an open no two file handles share a descriptor |
| Requests.InodeIsFree | fs/open.c:11-39 | as long as the directory is one block the inode map is never full |
| Requests.BitCounts | fs/fs.c:353-377 | set bits are 5 + files in the inode map and 1 + 2048 * (1 + files) in the sector map |
| Requests.CanAllocWhileRoom | fs/open.c:61-76 | the allocator's assertions hold if and only if a whole free slot fits in the sector map |
| Requests.ExtentsAreApart | fs/fs.c:293-299 | the extents of two files are disjoint from each other, from the root directory's and from all metadata |
| Requests.BitsAreEntries | fs/link.c:58-66 | a set bit of the inode map is a reserved inode's or that of exactly one directory entry |
| Requests.FoundIsLookup | fs/open.c:156-185 | a path leads to what the directory's map has under its stripped name, and to 0 exactly when the name is not there |
| Requests.CreateKeeps | fs/fs.c:285-300 | `create_file` keeps the whole invariant, adds its name and a new inode, and no descriptor refers to the slot it takes |
| Requests.GetKeeps | fs/open.c:187-226 | `get_inode` keeps the invariant and returns a slot that equals the record on disk |
| Requests.UnlinkKeeps | fs/link.c:56-155 | a successful unlink keeps the whole invariant and takes away exactly its name |
| Requests.OpenKeeps | fs/fs.c:102-188 | every open keeps the invariant and changes the directory's map exactly if it creates |
| Requests.CloseKeeps | fs/fs.c:190-198 | every close keeps the invariant and the directory's map |
| Requests.LegalMoves | fs/fs.c:239-279 | a legal transfer moves exactly the bytes asked for, and only a write to a regular file makes it grow, not beyond its capacity |
| Requests.RdwtKeeps | fs/fs.c:200-283 | a transfer within size or capacity keeps the invariant and the directory's map, moves the position by its length, and leaves as size, in memory and on disk, the larger of the old size and the new position |
| Requests.UnlinkRequestKeeps | fs/link.c:15-155 | unlink succeeds exactly for a regular file of which no reference is counted, keeps the invariant either way, and otherwise leaves all names |
| Requests.RequestKeeps | fs/fs.c:31-55 | every legal request keeps the invariant |
| Requests.After | fs/fs.c:31-55 | so does every run of legal requests, up to a panic |
| Requests.OpenFilesAreSafe | fs/link.c:51-54 | unlink never removes an inode that a file handle leads to |
| Requests.PositionsAreOwn | fs/fs.c:119-134 | no two file handles share a descriptor, hence no file position |
| Effects.OpenEffect | fs/fs.c:102-188 | an open panics exactly without a free handle or descriptor; returns -1 and changes nothing exactly for a path with a slash left, a create of a name that exists or a plain open of one that does not; otherwise returns the first free handle, which leads to the first free descriptor, at position 0 and with the flags asked for, and no other handle or descriptor changes |
| Effects.PlainOpenEffect | fs/fs.c:142-187 | a plain open changes no part of the disk and gives one reference more to the inode under the name, in the slot that caches it or else in the first free one |
| Effects.CreateEffect | fs/fs.c:285-300 | a create takes the first free inode and the first 2048 free sectors for an empty regular file, enters it in the first hole or behind the last entry, adds 16 to the directory's size only without a hole, caches it in the first free slot, and changes nothing else; in a full block it repeats the block instead |
| Effects.OpenLeadsToName | fs/fs.c:136-162 | the handle that a legal open returns leads to the inode that the directory then has under the path's name |
| Effects.SlashLeadsToSame | fs/open.c:156-166 | a search for "/foo" finds what a search for "foo" does |
| Effects.CloseEffect | fs/fs.c:190-198 | a close frees the handle and its descriptor, takes one reference from the inode, and changes nothing else |
| Effects.RdwtEffect | fs/fs.c:200-283 | a transfer returns -1 and changes nothing for a handle opened neither to read nor to write; otherwise it moves whole chunks up to the sector of the size, or for a write of the capacity, but not more than asked for, returns that number, advances the position by it, and only a position beyond the size changes the size |
| Effects.ReadStopsAtEnd | fs/fs.c:239-252 | a read past the end stops behind the sector of the end if the buffer takes all of it |
| Effects.UnlinkOfNothing | fs/link.c:28-42 | an unlink of "/", or of a path that leads nowhere, returns -1 and changes nothing |
| Effects.UnlinkInUse | fs/link.c:44-54 | an unlink of the directory, of a terminal or of a file in use returns -1 and changes nothing but one reference that it keeps |
| Effects.UnlinkDone | fs/link.c:56-155 | any other unlink clears exactly the file's bit and its 2048 sector bits, all of which were set, zeroes its record and its entry, gives the slot back, and sets the directory's size only for the last entry, to 16 times the entries in use before it |
| Requests.CreateThenSearch | fs/fs.c:136-147 | after a create the new inode is found under its name and under every other name what was found before |
| Requests.UnlinkThenSearch | fs/link.c:33-37 | after an unlink the name is gone and no other is |
| Contents.RecordFrame | fs/fs.c:31-55 | no legal request changes a file's mode, place on the disk or capacity; only a write to the file changes its size, and only an unlink of it takes its record away |
| Contents.NewFiles | fs/fs.c:285-300 | a file that was not there before a request was created by it, with the first free inode |
| Contents.CompactKeeps | fs/open.c:52-63 | every legal request keeps all extents within the first 29 slots, which follows from first fit and the number of names that one block holds |
| Contents.ArisesCompact | fs/open.c:52-63 | so in every state that a run from an empty file system leads to, all extents are within those slots |
| Contents.TransfersFit | fs/fs.c:245-255 | on a volume with room for 31 extents every sector that a transfer touches exists, those behind its extent included |
| Contents.ContentsStep | fs/fs.c:239-281 | after a legal request each file that it does not remove holds what it held before, with the bytes at the handle's position replaced if the request writes to that file |
| Contents.FilesHoldWhatWasWritten | fs/fs.c:31-55 | take any file that exists after some run from an empty file system: over every further run that does not remove it, it holds exactly what was written to it, in order, over what it held |
| Contents.ReadsSeeWrites | fs/fs.c:239-281 | likewise, a read at the end of the further run, through any handle, returns the bytes last written at its position |
| Contents.WriteThenRead | fs/fs.c:239-281 | likewise, write, then any run that neither writes to the file nor removes it, then read at the same place through any handle: what was written is read |
| Contents.RecordStays | fs/open.c:234-247 | over every run that neither writes to a file nor removes it, its record stays as it is |
| Contents.PutThenGet | fs/open.c:187-232 | an inode put back and fetched again after any such run has the same fields |
| Contents.RestStays | fs/fs.c:340-343 | over every run boot sector, super block and spare bytes of the inode records stay as they are |
| Contents.ServedOnDisks | fs/fs.c:31-55 | what the server has done over a run is a run on the disk in the sense of the rows above |
| Overruns.DefinedWriteSeen | fs/fs.c:239-274 | after any write to a file, past the capacity or not, every file holds what it held, with the bytes that fit replaced in the target and the rest over the front of the file with the next extent |
| Overruns.LeavesOthersWhen | fs/fs.c:239-274 | a write leaves all other files alone, whatever it writes, if and only if it stays within the capacity or no file has the next extent |
| References.StepCounts | fs/open.c:187-232 | every request keeps each inode's count equal to the descriptors that name it, one for the root directory, and the unlinks of it that have failed |
| References.UsedOrFailed | fs/link.c:44-54 | a file's inode is cached exactly while a descriptor names it or an unlink of it has failed |
| References.UnlinkSucceeds | fs/link.c:28-56 | an unlink succeeds if and only if the path leads to a regular file that no descriptor names and of which no unlink has failed |
| References.FailuresAreOfFiles | fs/link.c:109-115 | of an inode that is no file's no unlink has failed, so a new file starts without failures |
| References.UnlinkOverRuns | fs/link.c:28-56 | both hold over every run from an empty file system |
| References.FailedUnlinkSticks | fs/link.c:44-54 | after a failed unlink of a file, or of anything else that has a name, no later unlink of its inode succeeds, whatever is closed in between |
| Examples.StuckExample | fs/link.c:51-54 | create, unlink while open, close: from then on the file is regular, nobody has it open, and its unlink fails |
| Examples.FullBlockExample | fs/open.c:122-129 | 28 creates fill the block; the next one returns a handle and takes an inode, but its name cannot be found |
| Examples.ShrinkExample | fs/link.c:141-153 | four files of which the first two and then the last are removed: the third is found before the last unlink and not after |
| Examples.PastEndExample | fs/fs.c:239-279 | a read of one byte from a file just created returns one byte and makes the file one byte long |
| Examples.OverwriteExample | fs/fs.c:239-274 | two files are created and the first is opened again; a write of one byte more than the capacity then changes another file |
| SuperBlock.LayoutAgrees | fs/fs.c:322-338 | the fields that `mkfs` computes describe the layout of this model, with a bit of the sector map for each sector of the volume; magic number, root inode and sizes |
| SuperBlock.SuperRoundTrip | fs/fs.c:446-448 | the super block reads back from sector 1 as it was written |
| SuperBlock.OffsetsAgree | fs/fs.c:333-338 | the fields of records and entries lie at the offsets that the super block names |
| SuperBlock.SuperLayout | include/fs.h:32-49 | the super block's fields lie in their order from the start of the sector, four bytes each |
| SuperBlock.WriteSuper | fs/fs.c:322-343 | sector 1 decodes to the super block of the volume, its other bytes are filler, and no other sector changes |
| Format.Mkfs | fs/fs.c:302-409 | the super block, the maps, the records and the directory that `mkfs` writes, whatever was on the disk before, and that it writes no other sector |
| Format.WriteSectorMap | fs/fs.c:363-377 | exactly bit 0 and the root directory's 2048 bits are set, in every sector of the map |
| Format.FreshIsGood | fs/fs.c:74-100 | the file system starts in the invariant |
| Format.FreshRecords | fs/fs.c:383-394 | the four fields of the records of the root directory and of the terminals |
| Format.FreshNames | fs/fs.c:397-408 | a new file system has the names ".", "dev_tty0", "dev_tty1" and "dev_tty2", for the inodes 1 to 4 |
| Format.BytesAreCodes | fs/fs.c:401-406 | the bytes of a name are the codes of its characters, and a slash is 47 |
| Format.MapsOverRuns | fs/open.c:41-78 | over every run from `mkfs`: the bit counts, no full inode map or inode table, and an allocator that fails exactly when no whole slot is left |
| FileSystem.FileSystem.constructor | fs/fs.c:74-100 | `init_fs` writes the super block and reads it back, its magic number is right, and a fresh file system with the root directory's inode in the first slot is left |
| FileSystem.FileSystem.CreateFile | fs/fs.c:285-300 | on the disk and in the tables, `create_file` does what its specification says, behind a full block too, and touches no file's sectors |
| FileSystem.FileSystem.DoOpen | fs/fs.c:102-188 | every defined open does what its specification says, including both panics and all failures, and touches no file's sectors |
| FileSystem.FileSystem.DoClose | fs/fs.c:190-198 | `do_close` does what its specification says |
| FileSystem.FileSystem.DoRdwt | fs/fs.c:200-283 | `do_rdwt` moves exactly the bytes that its loop covers between buffer and file, past the end too, advances the position by them, grows the size in memory and on disk if the position is beyond it, and changes nothing else on the disk |
| FileSystem.FileSystem.DoUnlink | fs/link.c:15-155 | every unlink does what its specification says and touches no file's sectors |
| FileSystem.FileSystem.Serve | fs/fs.c:31-55 | one turn of the server's loop does every defined request: the state becomes that of the specification, the disk changes as `Contents` assumes, and a read delivers the bytes of the disk; transfers need the sectors that they touch |
| FileSystem.FileSystem.ServeRun | fs/fs.c:31-55 | turns of the loop, one for each request of a run: state, outcomes, disks and answers are those of the specification, so that the results of `Contents` hold of the class |

## Left out

- Port I/O, ATA commands, interrupt controllers, descriptor tables, paging, register save and restore: hardware effects. A disk request is an atomic transfer of sectors.
- Disk geometry and the partition table of `kernel/hd.c`: only the disk task's phases of request, nested system call, wait for the interrupt and reply are modelled, in `Layers.dfy`.
- Boot code, the console, the keyboard, `printf` and the string library: user interface, or simple loops. String comparison and copying appear only as the file system uses them.
- Address translation: a process's memory is a map from addresses to messages, and a message buffer is one cell of it. `kmemcpy` is the exact copy that its comment promises, without its rounding up to four bytes, and without what it does when there is nothing to copy: `loop` starts from 0 and goes round 2^32 times (`lib/memory.asm:31-42`). A transfer of length 0 reaches that, and so does the last round of one that ends exactly at a whole number of buffers, such as 1 MB from position 0.
- `kmemset` of the message before a receive (`kernel/ipc.c:86-87`): a `Store` step of the caller may precede any call.
- Terminals: opening a terminal device blocks the file system for good, because `task_tty` never receives (`kernel/tty.c:37-47`); such opens are not defined requests here.
- More than one device, and more than one inode map sector: `mkfs` makes exactly one, and `get_super_block` always finds the one super block.
- Kernel.Kernel.SysSendRec: the terminal task as caller, as it never makes a system call (`kernel/tty.c:37-47`), which is why somebody is always ready; a send to ANY or INTERRUPT, whose process record does not exist; and a null message pointer.
- Latency.EveryRequestIsAnswered: how many requests a server makes for one, how long programs compute between two calls, and how long the disk takes, are parameters of the run.
- Rendezvous.TakeKeeps: the message that a pending interrupt delivers is whatever the receiver's stale buffer held, as in the code, and nothing is claimed about it.
- Directory.InsertEntry: names of twelve characters or more, which the source copies past their field into the next entry.
- Requests.RdwtKeeps: reads beyond the size and writes beyond the capacity are defined but not legal; `FileSystem.FileSystem.DoRdwt` and `FileData.LimitHonoured` say what they do. Writes into the directory are not modelled.
- Requests.RequestKeeps: a create behind a full block, and the removal of the last entry while a live entry follows a hole, are defined but not legal; `Names.NewNameIsFound` and `Names.UnlinkRemovesName` say exactly what they break. So is a create of the empty name, after which a hole in front of the entry would hide it.
- FileSystem.FileSystem.DoRdwt: file positions advance once, after the loop, and not per chunk.
- FileSystem.FileSystem.constructor: the volume is small enough that the sectors of all slots of the map have 32-bit numbers. Asking the driver for the size, and the slots of `super_block` for further devices, are left out.
- The length of a path (fewer than 64 characters) is not checked; a path is a string without NUL.
