# A teaching kernel: rendezvous messages, a small file system, terminals, exit and wait

This project models the parts of the kernel where state and protocol meet, and proves what
they are for. It verifies with `dafny verify dfyconfig.toml`.

**Messages and scheduling.** `KernelState` is the kernel as a state machine whose steps are
SEND, RECEIVE, a device interrupt, a clock tick and a process writing its own memory;
`KernelInvariant` and `KernelSteps` prove what every step keeps, over every run from boot and
for any number of processes. `KernelTable` is the same kernel as it lies in memory, a table of
process control blocks with sending queues linked through it; each of its methods is proved to
do exactly the abstract step, and each assertion of the original stands in it as a Dafny
assertion or follows from its contract. `MessageConservation` follows single messages through a
run and `KernelInterrupts` interrupts, `KernelFrame` says what a step leaves alone,
`KernelFairness` bounds how long a sender and a runnable process wait, and `KernelDeadlock` says
exactly which steps lead to a deadlock that the deadlock test does not see.

**The file system.** `FsBits`, `FsDevice`, `FsMaps`, `FsFree`, `FsInodes`, `FsDirectory`,
`FsEntries` and `FsTransfer` are the loops over bits, bytes and sectors, each proved against
what it does to the map, the list of inodes, the directory or the bytes of the disk.
`FsState` says what one request does to those, `FsInvariant` what holds between requests, and
`FsTables`, `FsCreate`, `FsRemove` and `FsRuns` that every request and every run keeps it.
`FsStore`, `FsRefine` and `FsTheorems` leave sectors behind: the file system is a store of named
byte sequences, files do not interfere, and what is written is read. `FsDescriptors` and
`FsStreams` do the same for open files: which file a descriptor is on, and where, over every
run. `FsFrame` says what a request is answered and what it leaves alone, `FsUndo` that making and
removing a file undo each other, `FsReferences` accounts for every reference to an
inode, `FsNames` says exactly when making or removing a file takes the names of other files
along, and `FsExtents` when a new file lies on the device. `FsIdle` and `FsLostNames` are runs
from a new file system at which that goes wrong, and `FsFromMkfs` is about all of them.
`FsSuper`, `FsViews`, `FsMkfs` and `FsMachine` tie the two ends together:
mkfs establishes the invariant, and the file system task, working on sectors and tables in
place, does what `FsState` says.

**Two small protocols.** `Tty` is the line discipline of a terminal, `ExitWait` the protocol of
zombies and waiting parents as it is meant, `ExitOutcomes` what each request does there,
`ExitHalts` the same protocol as it is written, and `ProcTable` the process table it works on.

## Where the code does not do what it seems to promise

- Boot: the loop that fills the process table (kernel/main.c:19-23) writes to the entry before
  the current one and runs past the table, so the last process is switched off. The initial
  state is modelled that way. A send to that process, or with one of the codes ANY and
  INTERRUPT, makes the deadlock test read outside of the table: the outcome `OffTable`.
- kernel/ipc.c:380: a receive from one certain sender that blocks while an interrupt is latched
  fails this assertion; `KernelSteps.ReceiveAsserts` gives the exact condition, and
  `KernelSteps.LatchedReceiveFails` a run.
- kernel/ipc.c:117-142: the deadlock test follows sends only. Two processes that wait for each
  other in a receive are never found and never wake (`KernelDeadlock.DeadlockUnseen`), nor are
  circles that a send closes when a receive is part of them (`KernelDeadlock.SendClosesUnseen`).
  `KernelDeadlock.StepDeadlocks` and `KernelDeadlock.RunDeadlocks` say exactly which steps and
  runs get there.
- fs/read_write.c:85: the number of bytes is not cut to the end computed above. A request past
  the end of a file reads on and makes the file grow (`FsRefine.ReadView`), and one past the end of its extent writes
  into the next one (`FsTransfer.TransferredWithin`, `FsTransfer.WritePastExtent`). A write that
  ends exactly at the end of its extent still rewrites the next sector, with what it holds.
- fs/open.c:264: when the inode map is full, 0 is returned, not a panic.
- fs/open.c:412: the zero behind a name of twelve characters falls into the inode number of the
  next entry (`FsEntries.AddNameKeepsOthers`). `FsNames.OpenKeepsNames` says exactly when another
  file loses its name by that, and `FsLostNames.TwelveLosesName` is a run.
- fs/misc.c:55-57: the search looks at the entry behind the last one. Mkfs zeroes only the first
  sector of the directory, so what lay on the disk before can be found there
  (`FsDirectory.SearchAbsent`, `FsDirectory.StaleEntryFound`); `FsMachine.InitFs` asks for the other sectors to be zero.
- fs/link.c:55-68: an unlink request that fails after it has got the inode keeps the reference.
  The file can never be removed after that (`FsReferences.UnlinkOpenLeaks`,
  `FsReferences.FailedUnlinkIsFinal`); counts are exact as long as no request does that
  (`FsFromMkfs.RunExact`).
- fs/link.c:194-195: removing the last entry of the directory sets the size to that of the used
  entries only, which can leave out entries behind a hole (`FsRemove.ShrinkLosesNothing`). The
  search still looks at one entry behind the last, so a name is lost exactly when its entry is
  further behind (`FsNames.UnlinkKeepsNames`; with two holes, `FsLostNames.TwoHolesLoseName`). With
  one hole it is lost only later, when a new file is written over it
  (`FsLostNames.OneHoleLosesName`).
- fs/main.c:191: the sector map has bits for sectors behind the end of the device, and the
  allocation does not look at the device's size. `FsExtents.NewFileWritable` and
  `FsExtents.BlocksOnDevice` say exactly when that does no harm, and
  `FsExtents.NewFileBehindDevice` is a device where it does.
- mm/fork.c:246: an assertion that always fails stands where INIT, which waits, takes over a
  hanging child. `ExitHalts.ExitHaltsExactly` says which exits fail it, `ExitHalts.RunThatHalts` is
  a run that does, and `ExitHalts.RunsAgree` says that all other runs are those of the protocol
  that the comment above the function describes.

## Model

| member | source | states |
|---|---|---|
| KernelInvariant.BestIsPick | lib/process.c:10-20 | The selection pass picks the lowest-numbered runnable process with the most ticks, and none when no runnable process has a positive number. |
| KernelInvariant.RescheduleChoice | lib/process.c:8-28 | The scheduler picks such a process, refills all ticks only when every runnable process has used its ticks up, changes nothing else, and loops for good exactly when no process is runnable. |
| KernelInvariant.AcyclicBlock | kernel/ipc.c:165-197 | When the deadlock test finds no chain from the receiver back to the sender, the edge that blocking the sender adds closes no cycle. |
| KernelInvariant.AcyclicStop | kernel/ipc.c:178-182 | A process that stops sending, or starts to receive, closes no cycle. |
| KernelInvariant.NoCycle | kernel/ipc.c:106-116 | In a state where every chain of senders ends, no process waits for itself through others. |
| KernelInvariant.CycleNeverDrains | kernel/ipc.c:119-140 | A chain that ends cannot start on a cycle: the walk of the deadlock test would never end there. |
| KernelInvariant.NotReached | kernel/ipc.c:137-141 | If the chain from the receiver ends without meeting the sender, no chain of senders leads to it at all. |
| KernelSteps.InitialInv | kernel/main.c:19-69 | The table the boot loop leaves satisfies the invariant. |
| KernelSteps.WakeSender | kernel/ipc.c:335-364 | Taking any sender out of a queue, first or in the middle, and making it runnable keeps queues exact, the graph acyclic and no rendezvous missed. |
| KernelSteps.BlockSender | kernel/ipc.c:193-212 | Appending a blocked sender to the queue of a receiver that does not wait for it keeps all of that. |
| KernelSteps.BlockReceiver | kernel/ipc.c:366-374 | Blocking a receiver for which nothing is there keeps all of that. |
| KernelSteps.SendSound | kernel/ipc.c:158-221 | Every way a send can end keeps queues exact, the graph acyclic and no rendezvous missed, and a normal end leaves a runnable process current. |
| KernelSteps.ReceiveSound | kernel/ipc.c:238-384 | The same of a receive. |
| KernelSteps.ReceiveAsserts | kernel/ipc.c:376-380 | The assertion that no interrupt is latched fails exactly when the receiver blocks for one certain sender with an interrupt latched. |
| KernelSteps.LatchedReceiveFails | kernel/ipc.c:380 | That happens: after boot, an interrupt for the current process and then its receive from a process that has sent nothing. |
| KernelSteps.InformSound | kernel/ipc.c:396-419 | The same of an interrupt notification: no process that waits for anybody or for an interrupt has one latched. |
| KernelSteps.TickSound | lib/clock.c:9-26 | A clock tick, nested or not, keeps the invariant and always ends with a runnable process current. |
| KernelSteps.StepInv | kernel/ipc.c:158-419 | Every step with any arguments keeps the invariant. |
| KernelSteps.ReachableInv | kernel/main.c:19-69 | In every state a run from boot can reach, queue r holds exactly the processes blocked sending to r, each once; the wait-for graph is acyclic; no rendezvous or interrupt is missed; the current process is runnable. |
| KernelInterrupts.NotifiedStep | kernel/ipc.c:396-419 | An interrupt, or a key press that the clock reports, reaches a process that listens at once, and is latched for one that does not, which stays as it is. |
| KernelInterrupts.AskedStep | kernel/ipc.c:247-271 | A process that asks while one is latched gets the message of an interrupt and goes on running; the latch is empty then, and no sender is served. |
| KernelInterrupts.LatchStep | kernel/ipc.c:263 | The latch changes in no other way. |
| KernelInterrupts.InterruptsConserved | kernel/ipc.c:247-419 | Over every run, each interrupt for a process is delivered once, or merged with one that is latched, or is the one latched at the end. |
| KernelInterrupts.ToldOnce | kernel/ipc.c:263-268 | Between two deliveries to a process there is an interrupt for it. |
| KernelInterrupts.NoInterruptLost | kernel/ipc.c:416-418 | After an interrupt for a process that does not listen, its next request for a message from anybody or for an interrupt is answered by it, whenever that is. |
| KernelInterrupts.HeadTaken | kernel/ipc.c:273-290 | With none latched, a receive from anybody takes the message of the first of the senders, and it out of the queue. |
| KernelInterrupts.SecondTakesHead | kernel/ipc.c:247-290 | So does the second of two receives from anybody with no interrupt in between. |
| KernelFrame.OthersStatus | kernel/ipc.c:158-419 | A process other than the caller keeps its status, unless the step brings what it waits for; then it is runnable. |
| KernelFrame.ServedStatus | kernel/ipc.c:169-182 | Whoever waits for what a send or an interrupt brings is made runnable. |
| KernelFrame.CallerStatus | kernel/ipc.c:193-197 | The caller is blocked, as it asked for, if and only if nothing of what it asks for is there. |
| KernelFrame.WhoRuns | lib/process.c:4-29 | The caller keeps the processor unless it has to wait or its time is up, and then the scheduler's choice runs; time is charged by the clock alone, and given back to all when nobody runnable has any. |
| KernelFrame.ClockCounts | lib/clock.c:10 | The clock counts every tick of a run, nested or not. |
| KernelFrame.CellsKept | kernel/ipc.c:158-419 | No message cell is written but the one the caller names and the one that whoever is served waits in. |
| KernelTable.Machine.DeadlockCheck | kernel/ipc.c:117-142 | The walk ends: it leaves the table if and only if the receiver does not exist or was switched off; otherwise it finds a cycle if and only if a chain of blocked senders leads from the receiver to the sender, and the chain it prints is that chain. |
| KernelTable.Machine.SelectPass | lib/process.c:10-20 | One pass over the table yields the process Best names, and its ticks. |
| KernelTable.Machine.Schedule | lib/process.c:8-28 | The loop ends after at most one refill, or no process is runnable; what it picks and refills is what the abstract scheduler does. |
| KernelTable.Machine.MsgSend | kernel/ipc.c:158-221 | On the linked table, a send to any destination does exactly what the abstract send does: deadlock, hand over, append at the tail, or leave the table. |
| KernelTable.Machine.Handover | kernel/ipc.c:169-192 | The message is in the waiting receiver's buffer, the receiver is runnable, and all twelve assertions around that hold. |
| KernelTable.Machine.Enqueue | kernel/ipc.c:193-218 | The sender is blocked and last in the receiver's queue, and the assertions after that hold. |
| KernelTable.Machine.LinkSender | kernel/ipc.c:199-210 | Following the links to the tail and linking the sender there appends it to the abstract queue and leaves the other queues alone. |
| KernelTable.Machine.MsgReceive | kernel/ipc.c:238-384 | A receive does exactly what the abstract receive does: a latched interrupt first, then the longest waiting sender or the one asked for, else it blocks. |
| KernelTable.Machine.FindSender | kernel/ipc.c:274-333 | The sender found, and the one before it in the queue, are those at the abstract position. |
| KernelTable.Machine.UnlinkSender | kernel/ipc.c:341-350 | Unlinking removes just that sender and keeps the order of the rest. |
| KernelTable.Machine.TakeFrom | kernel/ipc.c:335-364 | The message is copied from the sender's cell and the sender is runnable and out of the queue. |
| KernelTable.Machine.AwaitMessage | kernel/ipc.c:366-381 | The receiver is blocked; the last assertion fails just where the abstract receive says so. |
| KernelTable.Machine.InformInt | kernel/ipc.c:396-419 | An interrupt completes a waiting receive from anybody or from interrupts, or is latched. |
| KernelTable.Machine.ClockHandler | lib/clock.c:9-26 | A tick is counted and charged, a key press is passed on, and the scheduler runs when the tick is not nested and the time is used up. |
| KernelTable.Machine.ChargeTick | lib/clock.c:10-11 | The clock count goes up and the current process has one tick less. |
| KernelTable.Machine.SysSendrec | lib/system_call.c:90-125 | The caller's number is stamped on the message and the request is dispatched; a code that is no process, ANY or INTERRUPT fails its assertion, and a send with one of the last two leaves the table. |
| KernelTable.Machine.constructor | kernel/main.c:19-69 | The table after boot, with the last process switched off, represents an initial state. |
| MessageConservation.SendConserves | kernel/ipc.c:169-197 | A send adds its message to those held, or hands it over. |
| MessageConservation.ReceiveConserves | kernel/ipc.c:335-365 | A receive takes exactly the message it delivers out of those held. |
| MessageConservation.InformConserves | kernel/ipc.c:396-419 | An interrupt neither loses nor alters a held message. |
| MessageConservation.StepConserves | kernel/ipc.c:158-419 | In every step, held after plus delivered equals held before plus accepted. |
| MessageConservation.StampedDelivery | lib/system_call.c:99-101 | Stamping the receiver's own message cell does not change what is delivered to it. |
| MessageConservation.DeliveredArrives | kernel/ipc.c:169-182 | A delivered message is in its addressee's buffer, carries its true sender's number, and the addressee was listening to that sender. |
| MessageConservation.MessagesConserved | kernel/ipc.c:147-156 | Over any run from boot, the messages accepted are those delivered plus those held by blocked senders. |
| KernelFairness.QueueStep | kernel/ipc.c:199-210 | A step leaves a queue as it is, appends the current process, or takes one sender out; a receive from anybody takes the first. |
| KernelFairness.NoOvertaking | kernel/ipc.c:274-281 | While a sender stays queued its position never grows, and every completed receive from anybody moves it one forward. |
| KernelFairness.BoundedSenderWait | kernel/ipc.c:274-281 | A sender at position i is taken no later than the receive from anybody number i + 1. |
| KernelFairness.StepCredit | lib/clock.c:9-22 | While a runnable process is not chosen, every tick that is not nested uses up credit, and no step gives any back. |
| KernelFairness.BoundedDispatch | lib/process.c:8-28 | So a process that stays runnable without being chosen sees no more such ticks than its credit, however the others block and unblock. |
| KernelFairness.CreditBound | lib/process.c:21-27 | The credit is at most the ticks the others have left plus their priorities, and one more only after nested ticks. |
| KernelFairness.PlainStepTime | lib/clock.c:15-22 | Without nested ticks the running process has time left between any two steps. |
| KernelDeadlock.StepUnmoved | kernel/ipc.c:374-380 | No step changes a process that waits, in a send or a receive, for a member of a set whose members all wait that way. |
| KernelDeadlock.DeadForever | kernel/ipc.c:366-374 | Such processes stay blocked in every run. |
| KernelDeadlock.DeadlockUnseen | kernel/ipc.c:106-116 | Such a state is reached from boot by two receives, both of which end normally: the deadlock test covers sends only. |
| KernelDeadlock.SendClosesUnseen | kernel/ipc.c:117-142 | Nor does the test see a circle that a send closes, when a receive is part of it: three requests from boot lead there. |
| KernelDeadlock.DeadHasReceiver | kernel/ipc.c:106-116 | Among processes that wait for one another there always is one that waits in a receive from one of them. |
| KernelDeadlock.SendsAloneSafe | kernel/ipc.c:106-116 | In a run in which nobody asks to receive from one certain process, the test is enough: nobody ever waits for good. |
| KernelDeadlock.StepDeadlocks | kernel/ipc.c:158-384 | A step leads from a state without such processes to one with them, if and only if it blocks the caller, in a send or in a receive from one process, on a process that already waits, directly or through others, for the caller, or that is switched off. |
| KernelDeadlock.StaysDeadlocked | kernel/ipc.c:158-419 | No step leads back. |
| KernelDeadlock.RunDeadlocks | kernel/main.c:19-69 | A run from boot leads to processes that wait for good, if and only if one of its steps closes such a circle. |
| FsBits.Number32RoundTrip | include/sys/fs.h:68-73 | A 32-bit number stored in four bytes is read back. |
| FsDevice.Device.RdSect | include/sys/fs.h:127-132 | One sector is loaded into the start of the buffer; the rest of the buffer stays. |
| FsDevice.Device.WrSect | include/sys/fs.h:133-138 | One sector is stored, and no other changes. |
| FsMaps.ClearBitOf | fs/open.c:252-253 | The loop over the bits of a byte that is not full ends at its lowest clear bit. |
| FsMaps.AllocImapBit | fs/open.c:236-271 | The lowest clear bit of the inode map is set and its number returned; a full map is left as it is and 0 is returned; no other sector changes. |
| FsMaps.FillBits | fs/open.c:312-317 | The bits of one byte from a clear one on are set until the byte ends or enough are set. |
| FsMaps.MarkSector | fs/open.c:299-321 | One sector of the map has just the bits of the run that fall into it set. |
| FsMaps.AllocSmapBit | fs/open.c:284-330 | Exactly the given number of bits from the first clear one on are set, across bytes and sectors, nothing else changes, and the sector that bit stands for is returned. |
| FsFree.ClearRun | fs/link.c:112-115 | The bits of the first byte from the given one on are cleared until the byte ends or none is left. |
| FsFree.ClearWholeBytes | fs/link.c:117-128 | The whole bytes between are cleared, with the next sector loaded when one ends. |
| FsFree.ClearLastByte | fs/link.c:130-139 | The last bits are cleared, also when none are left and when the byte lies in the next sector. |
| FsFree.FreeBits | fs/link.c:99-139 | For any start bit and any length, exactly the bits of the run are cleared, and no other bit of the disk is different. |
| FsFree.FreeUndoesAlloc | fs/link.c:99-139 | Freeing the run of bits that was just allocated leaves the whole disk as it was before. |
| FsInodes.InodeRoundTrip | fs/main.c:447-450 | A stored inode is read back, and the other inodes of its sector are as they were. |
| FsInodes.InodeStored | fs/main.c:479-494 | Storing inode i changes the list of inodes on disk at i only. |
| FsInodes.FindSlot | fs/main.c:416-430 | The scan of the table finds the slot in use for the inode, or the first free one. |
| FsInodes.LoadInode | fs/main.c:439-450 | The inode is read from its place on disk. |
| FsInodes.GetInode | fs/main.c:411-452 | A request for an inode counts up the slot that holds it, or fills the first free slot from disk, or finds none; number 0 gets none. |
| FsInodes.SyncInode | fs/main.c:479-494 | The inode of the slot is what the disk holds for its number afterwards; no other inode or sector changes. |
| FsDirectory.EntryRoundTrip | include/sys/fs.h:101-104 | A stored entry is read back, and its neighbours are as they were. |
| FsDirectory.StripPath | fs/misc.c:97-121 | A good path yields at most twelve characters without a slash, and no zero among them. |
| FsDirectory.StripPathOfName | fs/misc.c:81-89 | A name, with or without one slash in front, stands for itself. |
| FsDirectory.StripPathCuts | fs/misc.c:97-121 | Twelve characters count, after one slash in front: a path is bad exactly when a slash is among them, and what follows makes no difference. |
| FsDirectory.CopyName | fs/misc.c:97-121 | The copying loop succeeds exactly for good paths, leaves the name and a zero in the buffer, and writes nothing behind that. |
| FsDirectory.PaddedInjective | fs/misc.c:55-56 | Different names are stored differently, so comparing twelve bytes compares names. |
| FsDirectory.SearchFile | fs/misc.c:25-66 | The search returns the inode of the first entry with the name, the directory for an empty one, and 0 otherwise. |
| FsDirectory.SearchSector | fs/misc.c:54-59 | The inner loop compares the entries of one sector, the one behind the last included. |
| FsDirectory.SearchAbsent | fs/misc.c:55-58 | A name without an entry is reported as absent if and only if the entry behind the last one is not looked at, does not have the name, or has no inode. |
| FsDirectory.StaleEntryFound | fs/misc.c:55-58 | That fails for a directory of 33 entries with an old entry behind them, in a sector that mkfs has not zeroed: its name is found. |
| FsEntries.FindPlace | fs/open.c:385-410 | A new name goes to the first unused entry, or behind the last one. |
| FsEntries.WriteEntry | fs/open.c:411-415 | The number and the name with one zero behind it are stored in the entry; what twelve characters do to the next entry is part of the result. |
| FsEntries.AddNameKeepsOthers | fs/open.c:411-412 | A new name leaves all other entries alone if and only if it fits: it has at most eleven characters, its entry ends a sector, or the next number has a zero low byte. |
| FsEntries.NewDirEntry | fs/open.c:373-419 | The entry is added, the directory's size grows when no entry was unused, and its inode agrees in the table and on disk. |
| FsEntries.RemoveEntry | fs/link.c:155-197 | The inode's entry is zeroed, and after the last entry the size becomes that of the used ones before it. |
| FsEntries.FindEntryInSector | fs/link.c:173-187 | The inner loop finds the entry and counts the used ones before it. |
| FsTransfer.RdSects | fs/read_write.c:86-91 | A run of sectors is loaded into the buffer, byte for byte. |
| FsTransfer.WrSects | fs/read_write.c:103-108 | A run of sectors is stored, and no other byte of the disk changes. |
| FsTransfer.SpliceInside | fs/read_write.c:86-108 | Reading a stretch of the disk, changing a part of it and writing it all back changes just that part. |
| FsTransfer.TransferChunk | fs/read_write.c:83-109 | One turn of the loop moves exactly its bytes between the disk and the user's buffer. |
| FsTransfer.DoRdWt | fs/read_write.c:67-114 | For every position, length and buffer size, the bytes moved are those of the file at its position, and no other byte of the disk or of the user's buffer changes. |
| FsTransfer.TouchedExactly | fs/read_write.c:67-85 | The sectors touched are those from the first byte's to the end's, rounded up to whole buffers when they do not fit into one. |
| FsTransfer.TransferredWithin | fs/read_write.c:67-85 | A request stays within the file or its extent if and only if it asks for no more than is left there, and then it is done in full. |
| FsTransfer.WritePastExtent | fs/read_write.c:85 | A write that asks for more changes the byte behind the extent. |
| FsInvariant.FreeBlock | fs/open.c:297-330 | The first clear bit of the sector map starts a block; the bits behind it are clear as far as the map goes, so no set bit is met there; there are enough exactly when a whole block is free. |
| FsInvariant.RoomForBlock | fs/open.c:327 | The allocation succeeds if and only if some block of the map is not taken. |
| FsTables.GotCoherent | fs/main.c:411-452 | Getting an inode keeps the table in agreement with the disk, with no inode in two slots. |
| FsTables.AttachTables | fs/open.c:94-103 | Connecting a descriptor keeps every count at least the number of descriptors. |
| FsTables.AttachFiles | fs/open.c:94-99 | No descriptor comes to belong to two open files. |
| FsTables.CloseInv | fs/open.c:177-185 | Closing a file keeps the invariant. |
| FsTables.GetInv | fs/main.c:411-452 | Getting an inode keeps the invariant and leaves a reference that no descriptor accounts for. |
| FsCreate.FullDirectory | fs/open.c:407-410 | A directory without an unused entry has at most 4094 entries when a number is free, so it never has more than 4095. |
| FsCreate.NameAddedDirOk | fs/open.c:373-419 | A new name that fits keeps names and numbers in the directory different, unused entries zero, and the size within 4095 entries. |
| FsCreate.BlockTaken | fs/open.c:284-330 | A new file on a free block keeps extents disjoint and the sector map exact. |
| FsCreate.CreatedInv | fs/open.c:148-167 | Making a file keeps the whole invariant. |
| FsRemove.ShrinkLosesNothing | fs/link.c:185-195 | Removing the last entry leaves no used entry outside the new size if and only if the used ones before it come before the unused ones. |
| FsRemove.BlockFreed | fs/link.c:99-139 | Freeing a file's block keeps extents disjoint and the sector map exact. |
| FsRemove.NameRemovedMap | fs/link.c:75-82 | Clearing the inode's bit and its entry keeps the inode map exact. |
| FsRemove.RemovedInv | fs/link.c:72-197 | Removing a file keeps the whole invariant. |
| FsRuns.LookupInUse | fs/misc.c:25-66 | What a path stands for is an inode in use. |
| FsRuns.OpenInv | fs/open.c:38-132 | An open request keeps the invariant, whether it finds or makes the file or fails. |
| FsRuns.OpenedKind | fs/open.c:105-125 | The assertions on the kind of an opened inode hold: a directory is the root, and what is neither that nor a terminal is a regular file. |
| FsRuns.AdvanceInv | fs/read_write.c:110-122 | Moving on within the extent, and growing the file, keeps the invariant. |
| FsRuns.WriteInv | fs/read_write.c:83-122 | A write within the extent keeps the invariant. |
| FsRuns.UnlinkInv | fs/link.c:25-200 | An unlink request keeps the invariant, whether it removes the file or fails. |
| FsRuns.StepInv | fs/main.c:36-69 | Every request keeps the invariant: disjoint extents, exact maps, a directory of different names, a table that agrees with the disk. |
| FsRuns.ReachableInv | fs/main.c:30-109 | So does every run of requests. |
| FsStore.LookupEntry | fs/misc.c:54-60 | A name stands for the inode of the entry that has it. |
| FsStore.LookupNone | fs/misc.c:64-65 | A name stands for nothing if and only if no entry has it. |
| FsStore.LookupInjective | fs/misc.c:55-56 | Two names never stand for the same inode. |
| FsRefine.WrittenContents | fs/read_write.c:98-122 | After a write the contents are the old ones with the bytes written over them at the position, extended if need be. |
| FsRefine.BasesApart | include/sys/fs.h:60-72 | The extents of two files do not meet. |
| FsRefine.OtherFile | fs/read_write.c:98-109 | A write to one file leaves the contents of every other file as they are. |
| FsRefine.ReadReply | fs/read_write.c:93-97 | A read returns the bytes of the contents from the position on, at least all that are asked for and there. |
| FsRefine.ReadView | fs/read_write.c:83-122 | A read changes what no name stands for, unless it goes past the end: then the file grows to the new position, with its old bytes in front. |
| FsRefine.ReadDenied | fs/read_write.c:35-36 | Without O_RDWR a read fails and changes nothing. |
| FsRefine.WriteView | fs/read_write.c:98-122 | A write changes what its own name stands for, and no other name. |
| FsRefine.CreatedView | fs/open.c:148-167 | Making a file makes its name stand for no bytes, and changes no other name. |
| FsRefine.RemovedView | fs/link.c:25-200 | Removing a file makes its name stand for nothing, and changes no other name. |
| FsTheorems.StepView | fs/main.c:36-69 | After every request each name stands for what a store of named byte sequences says: made empty, written over, read past its end and grown, gone, or the same. |
| FsTheorems.NonInterference | fs/main.c:30-109 | Through any run in which no request is for a file, what its name stands for stays the same. |
| FsTheorems.WrittenIsRead | fs/read_write.c:83-124 | Bytes written are what any later read returns for them, when no request in between is for that file. |
| FsDescriptors.OpenFresh | fs/open.c:55-103 | What is opened is the lowest closed file of the process; it is at its start, with the mode asked for, and has the inode that the path stands for. |
| FsDescriptors.StepFiles | fs/main.c:36-69 | What every request does to every open file: closing closes it, reading and writing move it on by the bytes of the answer, and nothing else touches its descriptor or its inode's number. |
| FsStreams.RunPosition | fs/read_write.c:112 | Over any run in which it is not closed an open file stays the same, and its position moves on by exactly the bytes read and written through it. |
| FsStreams.StepLookup | fs/misc.c:25-66 | A name keeps its inode, unless its file is made or removed. |
| FsStreams.ReadIsThere | fs/read_write.c:93-122 | What a read returns, past the end as well, is what the file holds there afterwards. |
| FsStreams.OpenThenRead | fs/open.c:91-103 | A read through a file that was opened returns what its name stands for, from the start, whatever happens to other files in between. |
| FsStreams.ConsecutiveWrites | fs/read_write.c:110-122 | Two writes through one open file are one write of the bytes of both. |
| FsStreams.ConsecutiveReads | fs/read_write.c:110-122 | Two reads through one open file return consecutive pieces of the file. |
| FsFrame.OpenAnswer | fs/open.c:55-103 | An open request fails if and only if the path is bad, or the file is to be made and exists, or is not to be made and does not; it panics if and only if no file or descriptor is free, or no slot for the inode. |
| FsFrame.UnlinkAnswer | fs/link.c:30-68 | An unlink request panics if and only if the path stands for something whose inode is not loaded and there is no slot for it. |
| FsFrame.WriteDenied | fs/read_write.c:35-36 | Without O_RDWR a write fails and changes nothing. |
| FsFrame.StepDisk | fs/read_write.c:98-122 | Apart from making and removing files, requests change the bytes that are written and the size of the file that is read or written, and nothing else on disk. |
| FsFrame.UnlinkedDisk | fs/link.c:72-150 | A file that is removed leaves an inode of zeros, and no data and no other inode is touched, but the directory's. |
| FsFrame.OpenedDisk | fs/open.c:148-167 | A file that is made takes the lowest free number and the first free sectors, and no data and no other inode is touched, but the directory's. |
| FsUndo.RemoveUndoesMake | fs/link.c:25-200 | Making a file, closing it and removing it succeed, and restore both maps, every entry, all data, and what every name stands for. |
| FsNames.AddKeepsNames | fs/open.c:373-419 | When a name is added to a directory, every other name stands for what it did, if and only if the new one fits. |
| FsNames.OpenKeepsNames | fs/open.c:148-167 | So does every other name after a request that makes a file. |
| FsNames.ShrinkKeepsNames | fs/link.c:185-195 | When the last entry is removed, every other name stands for what it did, if and only if no used entry lies between the end of the search in the new directory and the removed one. |
| FsNames.UnlinkKeepsNames | fs/link.c:25-200 | So does every other name after an unlink request that removes the file in the last entry. |
| FsNames.OneHoleKeepsNames | fs/link.c:185-195 | With one hole before the last entry that holds unless the entry before the last is in use and begins a sector. |
| FsNames.BehindLast | fs/misc.c:55-58 | A name in the entry behind the last is found unless that entry begins a sector. |
| FsNames.OverwrittenName | fs/open.c:407-415 | A new name that finds no unused entry is written over the entry behind the last; the name that was there stands for nothing. |
| FsLostNames.TwelveLosesName | fs/open.c:411-412 | After mkfs, files a and b made, a removed and a file with a name of twelve characters made: b stands for nothing, and its inode stays in use. |
| FsLostNames.TwoHolesLoseName | fs/link.c:194-195 | After mkfs, files a, b, c and d made, and a, b and d removed: c stands for nothing, and its inode stays in use. |
| FsLostNames.OneHoleLosesName | fs/link.c:194-195 | After mkfs, files a, b and c made, and a and c removed: b is still found, also after d is made, and stands for nothing once another file is made. |
| FsExtents.NewFileWritable | fs/open.c:284-330 | Any bytes that its extent has room for can be written to a new file, if and only if the sectors that the first clear bit of the map stands for are on the device. |
| FsExtents.BlocksOnDevice | fs/main.c:186-196 | Every block that the map has bits for is on the device, if and only if the sectors left behind the last full sector of the map have room for what is not in blocks and one block. |
| FsExtents.NewFileBehindDevice | fs/open.c:284-330 | On a device of 4096 sectors the first new file is made, with room in both maps, and its extent ends behind the device. |
| FsReferences.StepSpare | fs/main.c:418-437 | Every request keeps count minus descriptors of every slot, except that an unlink that fails after it got a reference leaves one too many. |
| FsReferences.StepExact | fs/link.c:55-68 | A request keeps every count exactly the number of descriptors, and one for the root, if and only if it is no unlink that fails that way. |
| FsReferences.UnlinkSucceeds | fs/link.c:43-68 | An unlink request removes the file exactly when the path stands for a regular file whose inode is not in the table. |
| FsReferences.OpenFileStays | fs/link.c:64-68 | No open file is ever removed. |
| FsReferences.UnlinkOpenLeaks | fs/link.c:64-68 | An unlink request for an open file always leaves a reference behind. |
| FsReferences.ExactMeansOpen | fs/main.c:457-461 | While counts are exact, an inode is in the table exactly when a descriptor refers to it or it is the root. |
| FsReferences.LeakedForever | fs/link.c:55-68 | A file whose slot has a reference to spare is removed by no later unlink request, after any run. |
| FsReferences.FailedUnlinkIsFinal | fs/link.c:64-68 | After one unlink request for an open file, the file can never be removed, even once it is closed. |
| FsFromMkfs.RunsFromMkfs | fs/main.c:26-110 | Every run of requests from a new file system keeps the invariant. |
| FsFromMkfs.NewInodes | fs/main.c:266-283 | After mkfs the directory has three entries and one block, each terminal a device of its own, and nothing is open. |
| FsFromMkfs.NewNames | fs/main.c:288-302 | The directory is there under the name "." and the terminals under theirs; every other name stands for nothing. |
| FsFromMkfs.RunExact | fs/main.c:457-461 | After a run from a new file system every count is exactly the number of descriptors on the inode, and one for the root, if and only if no request has left a reference behind. |
| FsFromMkfs.ClosedIsRemovable | fs/link.c:43-68 | After such a run without leaks, a regular file is removed exactly when no descriptor is on it and a slot is free to load its inode into. |
| FsViews.DataChanged | fs/read_write.c:103-108 | Storing bytes behind the directory changes neither map, no inode and no entry. |
| FsViews.FreeImapBit | fs/link.c:75-82 | The inode's bit, which is set, is cleared, and no other. |
| FsSuper.SuperLayout | fs/main.c:186-196 | The numbers in the super block describe the layout that maps, inodes and data are at. |
| FsSuper.SuperOffsets | fs/main.c:197-206 | They say where the parts of an inode and of an entry are found. |
| FsSuper.FieldAdded | fs/main.c:208-209 | Storing one more number of the super block leaves those before it. |
| FsSuper.WriteSuper | fs/main.c:208-212 | The super block is in sector 1, with the rest of the sector filled up, and no other sector changes. |
| FsSuper.ReadSuper | fs/main.c:345-372 | The super block that sector 1 holds. |
| FsMkfs.WriteInodeMap | fs/main.c:224-238 | The inode map has its first four bits set. |
| FsMkfs.WriteSectorMap | fs/main.c:243-260 | The sector map has bit 0 and the directory's bits set, over all its sectors. |
| FsMkfs.WriteInodes | fs/main.c:266-283 | The inodes of the directory and of the terminals are stored. |
| FsMkfs.WriteDirectory | fs/main.c:288-302 | The directory has itself and the terminals as entries, and is empty behind them. |
| FsMkfs.MkFs | fs/main.c:164-303 | The super block and all of that together, with the boot sector and the data sectors untouched. |
| FsMkfs.FreshInv | fs/main.c:119-150 | The invariant holds of the new file system. |
| FsMachine.FileSystem.DoClose | fs/open.c:177-185 | On disk and tables, a close request does what the abstract one does. |
| FsMachine.FileSystem.FindFd | fs/open.c:55-61 | The first free entry of the process's files. |
| FsMachine.FileSystem.FindDesc | fs/open.c:66-70 | The first free descriptor. |
| FsMachine.FileSystem.NewInodeSlot | fs/open.c:344-361 | The new inode is in a free slot and on disk. |
| FsMachine.FileSystem.FillFile | fs/open.c:156-166 | Both maps, the inodes, the directory and the table are as the abstract creation makes them. |
| FsMachine.FileSystem.DoOpen | fs/open.c:38-132 | On sectors and tables an open request does what the abstract one does, for any path; it panics exactly when a table is full. |
| FsMachine.FileSystem.DoReadWrite | fs/read_write.c:24-126 | On sectors and tables a read or write request does what the abstract one does, and returns -1 without O_RDWR. |
| FsMachine.FileSystem.MoveOn | fs/read_write.c:112-122 | The position moves on, and the inode is written back when the file has grown. |
| FsMachine.FileSystem.DoUnlink | fs/link.c:25-200 | On sectors and tables an unlink request does what the abstract one does, for any path. |
| FsMachine.FileSystem.RemoveFile | fs/link.c:72-197 | Both maps, the inode, the slot and the directory are as the abstract removal makes them. |
| FsMachine.InitFs | fs/main.c:119-150 | After init_fs, which reads the super block back, the disk and the tables represent a new file system. |
| Tty.EndedStays | kernel/tty.c:136 | Keys that come after the line has ended do not count. |
| Tty.KeyEffect | kernel/tty.c:137-159 | Before the line has ended a printable character is appended, a backspace takes the last one away, a newline ends the line, and any other character does nothing. |
| Tty.BackspaceCancels | kernel/tty.c:145-149 | A printable character and a backspace cancel. |
| Tty.PlainLine | kernel/tty.c:137-159 | Fewer printable characters than asked for, and a newline, are the line. |
| Tty.FullLine | kernel/tty.c:151-159 | As many printable characters as asked for end the line without a newline. |
| Tty.EndsOnce | kernel/tty.c:151-159 | The line ends at one character only, so the reader is resumed once. |
| Tty.Terminal.InProcess | kernel/tty.c:164-176 | A plain key goes to the end of the input if there is room. |
| Tty.Terminal.DoRead | kernel/tty.c:74-86 | The read is noted and the reader suspended. |
| Tty.Terminal.DevWrite | kernel/tty.c:123-162 | The reader's buffer holds the edited line; transferred and left add up to what was asked for until the line ends; exactly then the reader is resumed, with the length of the line. |
| ExitWait.DeliveredConserves | mm/fork.c:265-277 | Telling a waiting parent about a hanging child reports one exit and answers one wait. |
| ExitWait.ExitInv | mm/fork.c:178-253 | An exit as intended, with its children taken over one by one and the assertion at line 246 passed over, keeps the invariant. |
| ExitWait.WaitInv | mm/fork.c:302-346 | A wait keeps the invariant. |
| ExitWait.ForkInv | mm/fork.c:23-45 | A fork keeps the invariant. |
| ExitWait.StepInv | mm/fork.c:131-161 | Every request as intended keeps it: no process waits while a child hangs, every exit is reported once or hangs, every wait is answered once or waits. |
| ExitWait.ReachableInv | mm/main.c:28-61 | So does every run of requests from the start. |
| ExitWait.StepReports | mm/fork.c:267-271 | Every report goes to the process that is the parent then, with the status of a child that has just exited or hangs. |
| ExitWait.ForkTakesFree | mm/fork.c:28-30 | A fork takes a slot that is free, never one that hangs. |
| ExitOutcomes.ExitParents | mm/fork.c:230-232 | When a process exits, INIT becomes the parent of its children, and nobody else gets another parent. |
| ExitOutcomes.StepCared | mm/fork.c:230-232 | Nobody loses the parent: a process without one in the table has been a task from the start. |
| ExitOutcomes.ExitsAreLegal | mm/main.c:28-61 | So in every reachable state every running process but INIT and the tasks has a parent to report its exit to. |
| ExitOutcomes.ExitOutcome | mm/fork.c:200-253 | The process hangs, or is gone when its parent waited; whoever is told waits no more; and nothing else changes. |
| ExitOutcomes.StepLedger | mm/fork.c:200 | Each exit is recorded with its status, and each wait. |
| ExitOutcomes.WaitOutcome | mm/fork.c:302-346 | A wait is answered at once with the first hanging child, whose slot is free then, or with no child when there is none; otherwise the process waits and nothing is reported. |
| ExitOutcomes.ForkOutcome | mm/fork.c:23-44 | A fork makes the first free slot a running child of the process and changes nothing else; without one it changes nothing. |
| ExitHalts.LoopHalts | mm/fork.c:231-251 | The loop as written fails its assertion exactly when it comes to a hanging child while INIT waits, and until then does what is intended. |
| ExitHalts.ExitHaltsExactly | mm/fork.c:178-253 | An exit as written fails the assertion at line 246 if and only if INIT waits, is not the parent of the process, and a child of the process hangs; every other exit is the intended one. |
| ExitHalts.RunsAgree | mm/main.c:28-61 | A run of the code as written fails the assertion if and only if one of its exits meets that condition; every other run is a run of the intended protocol and keeps its invariant. |
| ExitHalts.RunThatHalts | mm/fork.c:246 | Such a run exists: INIT forks 1, 1 forks 2, 2 forks 3, 3 exits, INIT waits, and 2 exits. |
| ProcTable.ProcessManager.DoExit | mm/fork.c:178-253 | On the process table, an exit does what the one as written does, and returns whether the assertion has failed. |
| ProcTable.ProcessManager.Adopt | mm/fork.c:231-251 | One child is taken over by INIT, and told about at once when it hangs and INIT waits, which fails the assertion. |
| ProcTable.ProcessManager.DoWait | mm/fork.c:302-346 | A wait does what the abstract one does: the first hanging child, or WAITING, or an error. |
| ProcTable.ProcessManager.DoFork | mm/fork.c:23-44 | The child is a copy in the first free slot; without one, -1 and no change. |

## Left out

- Atomicity: system_call enables interrupts again (kernel/kernel.asm:282), so in the original a
  clock interrupt can arrive inside a send or a receive; here every step is atomic.
- KernelTable.Machine.SysSendrec: once a pointer has left the table, the outcome is `OffTable`, and
  what the original reads there is not modelled.
- MessageConservation.MessagesConserved: assumes that no process touches a message cell while a
  blocked process waits on it; the original gives no protection against that.
- KernelFairness.CreditBound: has one tick more than the bound for plain ticks when nested ticks
  have used up the running process's time.
- Process flags other than SENDING and RECEIVING in the kernel, pids that differ from indices,
  and the message copy between address spaces.
- FsRuns.StepInv: speaks of the requests `FsRuns.Legal` admits: new names that fit
  (`FsState.NameFits`), reads and writes that stay within the extent and on sectors that exist, room in
  both maps for a new file, no hole before the last entry when that is removed. What the code does
  outside of that is stated by the lemmas named above, per operation: `FsNames` for names,
  `FsExtents` for sectors that do not exist, `FsTransfer` for transfers past the extent.
- FsMachine.FileSystem.DoReadWrite: asks for the transfer to stay within the extent and for the
  sectors to exist; what a request past the extent does is the contract of `FsTransfer.DoRdWt`.
- FsMachine.FileSystem.DoOpen: asks for a free inode number and a free block when it makes a file.
  Without a number the original goes on with number 0 and a null pointer, without a block an
  assertion fails; `FsInvariant.RoomForBlock` says when.
- FsMachine.InitFs: asks for the sectors of the directory behind the first to be zero.
- FsMaps.AllocSmapBit: asks for the bits from the first clear one on to be clear, which is what its
  two assertions check.
- FsFree.FreeBits: asks for the bits to be set, as its assertions do, and for a sector behind the
  map, which it rewrites unchanged when the run ends with the map.
- FsRuns.ReachableInv: after a panic (a full table of files, descriptors or inodes) the run ends,
  and nothing is said of the state it leaves.
- Reading and writing the directory or a terminal through a descriptor, the messages to the
  terminal driver on opening one, the device number of an inode, and the log on disk.
- FsMkfs.MkFs: asks for the sectors of the directory behind the first to be zero, as InitFs does.
  The table of super blocks, of which only the first is used, is not modelled.
- The disk driver: reading and writing a sector is one atomic step, and byte positions are
  unbounded integers.
- Fork copying the open files of a process without counting them, and lseek, which fs/main.c does
  not dispatch.
- Tty.Terminal.DevWrite: the input ring is a sequence; the wrap of its head at kernel/tty.c:172,
  the echo on the screen and the output side of the terminal are not modelled. A read of 0
  characters is never resumed, as in the original.
- ExitWait.StepInv: speaks of exits as intended; `ExitHalts.RunsAgree` says which runs of the code
  that covers, and after a failed assertion nothing follows. The IPC flags of a process, memory,
  descriptors and the message to the file system are left out. INIT and the tasks, which have no
  parent in the table, do not exit; all others can (`ExitOutcomes.ExitsAreLegal`). Slots that are
  free keep a stale parent, so a wait without live children may still wait.
- Keyboard decoding, the console, printing, interrupt entry and exit, paging, segment setup and
  the boot code.
