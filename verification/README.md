# NachOS in Dafny

NachOS is a teaching operating system together with the machine it runs on. This project models the copy under
`nachos/NachOS-4.0/code`: its file system, its threads and synchronization, its simulated processor, interrupt
queue and disk, its containers, and the ownership of page frames. `dafny verify dfyconfig.toml` checks everything.

**File system** (`Layout`, `Bitmap`, `SectorStore`, `FileHeader`, `OpenFile`, `Directory`, `PersistentBitmap`,
`DiskState`, `FileSystem`, `FileSystemRuns`, `Session`). The free map and the directory are files stored in the
sectors that they describe. `DiskStates.DiskInv` says of a whole disk image, byte for byte, which sector belongs to
what; format establishes it and every operation keeps it. `FileSystemRuns` is what a client sees: a finite map from
names (their first nine characters) to byte arrays of fixed length, a count of free sectors, and the files it has
open; its lemmas draw conclusions about whole runs. `Sessions.Session.Execute` shows that any sequence of calls,
with files kept open across them, is such a run.

**Threads** (`Semaphore`, `Kernel`, `Scheduler`, `Lock`, `SynchList`, `SynchDisk`). An interrupts-off region is one
atomic step, split at SWITCH; between steps anyone may run. `Kernels` has the scheduler, thread life cycle and
semaphores with the idle loop and barging; `Schedulers.System` is the code, updating its fields in place, proved
equal to the steps. `Locks`, `SynchLists` and `SynchDisks` are machines over the same semaphore functions in which
every thread may be stopped between any two steps, so their results hold for every scheduler.

**Machine** (`Multiply`, `Translate`, `Instruction`, `Operations`, `MipsMachine`, `Execution`, `UnalignedAccess`,
`Interrupt`, `DiskTiming`). Every instruction is executed in place on the register array and the memory; exceptions
are precise. `Executions` says what instructions mean to a program, in terms of the bytes it can address and the
registers it sees, without the functions that the machine is proved against.
LWL, LWR, SWL and SWR are modelled as in the build with `SIM_FIX`, which the repository's makefiles select.

**Containers and memory** (`Collections`, `List`, `HashTable`, `AddrSpace`). Linked lists refine sequences, the hash
table a map, and page frames are owned by exactly one live address space.

Where the code does something other than its documentation suggests, the model follows the code:

- SRL and SRLV shift a C `int`, so they are arithmetic shifts. `Operations.LogicalShiftIsArithmetic` says exactly
  when that is right, and `Operations.LogicalShiftExample` gives an operand for which it is not.
- `FileHeader::Allocate` does not check a size against its table of 30 sectors. `FileHeaders.TableSuffices` says
  exactly when that goes well: the size is at most MaxFileSize, or the disk does not have the sectors for it and the
  request is refused. `FileHeaders.OverrunExample` and `FileHeaders.RefusedExample` are one of each kind. Create
  asks its caller for no more than that.
- A new file's bytes are whatever its sectors held before; Create says nothing about them but their number.
- The test that clips a request to the length of the file can overflow; `OpenFiles.ClipTest` says when.

What a caller has to guarantee appears as a precondition, and only where the code relies on it: a size within the
table if there is room for it; for a read or write that gets past the first test, a position that is not negative and
a sum within an `int`; and not to use a file after closing it, nor to read or write one after removing it. Time,
scheduling decisions and what interrupt handlers do are arbitrary values.

## Model

| member | source | states |
|---|---|---|
| Sessions.Session.Execute | nachos/NachOS-4.0/code/filesys/filesys.cc:174-286 | any sequence of Create, Remove, Open, Close, Seek, Read and Write calls on a formatted disk, with any number of files open meanwhile, is a run of the map specification; the ownership invariant holds after it and every open file still has the right header |
| Sessions.Session.Perform | nachos/NachOS-4.0/code/filesys/filesys.cc:174-286 | each single call, with its result, is one step of that specification |
| Sessions.Session.WriteBehind | nachos/NachOS-4.0/code/filesys/openfile.cc:81-87 | a Write through an open file replaces exactly the clipped range of that file in the map, and leaves every listed header as it was |
| Sessions.Session.ReadBehind | nachos/NachOS-4.0/code/filesys/openfile.cc:73-79 | a Read through an open file returns the clipped range of what the map holds now, whatever was done since the file was opened |
| Sessions.CreateKeepsHeaders | nachos/NachOS-4.0/code/filesys/filesys.cc:174-214 | the header that an open file holds in memory stays right across a Create |
| Sessions.RemoveKeepsHeaders | nachos/NachOS-4.0/code/filesys/filesys.cc:256-286 | and across the Remove of any other file |
| Sessions.ListedWrite | nachos/NachOS-4.0/code/filesys/openfile.cc:144-183 | writing only data sectors of one listed file keeps the invariant, the free map, the listing and every header, and changes the contents of no other file |
| Sessions.CreateStep | nachos/NachOS-4.0/code/filesys/filesys.cc:174-214 | what Create does to the disk is the specification's Create: it succeeds exactly when the key is new, the directory has room and the sectors suffice |
| Sessions.RemoveStep | nachos/NachOS-4.0/code/filesys/filesys.cc:256-286 | what Remove does to the disk is the specification's Remove: the free sectors grow by the file's header and data sectors |
| Sessions.CreateRemove | nachos/NachOS-4.0/code/filesys/filesys.cc:174-286 | Create followed by Remove of the same key restores the free map, the directory listing and every file exactly |
| FileSystemRuns.ReadBack | nachos/NachOS-4.0/code/filesys/openfile.cc:73-183 | in any run, a Read returns for each byte what the last Write to it put there, through whatever open file, whatever was done to other files, other open files and other bytes in between |
| FileSystemRuns.Durable | nachos/NachOS-4.0/code/filesys/openfile.cc:145-183 | in any run, a byte keeps its value and its file its length until a call touches that byte or removes the file |
| FileSystemRuns.WritesJoin | nachos/NachOS-4.0/code/filesys/openfile.cc:81-87 | two Writes in a row through one open file are one Write of both pieces |
| FileSystemRuns.ReadsJoin | nachos/NachOS-4.0/code/filesys/openfile.cc:73-79 | two Reads in a row through one open file are one Read of both lengths |
| FileSystemRuns.HandleStays | nachos/NachOS-4.0/code/filesys/openfile.cc:54-87 | in any run, an open file stays on its file and at its position until it is used or its file is removed |
| FileSystemRuns.LiveHandles | nachos/NachOS-4.0/code/filesys/filesys.cc:226-240 | in any run, Open gives a new handle, and a handle whose file has not been removed names a file that exists |
| FileSystemRuns.Conservation | nachos/NachOS-4.0/code/filesys/filesys.cc:174-286 | over any run, sectors of listed files and free sectors add up to the same total, never below zero free, and the directory never holds more than ten files |
| FileSystemRuns.CapacityStep | nachos/NachOS-4.0/code/filesys/filesys.cc:174-286 | no single call changes that total |
| FileSystemRuns.CreatedThenOpened | nachos/NachOS-4.0/code/filesys/filesys.cc:174-240 | a file just created opens, under any name with the same key, with the length asked for |
| FileSystemRuns.OpenedThenRead | nachos/NachOS-4.0/code/filesys/filesys.cc:226-240 | a file just opened is read from its first byte, and to its end if enough is asked for |
| FileSystemRuns.SeekSaysWhere | nachos/NachOS-4.0/code/filesys/openfile.cc:54-87 | after a Seek a Read starts at, and a Write replaces from, the position sought, counted from the beginning of the file; the bytes before and behind stay |
| FileSystemRuns.SeekWriteSeekRead | nachos/NachOS-4.0/code/filesys/openfile.cc:54-87 | what was written at a position is read back from it, as far as the file reaches |
| FileSystemRuns.WriteReaches | nachos/NachOS-4.0/code/filesys/openfile.cc:81-87 | a Write reaches every byte of its range that is in the file |
| FileSystemRuns.RemovedIsGone | nachos/NachOS-4.0/code/filesys/filesys.cc:256-286 | Remove takes away exactly the file with that key, makes the handles on it unusable, and leaves all other files and handles as they were |
| FileSystems.FileSystem.Format | nachos/NachOS-4.0/code/filesys/filesys.cc:81-136 | formatting any disk establishes the ownership invariant with no files and five sectors taken; no ASSERT on the two Allocates can fail |
| FileSystems.FileSystem.Mount | nachos/NachOS-4.0/code/filesys/filesys.cc:137-142 | on a formatted disk the two files kept open hold the headers of sectors 0 and 1 |
| FileSystems.FileSystem.Create | nachos/NachOS-4.0/code/filesys/filesys.cc:174-214 | it succeeds if and only if the key is new, fewer than ten files are listed and there are sectors for header and data; a failure leaves the disk unchanged; a success adds one file of the right length and touches only sectors that were free and the two metadata files |
| FileSystems.FileSystem.Open | nachos/NachOS-4.0/code/filesys/filesys.cc:226-240 | null exactly when the key is not listed; otherwise an open file whose bytes are the file's contents |
| FileSystems.FileSystem.Remove | nachos/NachOS-4.0/code/filesys/filesys.cc:256-286 | it succeeds if and only if the key is listed, and then takes exactly that file out and gives back exactly its sectors |
| FileSystems.SectorsHold | nachos/NachOS-4.0/code/filesys/filehdr.cc:46-47 | the sectors taken hold the file, and one less would not |
| FileSystems.FileSystem.Plan | nachos/NachOS-4.0/code/filesys/filesys.cc:191-201 | the in-memory half of Create goes through exactly when directory and free map have room, and then has marked exactly the header sector and the data sectors and filled exactly one entry |
| FileSystems.PlanCarriedOut | nachos/NachOS-4.0/code/filesys/filesys.cc:191-206 | once written back in the order header, directory, free map, the plan is a successful Create |
| FileSystems.RemovalCarriedOut | nachos/NachOS-4.0/code/filesys/filesys.cc:256-286 | once written back, the removal has the promised effect on listing, files and free map |
| FileSystems.FileSystem.ReleaseSectors | nachos/NachOS-4.0/code/filesys/filesys.cc:271-277 | the map loses exactly the file's header and data sectors; Deallocate's ASSERTs hold |
| DiskStates.MarkedMeansOwned | nachos/NachOS-4.0/code/filesys/filesys.cc:81-286 | in every good state the free map marks exactly the sectors of the free-map file, the directory file and each listed file |
| DiskStates.FilesApart | nachos/NachOS-4.0/code/filesys/filesys.cc:81-286 | in every good state no sector belongs to two files, metadata files included |
| DiskStates.CreateKeepsInv | nachos/NachOS-4.0/code/filesys/filesys.cc:174-214 | a carried out Create keeps the ownership invariant |
| DiskStates.RemoveKeepsInv | nachos/NachOS-4.0/code/filesys/filesys.cc:256-286 | a carried out Remove keeps the ownership invariant |
| DiskStates.WriteKeepsInv | nachos/NachOS-4.0/code/filesys/openfile.cc:144-183 | a write inside a listed file keeps the ownership invariant, table and free map |
| DiskStates.FormattedInv | nachos/NachOS-4.0/code/filesys/filesys.cc:81-136 | a freshly formatted disk satisfies the invariant |
| DiskStates.ContentsKept | nachos/NachOS-4.0/code/filesys/filesys.cc:174-286 | rewriting the metadata leaves the contents of every listed file alone |
| DiskStates.WriteLeaves | nachos/NachOS-4.0/code/filesys/openfile.cc:144-183 | writing one listed file leaves the header of every file and the contents of every other alone |
| DiskStates.MetaRebuilt | nachos/NachOS-4.0/code/filesys/filesys.cc:204-206 | after the flush the disk decodes to exactly the table and the map that were in memory |
| DiskStates.FlushCreate | nachos/NachOS-4.0/code/filesys/filesys.cc:204-206 | Create's three writes do not disturb one another, although the free map and the directory are files of the same disk |
| DiskStates.FlushRemove | nachos/NachOS-4.0/code/filesys/filesys.cc:280-281 | the same for Remove's two writes |
| DiskStates.FilesAfterCreate | nachos/NachOS-4.0/code/filesys/filesys.cc:174-214 | the map of files gains exactly the new key |
| DiskStates.FilesAfterRemove | nachos/NachOS-4.0/code/filesys/filesys.cc:256-286 | the map of files loses exactly that key |
| DiskStates.FilesAfterWrite | nachos/NachOS-4.0/code/filesys/openfile.cc:144-183 | the map of files changes at that key only |
| FileHeaders.FileHeader.Allocate | nachos/NachOS-4.0/code/filesys/filehdr.cc:43-59 | it succeeds if and only if enough sectors are clear; then it takes exactly as many distinct free sectors as the size needs, otherwise the map is unchanged; its ASSERT holds; only entries that TableSuffices speaks of change |
| FileHeaders.FileHeader.Deallocate | nachos/NachOS-4.0/code/filesys/filehdr.cc:67-74 | the map loses exactly the data sectors; every one of them was marked, so its ASSERT holds |
| FileHeaders.TableSuffices | nachos/NachOS-4.0/code/filesys/filehdr.cc:46-56 | for every size and every number of clear sectors, the loop stores only inside the sector table if and only if the size is at most MaxFileSize or fewer sectors are clear than it needs |
| FileHeaders.OverrunExample | nachos/NachOS-4.0/code/filesys/filehdr.cc:46-56 | MaxFileSize + 1 bytes with 31 or more sectors clear: entry 30 of a table of 30 is stored to |
| FileHeaders.RefusedExample | nachos/NachOS-4.0/code/filesys/filehdr.cc:46-49 | 200000 bytes: the test of the free map turns the request down on every disk, and nothing is stored |
| FileHeaders.HeaderRoundTrip | nachos/NachOS-4.0/code/filesys/filehdr.cc:83-100 | decoding the bytes of a header gives the header |
| FileHeaders.FileHeader.WriteBack | nachos/NachOS-4.0/code/filesys/filehdr.cc:96-100 | the sector holds the header's bytes and no other sector changes |
| FileHeaders.FileHeader.FetchFrom | nachos/NachOS-4.0/code/filesys/filehdr.cc:83-87 | the header is the one encoded in the sector |
| FileHeaders.SectorPerBlock | nachos/NachOS-4.0/code/filesys/filehdr.cc:112-116 | two bytes of a file are given the same sector if and only if they lie in the same block of SectorSize bytes |
| FileHeaders.EverySectorUsed | nachos/NachOS-4.0/code/filesys/filehdr.cc:112-116 | every data sector of a file holds some byte of it |
| OpenFiles.ClipTest | nachos/NachOS-4.0/code/filesys/openfile.cc:122-125 | with a sum that wraps around, the test that clips a request gives the right answer if and only if the sum does not overflow |
| OpenFiles.ClipMeans | nachos/NachOS-4.0/code/filesys/openfile.cc:122-125 | a byte from the position on is transferred if and only if it is in the range asked for and in the file |
| OpenFiles.OpenFile.ReadAt | nachos/NachOS-4.0/code/filesys/openfile.cc:115-142 | for any position, length and alignment it returns the clipped count and puts exactly those bytes of the file into the buffer |
| OpenFiles.OpenFile.WriteAt | nachos/NachOS-4.0/code/filesys/openfile.cc:144-183 | for any position, length and alignment it replaces exactly the clipped range of the file and changes no sector but the file's data |
| OpenFiles.OpenFile.Read | nachos/NachOS-4.0/code/filesys/openfile.cc:73-79 | reads from the seek position and advances it by the bytes read |
| OpenFiles.OpenFile.Write | nachos/NachOS-4.0/code/filesys/openfile.cc:81-87 | writes from the seek position and advances it by the bytes written |
| OpenFiles.OpenFile.Prefetch | nachos/NachOS-4.0/code/filesys/openfile.cc:164-172 | reading at most the two end sectors makes the buffer agree with the file outside the range to be written |
| OpenFiles.EndsAreEnough | nachos/NachOS-4.0/code/filesys/openfile.cc:164-172 | the alignment tests miss no sector of which part must survive |
| OpenFiles.StoredBytes | nachos/NachOS-4.0/code/filesys/openfile.cc:174-180 | storing the patched buffer changes the file by exactly the new bytes |
| OpenFiles.StoredSector | nachos/NachOS-4.0/code/filesys/openfile.cc:177-180 | the sector loop touches no other sector |
| OpenFiles.BytesFrame | nachos/NachOS-4.0/code/filesys/openfile.cc:115-142 | a file's contents depend on its own data sectors only |
| Directories.StrnEqualMeansSamePrefix | nachos/NachOS-4.0/code/filesys/directory.cc:90-96 | comparing two names and cutting both off agree, for every limit |
| Directories.KeyMeans | nachos/NachOS-4.0/code/filesys/directory.cc:90-96 | the key of a name is its own first n characters unchanged, n being the least of nine, its length and the place of its first NUL |
| Directories.StrnEqualMeans | nachos/NachOS-4.0/code/filesys/directory.cc:90-96 | strncmp finds two names equal if and only if these characters are the same in both |
| Directories.StrnCopyStores | nachos/NachOS-4.0/code/filesys/directory.cc:134-137 | strncpy stores character k of the name at k for every k below n, NULs from there to the limit, and leaves the rest |
| Directories.CopyKeepsPrefix | nachos/NachOS-4.0/code/filesys/directory.cc:134-137 | so the copy of a name in its entry has the same key |
| Directories.Directory.FindIndex | nachos/NachOS-4.0/code/filesys/directory.cc:89-97 | the first entry in use under the key, or -1 when there is none |
| Directories.Directory.Find | nachos/NachOS-4.0/code/filesys/directory.cc:107-115 | the header sector the listing maps the key to, or -1 |
| Directories.Directory.Add | nachos/NachOS-4.0/code/filesys/directory.cc:128-143 | it succeeds if and only if the key is new and an entry is free, and then changes the first free entry only |
| Directories.Directory.Remove | nachos/NachOS-4.0/code/filesys/directory.cc:152-161 | it succeeds if and only if the key is listed, and only clears that entry |
| Directories.ListingAdd | nachos/NachOS-4.0/code/filesys/directory.cc:128-143 | adding under a new key extends the map by exactly that key |
| Directories.ListingRemove | nachos/NachOS-4.0/code/filesys/directory.cc:152-161 | removing takes exactly that key out of the map |
| Directories.ListingFind | nachos/NachOS-4.0/code/filesys/directory.cc:107-115 | the first match is the listing's entry |
| Directories.TableRoundTrip | nachos/NachOS-4.0/code/filesys/directory.cc:62-80 | decoding the bytes of a table gives the table |
| Directories.Directory.FetchFrom | nachos/NachOS-4.0/code/filesys/directory.cc:62-66 | the table becomes the one encoded in the file |
| Directories.Directory.WriteBack | nachos/NachOS-4.0/code/filesys/directory.cc:75-79 | the file holds the bytes of the table, and only its data sectors change |
| PersistentBitmaps.MapRoundTrip | nachos/NachOS-4.0/code/filesys/pbitmap.cc:62-79 | decoding the bytes of a packed map gives the map |
| PersistentBitmaps.FetchFrom | nachos/NachOS-4.0/code/filesys/pbitmap.cc:62-67 | the words become those encoded in the file |
| PersistentBitmaps.WriteBack | nachos/NachOS-4.0/code/filesys/pbitmap.cc:75-79 | the file holds the bytes of the words, and only its data sectors change |
| Layout.IntRoundTrip | nachos/NachOS-4.0/code/filesys/filehdr.cc:83-100 | a C int survives its four bytes |
| Layout.WordRoundTrip | nachos/NachOS-4.0/code/filesys/pbitmap.cc:62-79 | a map word survives its four bytes |
| Layout.UnpackPack | nachos/NachOS-4.0/code/filesys/directory.cc:62-80 | records laid end to end are found again |
| Layout.PackedAt | nachos/NachOS-4.0/code/filesys/directory.cc:62-80 | record k is in the k-th place |
| Layout.RoundedUp | nachos/NachOS-4.0/code/lib/utility.h:25 | divRoundUp is the least number of pieces of the given size that cover its operand |
| Bitmaps.BitUpdated | nachos/NachOS-4.0/code/lib/bitmap.cc:56-80 | the |= and &= on one word change the bit they are for and no other |
| Bitmaps.Bitmap.Mark | nachos/NachOS-4.0/code/lib/bitmap.cc:55-62 | the set of marked indices gains exactly that index |
| Bitmaps.Bitmap.Clear | nachos/NachOS-4.0/code/lib/bitmap.cc:72-79 | the set loses exactly that index |
| Bitmaps.Bitmap.Test | nachos/NachOS-4.0/code/lib/bitmap.cc:89-99 | membership in the set |
| Bitmaps.Bitmap.FindAndSet | nachos/NachOS-4.0/code/lib/bitmap.cc:110-119 | the smallest clear index, which it marks; -1 exactly when none is clear |
| Bitmaps.Bitmap.NumClear | nachos/NachOS-4.0/code/lib/bitmap.cc:128-139 | the number of indices not in the set |
| Kernels.StepInv | nachos/NachOS-4.0/code/threads/synch.cc:75-117 | every atomic step of any thread or interrupt keeps placement, wakeup bound and semaphore balance |
| Kernels.RunInv | nachos/NachOS-4.0/code/threads/scheduler.cc:56-167 | they hold in every state of every run from boot |
| Kernels.OnePlace | nachos/NachOS-4.0/code/threads/scheduler.cc:56-167 | every live thread is running, on the ready list once, or in one semaphore's queue once, as its status says; only the idle loop lets the current thread be ready too |
| Kernels.NoAssertFails | nachos/NachOS-4.0/code/threads/scheduler.cc:103-167 | toBeDestroyed is NULL whenever a finishing thread is switched away from, and the thread deleted is never the current one |
| Kernels.NobodyForgotten | nachos/NachOS-4.0/code/threads/synch.cc:75-117 | under barging, while a queue is not empty the value is at most the number of threads woken that have not tested again; with none, the value is zero |
| Kernels.StepBalanced | nachos/NachOS-4.0/code/threads/synch.cc:75-117 | every V, by a thread or an interrupt, counts the value up by one whether or not it wakes anyone; every return from P counts it down by one; a test returns exactly when the value is not zero |
| Kernels.ValueCounts | nachos/NachOS-4.0/code/threads/synch.cc:75-117 | in every run, the value is the initial value, plus the calls of V counted over the steps, minus the returns from P |
| Kernels.CallsCount | nachos/NachOS-4.0/code/threads/synch.cc:75-92 | in every run, each call of P has returned once, or its thread is still inside |
| Kernels.StepInP | nachos/NachOS-4.0/code/threads/synch.cc:75-92 | a thread gets into P by calling it only, and out of it only by a test that takes a unit |
| Kernels.StepWakeup | nachos/NachOS-4.0/code/threads/synch.cc:75-117 | every step keeps the bound on unclaimed wakeups |
| Kernels.RaiseWakes | nachos/NachOS-4.0/code/threads/synch.cc:102-117 | a V on a queue that is not empty adds exactly one woken thread |
| Kernels.WokenKept | nachos/NachOS-4.0/code/threads/thread.cc:146-255 | forking, finishing, yielding, dispatching and cleaning up neither add nor lose a wakeup |
| Kernels.StepShape | nachos/NachOS-4.0/code/threads/thread.cc:91-255 | every step keeps the placement invariant |
| Kernels.ReadyIsFifo | nachos/NachOS-4.0/code/threads/scheduler.cc:56-85 | the processor is given out in the order in which threads became ready |
| Kernels.TurnComes | nachos/NachOS-4.0/code/threads/scheduler.cc:56-85 | in every run, a thread with p others before it on the ready list is p switches later the first, and the next switch gives it the processor |
| Kernels.ForkedTurn | nachos/NachOS-4.0/code/threads/thread.cc:91-110 | a forked thread is last on the ready list and Ready, and stays on it until the switches for those before it have gone by and one more runs it |
| Kernels.NeverStuck | nachos/NachOS-4.0/code/threads/thread.cc:91-255 | what the running thread can do at each point; the machine is stuck only if no thread is ready and there is no semaphore for an interrupt to raise |
| Kernels.StepPlaces | nachos/NachOS-4.0/code/threads/thread.cc:91-188 | where each step inside a turn leaves its thread: Fork, P, V, Finish, status, place and queue |
| Kernels.SwitchPlaces | nachos/NachOS-4.0/code/threads/thread.cc:146-255 | where a switch leaves the thread switched away from, and that the other goes on in the P it slept in or in its own code, having deleted exactly the finished thread |
| Kernels.WakeupsAreFifo | nachos/NachOS-4.0/code/threads/synch.cc:102-117 | threads leave a semaphore's queue only through V and in the order in which they slept |
| Schedulers.System.Take | nachos/NachOS-4.0/code/threads/scheduler.cc:56-167 | the routines as written, updating the kernel's fields in place, do exactly one step of the machine |
| Schedulers.System.Execute | nachos/NachOS-4.0/code/threads/scheduler.cc:56-167 | whatever schedule is tried, they go through good states only, with every ASSERT holding |
| Schedulers.System.Yield | nachos/NachOS-4.0/code/threads/thread.cc:201-219 | Yield up to SWITCH is the machine's step |
| Schedulers.System.Dispatch | nachos/NachOS-4.0/code/threads/thread.cc:239-255 | Sleep's switch to the thread found is the machine's step |
| Schedulers.System.Proceed | nachos/NachOS-4.0/code/threads/thread.cc:146-154 | cleaning up on either side of a SWITCH is the machine's step |
| Locks.MutualExclusion | nachos/NachOS-4.0/code/threads/synch.cc:182-204 | in every state of every run value plus holders is one, lockHolder is NULL or the one thread inside, and Release's ASSERT holds, also in the windows before lockHolder is set and after it is cleared |
| Locks.NobodyForgotten | nachos/NachOS-4.0/code/threads/synch.cc:182-204 | a thread sleeps in Acquire only while another holds the lock or one that was woken is about to try again |
| Locks.RunInv | nachos/NachOS-4.0/code/threads/synch.cc:182-204 | the lock invariant over every interleaving |
| Locks.CallsCount | nachos/NachOS-4.0/code/threads/synch.cc:182-204 | in every run, calls of Acquire are the calls of Release and the threads that wait for the lock or have it |
| Locks.OnlySleepersWait | nachos/NachOS-4.0/code/threads/synch.cc:182-204 | a thread can go on if and only if it is not asleep in Acquire |
| Locks.StepPhases | nachos/NachOS-4.0/code/threads/synch.cc:182-204 | what each step of Acquire and Release leads to |
| SynchLists.FirstInFirstOut | nachos/NachOS-4.0/code/threads/synchlist.cc:51-81 | under every interleaving, the items appended are the items removed followed by the list |
| SynchLists.NothingLost | nachos/NachOS-4.0/code/threads/synchlist.cc:51-81 | in every run, of the calls of Append with an item, each has it still in hand, on the list, or removed once |
| SynchLists.AppendsCount | nachos/NachOS-4.0/code/threads/synchlist.cc:51-60 | each call of Append has put its item on the list once or is on its way there |
| SynchLists.RemovalsCount | nachos/NachOS-4.0/code/threads/synchlist.cc:69-81 | each call of RemoveFront has taken one item or has yet to |
| SynchLists.WaitersAreFifo | nachos/NachOS-4.0/code/threads/synch.cc:245-285 | signals go to the waiters in the order in which they came, and nothing else takes a waiter off the queue |
| SynchLists.StepProgress | nachos/NachOS-4.0/code/threads/synchlist.cc:51-81 | each step brings its thread nearer to the end of its call, unless it has to sleep or a woken waiter goes back to look at the list |
| SynchLists.StepsAreSafe | nachos/NachOS-4.0/code/threads/synchlist.cc:51-81 | no removal from an empty list, no use of a deleted waiter semaphore, and the lock is held by the caller where Wait, Signal and Release assert it |
| SynchLists.ItemsAreCovered | nachos/NachOS-4.0/code/threads/synchlist.cc:51-81 | with the lock free and waiters queued, the list is no longer than the number of signalled waiters that have not resumed |
| SynchLists.StuckOnlyWhenEmpty | nachos/NachOS-4.0/code/threads/synch.cc:245-285 | when no thread can move, each is idle, or waits in RemoveFront for an empty list: no deadlock, no lost signal |
| SynchLists.BroadcastWakesAll | nachos/NachOS-4.0/code/threads/synch.cc:294-300 | Broadcast ends after exactly three steps for each waiter and two more, whatever other threads do meanwhile; then nobody waits on the condition and every thread that waited when it began has been signalled |
| SynchLists.BroadcastProgress | nachos/NachOS-4.0/code/threads/synch.cc:274-300 | during Broadcast nobody joins the queue, nobody who was on it is lost, and no signalled thread gets back into the monitor |
| SynchLists.StepInv | nachos/NachOS-4.0/code/threads/synchlist.cc:51-81 | every step keeps the monitor's invariant, although list and queue operations are split into a read and a write |
| SynchLists.RunInv | nachos/NachOS-4.0/code/threads/synchlist.cc:51-81 | it holds in every state of every run |
| SynchLists.WorkCovered | nachos/NachOS-4.0/code/threads/synchlist.cc:51-81 | each step inside the monitor keeps the bound on uncovered items |
| SynchDisks.OneRequestAtATime | nachos/NachOS-4.0/code/filesys/synchdisk.cc:57-94 | never more than one request outstanding; the disk is not active whenever a request is made |
| SynchDisks.ReturnsAfterOwnCallBack | nachos/NachOS-4.0/code/filesys/synchdisk.cc:57-94 | a thread leaves its wait only after the callback of its own request; requests complete once each, in order of issue |
| SynchDisks.SleeperWillBeWoken | nachos/NachOS-4.0/code/filesys/synchdisk.cc:57-94 | a thread asleep in its wait has a request whose interrupt is still to come |
| SynchDisks.CallsCount | nachos/NachOS-4.0/code/filesys/synchdisk.cc:57-94 | in every run, each call has made one request or has yet to, and each request but the pending one has had its one callback |
| SynchDisks.StepProgress | nachos/NachOS-4.0/code/filesys/synchdisk.cc:57-94 | each step brings its thread nearer to the end of its call, unless it has to wait for the lock or for its callback |
| SynchDisks.StepInv | nachos/NachOS-4.0/code/filesys/synchdisk.cc:57-94 | every step of threads and device keeps the invariant |
| Multiplication.Mult | nachos/NachOS-4.0/code/machine/mipssim.cc:771-828 | hi:lo is the exact 64-bit product, signed or unsigned, for all operands, -2^31 included |
| Multiplication.MultiplyUnsigned | nachos/NachOS-4.0/code/machine/mipssim.cc:793-814 | the shift-and-add loop with its arithmetic shift of a gives the full unsigned product |
| Multiplication.NextRound | nachos/NachOS-4.0/code/machine/mipssim.cc:799-814 | one round: no bit of the shifted multiplicand or of the sum is lost |
| Multiplication.LastRound | nachos/NachOS-4.0/code/machine/mipssim.cc:805-806 | the early break leaves nothing out |
| Multiplication.AddHalves | nachos/NachOS-4.0/code/machine/mipssim.cc:801-804 | the carry test lo < bLo is right |
| Multiplication.NegateHalves | nachos/NachOS-4.0/code/machine/mipssim.cc:818-824 | the double-word two's complement |
| Operations.OverflowIsExact | nachos/NachOS-4.0/code/machine/mipssim.cc:157-175 | ADD, ADDI and SUB trap exactly when the true result does not fit 32 bits, and otherwise deliver it |
| Operations.SumsWrapAround | nachos/NachOS-4.0/code/machine/mipssim.cc:177-183 | ADDU, ADDIU and SUBU are sums and differences modulo 2^32 of unsigned words, the immediate sign-extended first |
| Operations.UnsignedCompare | nachos/NachOS-4.0/code/machine/mipssim.cc:493-509 | SLTU and SLTIU in terms of signs: a negative word, or a negative immediate, counts as large |
| Operations.ShiftsScale | nachos/NachOS-4.0/code/machine/mipssim.cc:295-513 | SLL multiplies modulo 2^32, SRA divides rounding down, LUI moves the low half of its immediate up |
| Operations.LogicalShiftIsArithmetic | nachos/NachOS-4.0/code/machine/mipssim.cc:520-530 | SRL and SRLV equal the logical shift of the MIPS instruction set if and only if the operand is not negative or the count is zero |
| Operations.LogicalShiftExample | nachos/NachOS-4.0/code/machine/mipssim.cc:520-524 | the operand -2 shifted by one, on which they differ |
| Instructions.Decode | nachos/NachOS-4.0/code/machine/mipssim.cc:725-763 | the decoded extra field is a sign-extended halfword, a shift amount or a jump index, as the opcode needs |
| Instructions.Decoded | nachos/NachOS-4.0/code/machine/mipssim.cc:725-763 | an instruction word put together from its fields decodes to those fields, with the opcode of the table |
| Instructions.AssembledIsDecoded | nachos/NachOS-4.0/code/machine/mipssim.h:117-150 | every instruction is decoded, with its operands, from the word that the MIPS architecture gives it |
| Machines.Machine.OneInstruction | nachos/NachOS-4.0/code/machine/mipssim.cc:120-703 | R0 stays 0 and LoadReg names a general register; fetch faults trap; otherwise registers, memory, exception and page bits are those of the decoded instruction |
| Machines.Machine.Execute | nachos/NachOS-4.0/code/machine/mipssim.cc:154-702 | for every opcode: result registers, next program counters, pending load, memory, exception, and use and dirty bits; Executions says what these are |
| Machines.Machine.ExecuteArith | nachos/NachOS-4.0/code/machine/mipssim.cc:157-192 | one destination register changes, or there is an overflow trap and nothing has |
| Machines.Machine.ExecuteBranch | nachos/NachOS-4.0/code/machine/mipssim.cc:193-261 | link register and target, including what a link does to the branch's own operand |
| Machines.Machine.ExecuteHiLo | nachos/NachOS-4.0/code/machine/mipssim.cc:227-249 | HI and LO after division, multiplication and moves |
| Machines.Machine.Divide | nachos/NachOS-4.0/code/machine/mipssim.cc:227-235 | C's quotient and remainder, by their defining conditions |
| Machines.Machine.ExecuteLoad | nachos/NachOS-4.0/code/machine/mipssim.cc:263-418 | the value that becomes pending, or a trap with the registers as before |
| Machines.Machine.ExecuteStore | nachos/NachOS-4.0/code/machine/mipssim.cc:458-668 | the bytes written, or a trap with memory as before |
| Machines.Machine.DelayedLoad | nachos/NachOS-4.0/code/machine/mipssim.cc:711-718 | the pending load completes, the next is noted, R0 is cleared |
| Machines.Machine.RaiseException | nachos/NachOS-4.0/code/machine/machine.cc:100-105 | state in which the handler is entered |
| Machines.Machine.Translate | nachos/NachOS-4.0/code/machine/translate.cc:184-251 | place or exception for page table and TLB, use and dirty bits; its ASSERT on the physical address holds |
| Machines.Machine.ReadMem | nachos/NachOS-4.0/code/machine/translate.cc:85-117 | value read, or a trap |
| Machines.Machine.WriteMem | nachos/NachOS-4.0/code/machine/translate.cc:135-166 | exactly the addressed bytes are written, or a trap |
| Executions.LoadMeans | nachos/NachOS-4.0/code/machine/mipssim.cc:263-310 | LW makes visible the little-endian word at its address, LH, LHU, LB and LBU the halfword or byte there with or without its sign; memory stays |
| Executions.StoreMeans | nachos/NachOS-4.0/code/machine/mipssim.cc:458-551 | SW, SH and SB put the low bytes of the register at the address and change no other byte of memory |
| Executions.StoreThenLoad | nachos/NachOS-4.0/code/machine/mipssim.cc:263-551 | a load of the width of an earlier store brings back what was stored, modulo that width, whatever the page bits |
| Executions.LoadsAreDelayed | nachos/NachOS-4.0/code/machine/mipssim.cc:692-718 | loads, stores, products and quotients change no general register but the one of the pending load, which completes |
| Executions.RunsOn | nachos/NachOS-4.0/code/machine/mipssim.cc:692-701 | after anything but a branch or jump the program counters move on by one instruction |
| Executions.ResultArrives | nachos/NachOS-4.0/code/machine/mipssim.cc:157-718 | an arithmetic result reaches its register and no other changes, but that a pending load completes and wins |
| Executions.SumMeans | nachos/NachOS-4.0/code/machine/mipssim.cc:157-544 | ADD, ADDI, SUB and their unsigned forms deliver the sum or difference, as a 32-bit word |
| Executions.CompareMeans | nachos/NachOS-4.0/code/machine/mipssim.cc:479-509 | SLT and SLTI compare as ints, SLTU and SLTIU as words |
| Executions.LogicMeans | nachos/NachOS-4.0/code/machine/mipssim.cc:185-681 | AND, OR, XOR, NOR and their immediate forms, by their truth tables bit by bit |
| Executions.VariableShifts | nachos/NachOS-4.0/code/machine/mipssim.cc:470-530 | a shift by a register is the shift by its value modulo 32 |
| Executions.MovesFrom | nachos/NachOS-4.0/code/machine/mipssim.cc:420-427 | MFHI and MFLO deliver HI and LO |
| Executions.MovesTo | nachos/NachOS-4.0/code/machine/mipssim.cc:429-435 | MTHI and MTLO set one of the two |
| Executions.ProductMeans | nachos/NachOS-4.0/code/machine/mipssim.cc:436-445 | HI and LO hold the exact product, of ints for MULT and of words for MULTU |
| Executions.QuotientMeans | nachos/NachOS-4.0/code/machine/mipssim.cc:227-250 | LO and HI hold quotient and remainder as C defines them, of ints for DIV and of words for DIVU; both are zero when the divisor is |
| Executions.BranchMeans | nachos/NachOS-4.0/code/machine/mipssim.cc:193-226 | which conditional branch is taken when, where it goes, and what it links |
| Executions.JumpMeans | nachos/NachOS-4.0/code/machine/mipssim.cc:251-262 | where J, JAL, JR and JALR go, and what they link |
| Executions.TrapsMean | nachos/NachOS-4.0/code/machine/mipssim.cc:157-690 | exactly which instructions trap, when, and with which exception |
| Executions.FaultsMean | nachos/NachOS-4.0/code/machine/translate.cc:184-251 | which exception a bad access raises, in which order they are tested, and otherwise the place |
| Executions.TlbMeans | nachos/NachOS-4.0/code/machine/translate.cc:212-225 | a TLB translates as a page table would that has its first valid entry for the page |
| Machines.PagesMarked | nachos/NachOS-4.0/code/machine/translate.cc:244-251 | an instruction makes a page dirty exactly when it writes there and in use exactly when it reads or writes there, and changes nothing else in an entry |
| Translation.SamePage | nachos/NachOS-4.0/code/machine/translate.cc:184-251 | the bytes of an aligned access lie at consecutive physical addresses of one page |
| Translation.MapsAlike | nachos/NachOS-4.0/code/machine/translate.cc:244-246 | use and dirty bits have no effect on translation |
| Translation.WriteReadWord | nachos/NachOS-4.0/code/machine/translate.cc:85-166 | a word written to memory is read back |
| UnalignedAccess.UnalignedLoad | nachos/NachOS-4.0/code/machine/mipssim.cc:312-418 | LWR at a and LWL at a + 3, in either order, with or without an interrupt between them, make the register the little-endian word at a, for every alignment |
| UnalignedAccess.UnalignedStore | nachos/NachOS-4.0/code/machine/mipssim.cc:552-668 | SWR at a and SWL at a + 3, in either order, write exactly the four bytes at a, even when both pages share a frame |
| UnalignedAccess.StoredThenLoaded | nachos/NachOS-4.0/code/machine/mipssim.cc:312-668 | a register stored at a by the pair of stores, in either order, is what the pair of loads, in either order, later brings back from a, with or without an interrupt between the loads |
| UnalignedAccess.LeftBytes | nachos/NachOS-4.0/code/machine/mipssim.cc:337-362 | LWL's shifts and masks, as bytes |
| UnalignedAccess.RightBytes | nachos/NachOS-4.0/code/machine/mipssim.cc:389-418 | LWR's shifts and masks, as bytes |
| UnalignedAccess.StoreLeftBytes | nachos/NachOS-4.0/code/machine/mipssim.cc:577-609 | SWL's shifts and masks, as bytes |
| UnalignedAccess.StoreRightBytes | nachos/NachOS-4.0/code/machine/mipssim.cc:638-668 | SWR's shifts and masks, as bytes |
| UnalignedAccess.FlushKeepsVisible | nachos/NachOS-4.0/code/machine/interrupt.cc:309-311 | an interrupt that completes the pending load does not change what the program sees |
| UnalignedAccess.ExceptionsArePrecise | nachos/NachOS-4.0/code/machine/mipssim.cc:120-690 | on every exception exit of every instruction memory, program counters, HI and LO are as before, and general registers but for the pending load |
| UnalignedAccess.TrapIsPrecise | nachos/NachOS-4.0/code/machine/machine.cc:100-105 | the same for any trap, with the bad address noted |
| Interrupts.Interrupt.Schedule | nachos/NachOS-4.0/code/machine/interrupt.cc:256-267 | the queue stays sorted, ties in order of scheduling, and nothing becomes due |
| Interrupts.Interrupt.CheckIfDue | nachos/NachOS-4.0/code/machine/interrupt.cc:280-322 | returns whether anything fired; afterwards nothing is overdue; the clock moves only when idle, to the next interrupt |
| Interrupts.Interrupt.Dispatch | nachos/NachOS-4.0/code/machine/interrupt.cc:313-320 | the loop ends, since every delivery lowers the number due whatever handlers schedule |
| Interrupts.Interrupt.FireFirst | nachos/NachOS-4.0/code/machine/interrupt.cc:315-317 | exactly the front is delivered, and the number due drops by one |
| Interrupts.Interrupt.OneTick | nachos/NachOS-4.0/code/machine/interrupt.cc:147-178 | the clock advances by the tick of the mode and nothing is left overdue |
| Interrupts.Interrupt.SetLevel | nachos/NachOS-4.0/code/machine/interrupt.cc:123-136 | enabling what was disabled, and nothing else, costs one system tick, after which nothing is overdue |
| Interrupts.Interrupt.Idle | nachos/NachOS-4.0/code/machine/interrupt.cc:207-227 | something is delivered exactly when anything was pending |
| Interrupts.Interrupt.Deliveries | nachos/NachOS-4.0/code/machine/interrupt.cc:256-322 | in every reachable state: no interrupt delivered twice or early, deliveries in order of due time and then of scheduling, and none lost |
| Interrupts.Interrupt.NothingMissed | nachos/NachOS-4.0/code/machine/interrupt.cc:280-322 | once caught up, everything due has been delivered |
| Interrupts.InsertInOrder | nachos/NachOS-4.0/code/lib/list.cc:232-260 | inserting by due time keeps ties first in, first out |
| DiskTiming.Disk.Request | nachos/NachOS-4.0/code/machine/disk.cc:113-151 | the sector is read or written at once; the request completes exactly when the sector has passed in full for the first time after the head is on its track and at a boundary, or one slot later on a buffer hit; over n tracks not before 500 n ticks and one slot; latency is bounded; the buffer start stays a slot boundary in the past |
| DiskTiming.Disk.ComputeLatency | nachos/NachOS-4.0/code/machine/disk.cc:229-250 | a read is served from the buffer if and only if a slot of its sector passed in full since the buffer was emptied |
| DiskTiming.Disk.TimeToSeek | nachos/NachOS-4.0/code/machine/disk.cc:176-190 | seek time by tracks, and rotation to the first boundary after it |
| DiskTiming.SeekOver | nachos/NachOS-4.0/code/machine/disk.cc:176-190 | seeking costs 500 ticks for every track crossed, in either direction |
| DiskTiming.SeekAddsUp | nachos/NachOS-4.0/code/machine/disk.cc:176-190 | seek times are zero on a track, 500 to its neighbour, symmetric, and add up along the way |
| DiskTiming.NextPass | nachos/NachOS-4.0/code/machine/disk.cc:199-206 | ModuloDiff leads to the next slot in which the sector passes |
| DiskTiming.BufferTest | nachos/NachOS-4.0/code/machine/disk.cc:236-243 | the count of slots against a distance decides whether the sector is in the buffer |
| DiskTiming.Disk.UpdateLast | nachos/NachOS-4.0/code/machine/disk.cc:258-268 | the buffer is emptied exactly by a change of track |
| DiskTiming.Disk.CallBack | nachos/NachOS-4.0/code/machine/disk.cc:158-163 | the disk is idle again, with the buffer start not in the future |
| Lists.List.Append | nachos/NachOS-4.0/code/lib/list.cc:73-90 | the sequence gains the item at its end; the chain stays well linked |
| Lists.List.Prepend | nachos/NachOS-4.0/code/lib/list.cc:96-113 | the sequence gains the item at its front |
| Lists.List.RemoveFront | nachos/NachOS-4.0/code/lib/list.cc:123-142 | the first item, and the rest of the sequence |
| Lists.List.Remove | nachos/NachOS-4.0/code/lib/list.cc:149-178 | exactly that item leaves the sequence |
| Lists.List.IsInList | nachos/NachOS-4.0/code/lib/list.cc:186-198 | membership in the sequence |
| Lists.List.SanityCheck | nachos/NachOS-4.0/code/lib/list.cc:270-290 | none of its ASSERTs can fail on a list that satisfies the invariant |
| Lists.SortedList.Insert | nachos/NachOS-4.0/code/lib/list.cc:232-260 | the pointer walk inserts before the first item that comes after the new one |
| Lists.InsertedSorted | nachos/NachOS-4.0/code/lib/list.cc:232-260 | that keeps a sorted list sorted, is a permutation, and is stable on ties |
| HashTables.HashTable.Insert | nachos/NachOS-4.0/code/lib/hash.cc:108-124 | the map gains the item under its key; load stays at most three items for each bucket |
| HashTables.HashTable.Remove | nachos/NachOS-4.0/code/lib/hash.cc:208-223 | the map loses the key, and its item is returned |
| HashTables.HashTable.Find | nachos/NachOS-4.0/code/lib/hash.cc:191-198 | lookup in the map |
| HashTables.HashTable.ReHash | nachos/NachOS-4.0/code/lib/hash.cc:134-153 | the map is unchanged, and every item sits in its bucket of the bigger table |
| HashTables.HashTable.MoveFirst | nachos/NachOS-4.0/code/lib/hash.cc:144-149 | moving one item keeps it in exactly one of the two arrays |
| HashTables.HashTable.FindInBucket | nachos/NachOS-4.0/code/lib/hash.cc:166-183 | first position of the key in a bucket |
| HashTables.HashTable.FindNextFullBucket | nachos/NachOS-4.0/code/lib/hash.cc:249-259 | the next bucket that holds anything |
| HashTables.HashIterator.Next | nachos/NachOS-4.0/code/lib/hash.cc:347-360 | steps to the next item of the table |
| HashTables.VisitAll | nachos/NachOS-4.0/code/lib/hash.cc:330-360 | an iterator visits every item of the map exactly once |
| HashTables.Added | nachos/NachOS-4.0/code/lib/hash.cc:108-124 | appending to the bucket of the key extends the map by that key |
| HashTables.TakenOut | nachos/NachOS-4.0/code/lib/hash.cc:208-223 | taking an item out of its bucket removes its key from the map |
| HashTables.ItemsDiffer | nachos/NachOS-4.0/code/lib/hash.cc:330-360 | the items listed have different keys |
| AddrSpaces.AddrSpace.Load | nachos/NachOS-4.0/code/userprog/addrspace.cc:117-153 | it succeeds if and only if enough frames are clear; FindAndSet then never fails, and each page has a frame of its own that was free |
| AddrSpaces.PagesCover | nachos/NachOS-4.0/code/userprog/addrspace.cc:117-130 | the pages hold code, data and 1024 bytes of stack with less than a page to spare |
| AddrSpaces.AddrSpace.Destroy | nachos/NachOS-4.0/code/userprog/addrspace.cc:76-84 | exactly the space's frames are given back |
| AddrSpaces.AddrSpace.Translate | nachos/NachOS-4.0/code/userprog/addrspace.cc:281-324 | exception or physical address, use and dirty bits; its ASSERT holds |
| AddrSpaces.Isolation | nachos/NachOS-4.0/code/userprog/addrspace.cc:281-324 | two different (space, address) pairs of live spaces never translate to the same physical address |
| AddrSpaces.LoadKeepsOwned | nachos/NachOS-4.0/code/userprog/addrspace.cc:117-153 | loading keeps the frame map equal to the frames of live spaces, all disjoint |
| AddrSpaces.DestroyKeepsOwned | nachos/NachOS-4.0/code/userprog/addrspace.cc:76-84 | so does destroying |
| AddrSpaces.TranslatesOwnPages | nachos/NachOS-4.0/code/userprog/addrspace.cc:281-324 | a space translates exactly the addresses below its size, each page to its own frame at the same offset |
| AddrSpaces.TranslationsAgree | nachos/NachOS-4.0/code/machine/translate.cc:184-251 | the machine's translation of a byte agrees with the kernel's wherever the page table entry is valid or there is none |
| AddrSpaces.Kernel.StartProgram | nachos/NachOS-4.0/code/userprog/addrspace.cc:97-186 | a program that fits gets a new space; one that does not changes nothing |
| AddrSpaces.Kernel.DestroySpace | nachos/NachOS-4.0/code/userprog/addrspace.cc:76-84 | a destroyed space gives back exactly its frames |
| AddrSpaces.Kernel.Execute | nachos/NachOS-4.0/code/userprog/addrspace.cc:76-186 | ownership of frames holds after any sequence of loads and destructions |

## Left out

- The stub file system that `FILESYS_STUB` selects; the model is of the full one.
- Crash consistency and concurrent calls to the file system, both of which the code disclaims.
- What ReadAt and WriteAt do when their sum overflows or the position inside the file is negative, and overflow of the
  simulated clock; ticks are unbounded integers.
- The bytes of a directory entry that belong to no field: they are written as zero. Sector contents assume a
  little-endian host with 4-byte ints.
- Reading or writing an open file after it was removed, when its sectors may belong to another.
- Lock, Condition, SynchList and SynchDisk as objects updated in place: their operations block in the middle, so
  several threads' steps interleave inside one method. They are modelled on values, as the state changes of each
  step, and no aliasing is captured.
- The lists inside Semaphore, Scheduler, Interrupt and HashTable are sequences there; their pointer form is
  modelled once, in `List`.
- SWITCH itself, stacks, fence posts and user-register save and restore: SWITCH is a change of current thread.
- Deleting a semaphore on which threads still wait, which the code tells callers not to do.
- Thread names, and the address space of a thread.
- Machines.Machine.RaiseException: does not model the kernel's exception handler, which follows it.
- Machines.Machine.ExecuteHiLo: does not model the host's trap on -2^31 / -1, which C leaves undefined; the quotient
  wraps around.
- The build without `SIM_FIX`, in which the unaligned instructions assert that their address is aligned.
- Machines.Machine.Translate: the ASSERTs that exactly one of page table and TLB exists hold by construction.
- Interrupts.Interrupt.OneTick: does not model the yield itself, which is a step of the thread machine.
- AddrSpaces.AddrSpace.Load: does not model reading the executable, nor clearing its frames and copying code and data
  into them (the data does not follow the page table); and a program
  larger than memory, on which an ASSERT fails, is excluded by a precondition.
- Consoles, network, system calls, process and semaphore tables, statistics, debug output and self tests.
- The copies under NACHOS_P1, which repeat these files.
